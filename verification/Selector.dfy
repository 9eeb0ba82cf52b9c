/** Choosing `n` replicas spread over the data centers: `select_n_nodes` and `NodeCycler` of
datacake-node/src/nodes_selector.rs. */
module Selector {
  import opened Hlc
  import opened Records

  type Addr = nat

  datatype Selection = Selected(nodes: seq<Addr>) | NotEnoughNodes(live: nat, required: nat)

  /** The addresses of one data center and where its cycler stands. */
  datatype Site = Site(nodes: seq<Addr>, cursor: nat) {
    /** A cursor past the end wraps. */
    function Here(): nat { if cursor >= |nodes| then 0 else cursor }

    function Peek(): Addr
      requires nodes != []
    {
      nodes[Here()]
    }

    function Next(): Site { Site(nodes, Here() + 1) }
  }

  predicate Distinct(s: seq<Addr>) { forall i, j :: 0 <= i < j < |s| ==> s[i] != s[j] }

  /** The first node taken from a data center: the next one, or the one after if that is the local
  node. There is none in an empty data center or in one that is only the local node. */
  function First(site: Site, local: Addr): (r: (Site, Option<Addr>))
    ensures r.0.nodes == site.nodes
    ensures r.1.Some? ==> r.1.value in site.nodes
    ensures Distinct(site.nodes) ==> (r.1.Some? <==> exists a :: a in site.nodes && a != local)
    ensures Distinct(site.nodes) && r.1.Some? ==> r.1.value != local
  {
    if site.nodes == [] then (site.Next(), None)
    else if site.Peek() != local then (site.Next(), Some(site.Peek()))
    else if |site.nodes| <= 1 then (site.Next(), None)
    else (site.Next().Next(), Some(site.Next().Peek()))
  }

  /** What has been selected, and how many nodes are still to be found beyond one a data center. */
  datatype Round = Round(site: Site, selected: seq<Addr>, extra: nat)

  /** Further nodes of the same data center: each of `times` tries may meet the local node or one
  already selected, and then comes to nothing. */
  function Extras(r: Round, local: Addr, times: nat): (p: Round)
    requires r.site.nodes != [] && times <= r.extra
    ensures p.site.nodes == r.site.nodes
    ensures |p.selected| + p.extra == |r.selected| + r.extra && r.extra - times <= p.extra <= r.extra
  {
    if times == 0 then r
    else
      var p := Extras(r, local, times - 1);
      var node := p.site.Peek();
      if node == local || node in p.selected then Round(p.site.Next(), p.selected, p.extra)
      else Round(p.site.Next(), p.selected + [node], p.extra - 1)
  }

  /** How many extra nodes are taken from one of the `dcs` data centers left. */
  function Share(extra: nat, dcs: nat): (share: nat)
    requires dcs > 0
    ensures share <= extra
    ensures dcs <= 2 ==> share == extra
    ensures dcs > 1 ==> share * (dcs - 1) <= extra < (share + 1) * (dcs - 1)
  {
    QuotientAtMost(extra, Max(dcs - 1, 1));
    QuotientMeans(extra, Max(dcs - 1, 1));
    extra / Max(dcs - 1, 1)
  }

  lemma QuotientMeans(a: nat, b: nat)
    requires b > 0
    ensures a / b * b <= a < (a / b + 1) * b
  {
    var q := a / b;
    assert a == q * b + a % b;
    assert (q + 1) * b == q * b + b;
  }

  lemma QuotientAtMost(a: nat, b: nat)
    requires b > 0
    ensures 0 <= a / b <= a && (b == 1 ==> a / b == a)
  {
    if b > 1 {
      Multiple(a, b);
      ProductAtLeast(a / b, b);
    }
  }

  lemma Multiple(a: nat, b: nat)
    requires b > 0
    ensures 0 <= a / b && a / b * b <= a
  {
    assert a / b * b + a % b == a;
  }

  lemma {:induction false} ProductAtLeast(q: nat, b: nat)
    requires b > 0
    ensures q * b >= q
  {
    if b > 1 {
      ProductAtLeast(q, b - 1);
      assert q * b == q * (b - 1) + q;
    }
  }

  datatype Tab = Tab(selected: seq<Addr>, extra: nat, dcs: nat)

  /** One data center's turn. */
  function Visit(t: Tab, site: Site, local: Addr): (r: (Tab, Site))
    requires t.dcs > 0
    ensures r.1.nodes == site.nodes
    ensures |r.0.selected| + r.0.extra == |t.selected| + t.extra + 1 && t.dcs - 1 <= r.0.dcs <= t.dcs
  {
    var (after, first) := First(site, local);
    match first
    case None => (Tab(t.selected, t.extra + 1, t.dcs - 1), after)
    case Some(node) =>
      if t.extra == 0 then (Tab(t.selected + [node], 0, t.dcs), after)
      else
        var r := Extras(Round(after, t.selected + [node], t.extra), local, Share(t.extra, t.dcs));
        (Tab(r.selected, r.extra, t.dcs - 1), r.site)
  }

  /** The whole loop. Selected nodes, extra nodes and data centers still to come add up to the same
  number throughout, whatever the cursors are. */
  function Visits(t: Tab, sites: seq<Site>, local: Addr): (r: Tab)
    requires |sites| <= t.dcs
    ensures |r.selected| + r.extra == |t.selected| + t.extra + |sites|
    ensures t.dcs - |sites| <= r.dcs
  {
    if sites == [] then t
    else Visit(Visits(t, sites[..|sites| - 1], local), sites[|sites| - 1], local).0
  }

  /** Where the cycler of the `i`-th data center visited stands afterwards. */
  function SiteAfter(t: Tab, sites: seq<Site>, local: Addr, i: nat): Site
    requires |sites| <= t.dcs && i < |sites|
  {
    Visit(Visits(t, sites[..i], local), sites[i], local).1
  }

  lemma SiteAfterIs(t: Tab, sites: seq<Site>, local: Addr, i: nat)
    requires |sites| <= t.dcs && i < |sites|
    ensures SiteAfter(t, sites, local, i) == Visit(Visits(t, sites[..i], local), sites[i], local).1
  {
  }

  /* Who is selected. */

  /** The data centers hold distinct addresses and share none. */
  ghost predicate Apart(sites: seq<Site>) {
    (forall i :: 0 <= i < |sites| ==> Distinct(sites[i].nodes))
    && forall i, j, a :: 0 <= i < |sites| && 0 <= j < |sites| && i != j && a in sites[i].nodes ==> a !in sites[j].nodes
  }

  ghost predicate Remote(selected: seq<Addr>, local: Addr) { Distinct(selected) && local !in selected }

  lemma AppendDistinct(s: seq<Addr>, a: Addr, local: Addr)
    requires Remote(s, local) && a !in s && a != local
    ensures Remote(s + [a], local)
  {
  }

  lemma {:induction false} ExtrasAreRemote(r: Round, local: Addr, times: nat)
    requires r.site.nodes != [] && times <= r.extra && Remote(r.selected, local)
    ensures var p := Extras(r, local, times);
            Remote(p.selected, local) && r.selected <= p.selected
            && forall a :: a in p.selected ==> a in r.selected || a in r.site.nodes
  {
    if times > 0 {
      ExtrasAreRemote(r, local, times - 1);
      var p := Extras(r, local, times - 1);
      var node := p.site.Peek();
      if node != local && node !in p.selected {
        AppendDistinct(p.selected, node, local);
      }
    }
  }

  /** The address is one of some data center. */
  ghost predicate Listed(sites: seq<Site>, a: Addr) { exists i :: 0 <= i < |sites| && a in sites[i].nodes }

  /** A data center with a remote node has one selected. */
  ghost predicate Gives(selected: seq<Addr>, site: Site, local: Addr) {
    (exists a :: a in site.nodes && a != local) ==> exists a :: a in selected && a in site.nodes
  }

  lemma VisitIsRemote(t: Tab, site: Site, local: Addr)
    requires t.dcs > 0 && Remote(t.selected, local) && Distinct(site.nodes)
    requires forall a :: a in site.nodes ==> a !in t.selected
    ensures var s := Visit(t, site, local).0.selected;
            Remote(s, local) && t.selected <= s && Gives(s, site, local)
            && (forall a :: a in s ==> a in t.selected || a in site.nodes)
  {
    var (after, first) := First(site, local);
    if first.Some? {
      var one := t.selected + [first.value];
      AppendDistinct(t.selected, first.value, local);
      assert first.value in one && first.value in site.nodes;
      if t.extra > 0 {
        ExtrasAreRemote(Round(after, one, t.extra), local, Share(t.extra, t.dcs));
      }
    }
  }

  lemma StillGives(s: seq<Addr>, s': seq<Addr>, site: Site, local: Addr)
    requires Gives(s, site, local) && s <= s'
    ensures Gives(s', site, local)
  {
    if exists a :: a in s && a in site.nodes {
      var a :| a in s && a in site.nodes;
      assert a in s';
    }
  }

  lemma ListedApart(sites: seq<Site>, a: Addr)
    requires sites != [] && Apart(sites) && a in sites[|sites| - 1].nodes
    ensures Apart(sites[..|sites| - 1]) && !Listed(sites[..|sites| - 1], a)
  {
  }

  lemma ListedBefore(sites: seq<Site>, a: Addr)
    requires sites != []
    ensures Listed(sites, a) <==> Listed(sites[..|sites| - 1], a) || a in sites[|sites| - 1].nodes
  {
    if Listed(sites, a) && a !in sites[|sites| - 1].nodes {
      var i :| 0 <= i < |sites| && a in sites[i].nodes;
      assert a in sites[..|sites| - 1][i].nodes;
    }
    if Listed(sites[..|sites| - 1], a) {
      var i :| 0 <= i < |sites| - 1 && a in sites[..|sites| - 1][i].nodes;
      assert a in sites[i].nodes;
    }
  }

  /** Whatever the cursors: the nodes selected are distinct, none is the local one, all come from the
  data centers visited, and every data center that has a remote node gives at least one. */
  lemma {:induction false} SelectedAreRemote(t: Tab, sites: seq<Site>, local: Addr)
    requires |sites| <= t.dcs && t.selected == [] && Apart(sites)
    ensures var s := Visits(t, sites, local).selected;
            Remote(s, local)
            && (forall a :: a in s ==> Listed(sites, a))
            && (forall i :: 0 <= i < |sites| ==> Gives(s, sites[i], local))
  {
    if sites != [] {
      var l := |sites| - 1;
      var before := Visits(t, sites[..l], local);
      var s := Visits(t, sites, local).selected;
      assert s == Visit(before, sites[l], local).0.selected;
      assert Apart(sites[..l]) && Distinct(sites[l].nodes);
      SelectedAreRemote(t, sites[..l], local);
      forall a | a in sites[l].nodes ensures a !in before.selected {
        ListedApart(sites, a);
      }
      hide Visit, Visits, Remote, Gives, Listed, Apart, Distinct;
      VisitIsRemote(before, sites[l], local);
      forall a | a in s ensures Listed(sites, a) {
        ListedBefore(sites, a);
      }
      forall i | 0 <= i < l ensures Gives(s, sites[i], local) {
        assert sites[..l][i] == sites[i];
        StillGives(before.selected, s, sites[i], local);
      }
    }
  }

  /* Whether enough are selected. */

  /** The position `i` steps on from `p`, within one turn around the list. */
  function Around(p: nat, i: nat, len: nat): (at: nat)
    requires p < len && i <= len
    ensures at < len
  {
    if p + i < len then p + i else p + i - len
  }

  /** The `count` nodes that come up from the cursor on. */
  function Coming(site: Site, count: nat): (nodes: seq<Addr>)
    requires count <= |site.nodes|
    ensures |nodes| == count
    ensures site.nodes != [] ==> forall i :: 0 <= i < count ==> nodes[i] == site.nodes[Around(site.Here(), i, |site.nodes|)]
  {
    seq(count, i requires 0 <= i < count => site.nodes[Around(site.Here(), i, |site.nodes|)])
  }

  lemma {:induction false} ExtrasMove(r: Round, local: Addr, times: nat)
    requires r.site.nodes != [] && times <= r.extra && times <= |r.site.nodes|
    ensures Extras(r, local, times).site.Here() == Around(r.site.Here(), times, |r.site.nodes|)
  {
    if times > 0 {
      ExtrasMove(r, local, times - 1);
    }
  }

  lemma ComingOneMore(site: Site, count: nat)
    requires 0 < count <= |site.nodes| && Distinct(site.nodes)
    ensures var node := site.nodes[Around(site.Here(), count - 1, |site.nodes|)];
            Coming(site, count) == Coming(site, count - 1) + [node] && node !in Coming(site, count - 1)
  {
  }

  lemma WithoutOneMore(before: seq<Addr>, coming: seq<Addr>, node: Addr, local: Addr)
    requires node !in before && node !in coming
    ensures var s := before + Without(coming, local);
            before + Without(coming + [node], local) == if node == local || node in s then s else s + [node]
  {
    WithoutIn(coming, local);
    assert (coming + [node])[..|coming|] == coming;
  }

  /** As long as they do not come round, the extra nodes are those that come up, the local one left
  out. */
  lemma {:induction false} ExtrasComeUp(r: Round, local: Addr, times: nat)
    requires r.site.nodes != [] && times <= r.extra && times <= |r.site.nodes|
    requires Distinct(r.site.nodes) && forall a :: a in Coming(r.site, times) ==> a !in r.selected
    ensures Extras(r, local, times).selected == r.selected + Without(Coming(r.site, times), local)
  {
    if times > 0 {
      var coming, node := Coming(r.site, times - 1), r.site.nodes[Around(r.site.Here(), times - 1, |r.site.nodes|)];
      hide Coming, Around, Distinct;
      ExtrasMove(r, local, times - 1);
      ComingOneMore(r.site, times);
      assert node in Coming(r.site, times);
      ExtrasComeUp(r, local, times - 1);
      WithoutOneMore(r.selected, coming, node, local);
    }
  }

  function Without(s: seq<Addr>, local: Addr): seq<Addr> {
    if s == [] then []
    else
      var rest := Without(s[..|s| - 1], local);
      if s[|s| - 1] == local then rest else rest + [s[|s| - 1]]
  }

  lemma {:induction false} WithoutIn(s: seq<Addr>, local: Addr)
    ensures forall a :: a in Without(s, local) <==> a in s && a != local
    ensures |Without(s, local)| <= |s|
    ensures |Without(s, local)| == |s| <==> local !in s
  {
    if s != [] {
      WithoutIn(s[..|s| - 1], local);
      assert s == s[..|s| - 1] + [s[|s| - 1]];
    }
  }

  lemma {:induction false} WithoutSize(s: seq<Addr>, local: Addr)
    requires Distinct(s)
    ensures |Without(s, local)| == if local in s then |s| - 1 else |s|
  {
    if s != [] {
      var l := |s| - 1;
      WithoutSize(s[..l], local);
      assert s == s[..l] + [s[l]];
    }
  }

  /** The node at the cursor does not come up again before the list has gone round. */
  lemma PeekComesLast(site: Site, count: nat)
    requires count < |site.nodes| && Distinct(site.nodes)
    ensures site.Peek() !in Coming(site.Next(), count)
  {
  }

  /** From a data center without the local node and with room, a visit takes its whole share. */
  lemma VisitTakesShare(t: Tab, site: Site, local: Addr)
    requires t.dcs > 0 && Distinct(site.nodes) && local !in site.nodes && t.extra < |site.nodes|
    requires forall a :: a in site.nodes ==> a !in t.selected
    ensures var t' := Visit(t, site, local).0;
            if t.extra == 0 then t'.extra == 0
            else t'.extra == t.extra - Share(t.extra, t.dcs) && t'.dcs == t.dcs - 1
  {
    var node, share := site.Peek(), Share(t.extra, t.dcs);
    assert node in site.nodes;
    if t.extra > 0 {
      PeekComesLast(site, share);
      ComingListed(site.Next(), share);
      WithoutIn(Coming(site.Next(), share), local);
      hide Coming, Distinct, Without, Share;
      ExtrasComeUp(Round(site.Next(), t.selected + [node], t.extra), local, share);
    }
  }

  lemma ComingListed(site: Site, count: nat)
    requires count <= |site.nodes|
    ensures forall a :: a in Coming(site, count) ==> a in site.nodes
  {
  }

  lemma {:induction false} SharesAddUp(t: Tab, sites: seq<Site>, local: Addr)
    requires |sites| <= t.dcs && t.selected == [] && Apart(sites)
    requires forall i :: 0 <= i < |sites| ==> local !in sites[i].nodes && t.extra < |sites[i].nodes|
    ensures var t' := Visits(t, sites, local);
            t'.extra <= t.extra && (t'.extra > 0 ==> t'.dcs == t.dcs - |sites|)
            && (|sites| == t.dcs > 0 ==> t'.extra == 0)
  {
    if sites != [] {
      var l := |sites| - 1;
      var before := Visits(t, sites[..l], local);
      assert Apart(sites[..l]) && Distinct(sites[l].nodes);
      SharesAddUp(t, sites[..l], local);
      SelectedAreRemote(t, sites[..l], local);
      forall a | a in sites[l].nodes ensures a !in before.selected {
        ListedApart(sites, a);
      }
      hide Visit, Apart, Distinct, Remote, Listed, Gives;
      VisitTakesShare(before, sites[l], local);
    }
  }

  /** Roomy data centers without the local node always give enough: one node each and all the extra
  ones. */
  lemma RoomyCentersSuffice(n: nat, sites: seq<Site>, local: Addr)
    requires 0 < |sites| <= n && Apart(sites)
    requires forall i :: 0 <= i < |sites| ==> local !in sites[i].nodes && n - |sites| < |sites[i].nodes|
    ensures |Visits(Tab([], n - |sites|, |sites|), sites, local).selected| == n
  {
    SharesAddUp(Tab([], n - |sites|, |sites|), sites, local);
  }

  /** Several roomy data centers always give enough, wherever the local node is and whatever the
  cursors: what one center misses, the next makes up for. */
  lemma SeveralCentersSuffice(n: nat, sites: seq<Site>, local: Addr)
    requires 2 <= |sites| <= n && Apart(sites)
    requires forall i :: 0 <= i < |sites| ==> n - |sites| + 1 < |sites[i].nodes|
    ensures |Visits(Tab([], n - |sites|, |sites|), sites, local).selected| == n
  {
    var t, last := Tab([], n - |sites|, |sites|), |sites| - 1;
    NearlyAddUp(t, sites, local, last);
    VisitAfter(t, sites, local, last);
    assert sites[..|sites|] == sites;
    assert local in sites[last].nodes ==> local !in sites[last - 1].nodes;
  }

  lemma {:induction false} CountOnce(s: seq<Addr>, local: Addr)
    requires Distinct(s)
    ensures |s| - 1 <= |Without(s, local)| <= |s|
  {
    WithoutSize(s, local);
  }

  lemma ComingDistinct(site: Site, count: nat)
    requires count <= |site.nodes| && Distinct(site.nodes)
    ensures Distinct(Coming(site, count))
  {
  }

  /** The share is taken, or one node less where the local node is. */
  predicate NearlyTaken(t: Tab, t': Tab, home: bool) {
    if t.extra == 0 || t.dcs == 0 then t'.extra == 0
    else
      var left := t.extra - Share(t.extra, t.dcs);
      t'.dcs == t.dcs - 1 && left <= t'.extra <= t.extra && t'.extra <= left + 1 && (!home ==> t'.extra == left)
  }

  lemma NearlyDone(t: Tab, t': Tab, home: bool)
    requires NearlyTaken(t, t', home) && t.dcs > 0
    ensures t'.extra <= t.extra && (t'.extra > 0 ==> t.extra > 0 && t'.dcs == t.dcs - 1)
    ensures t.extra == 0 || t.dcs <= 2 ==> t'.extra <= 1 && (!home ==> t'.extra == 0)
  {
    hide Share;
  }

  /** From a roomy data center a visit takes its share, or one node less if the local node comes up. */
  lemma VisitNearlyTakesShare(t: Tab, site: Site, local: Addr)
    requires t.dcs > 0 && Distinct(site.nodes) && t.extra + 1 < |site.nodes|
    requires forall a :: a in site.nodes ==> a !in t.selected
    ensures NearlyTaken(t, Visit(t, site, local).0, local in site.nodes)
  {
    assert site.nodes[0] != site.nodes[1];
    assert site.Peek() in site.nodes && site.Next().Peek() in site.nodes;
    if t.extra > 0 {
      var share := Share(t.extra, t.dcs);
      PeekComesLast(site, share);
      SkipsNothing(site, share);
      var hit := site.Peek() == local;
      var after, node := if hit then site.Next().Next() else site.Next(), if hit then site.Next().Peek() else site.Peek();
      assert First(site, local) == (after, Some(node));
      var coming := Coming(after, share);
      ComingListed(after, share);
      ComingDistinct(after, share);
      WithoutIn(coming, local);
      CountOnce(coming, local);
      hide Coming, Distinct, Without, Share, First;
      ExtrasComeUp(Round(after, t.selected + [node], t.extra), local, share);
    } else {
      hide Extras;
    }
  }

  lemma NotYetSelected(t: Tab, sites: seq<Site>, local: Addr, m: nat)
    requires |sites| <= t.dcs && t.selected == [] && Apart(sites) && m < |sites|
    ensures Distinct(sites[m].nodes)
    ensures forall a :: a in sites[m].nodes ==> a !in Visits(t, sites[..m], local).selected
  {
    var some := sites[..m + 1];
    assert Apart(some) && Apart(sites[..m]) && some[..m] == sites[..m];
    SelectedAreRemote(t, sites[..m], local);
    hide Visits, Remote, Gives, Distinct;
    forall a | a in sites[m].nodes ensures a !in Visits(t, sites[..m], local).selected {
      ListedApart(some, a);
    }
  }

  lemma VisitsOneMore(t: Tab, sites: seq<Site>, local: Addr, m: nat)
    requires |sites| <= t.dcs && m < |sites|
    ensures Visits(t, sites[..m], local).dcs > 0
    ensures Visits(t, sites[..m + 1], local) == Visit(Visits(t, sites[..m], local), sites[m], local).0
  {
    assert sites[..m + 1][..m] == sites[..m];
    hide Visit;
  }

  lemma VisitAfter(t: Tab, sites: seq<Site>, local: Addr, m: nat)
    requires |sites| <= t.dcs && t.selected == [] && Apart(sites) && m < |sites|
    requires t.extra + 1 < |sites[m].nodes| && Visits(t, sites[..m], local).extra <= t.extra
    ensures Visits(t, sites[..m], local).dcs > 0
    ensures NearlyTaken(Visits(t, sites[..m], local), Visits(t, sites[..m + 1], local), local in sites[m].nodes)
  {
    VisitsOneMore(t, sites, local, m);
    NotYetSelected(t, sites, local, m);
    hide Visit, Visits, Apart, Distinct, NearlyTaken;
    VisitNearlyTakesShare(Visits(t, sites[..m], local), sites[m], local);
  }

  lemma {:induction false} NearlyAddUp(t: Tab, sites: seq<Site>, local: Addr, m: nat)
    requires |sites| == t.dcs && t.selected == [] && Apart(sites) && m < |sites|
    requires forall i :: 0 <= i < |sites| ==> t.extra + 1 < |sites[i].nodes|
    ensures var t' := Visits(t, sites[..m], local);
            t'.extra <= t.extra && (t'.extra > 0 ==> t'.dcs == t.dcs - m)
            && (m > 0 && m == |sites| - 1 ==> t'.extra <= 1 && (local !in sites[m - 1].nodes ==> t'.extra == 0))
  {
    hide Visits, Share, Apart, NearlyTaken;
    if m == 0 {
      NoVisits(t, sites, local);
    } else {
      var p := m - 1;
      NearlyAddUp(t, sites, local, p);
      VisitAfter(t, sites, local, p);
      var before, after := Visits(t, sites[..p], local), Visits(t, sites[..p + 1], local);
      NearlyDone(before, after, local in sites[p].nodes);
      assert Visits(t, sites[..m], local) == after;
    }
  }

  lemma NoVisits(t: Tab, sites: seq<Site>, local: Addr)
    ensures Visits(t, sites[..0], local) == t
  {
  }

  lemma SkipsNothing(site: Site, count: nat)
    requires count + 1 < |site.nodes| && Distinct(site.nodes)
    ensures site.Peek() !in Coming(site.Next().Next(), count)
    ensures site.Next().Peek() !in Coming(site.Next().Next(), count) && site.Next().Peek() != site.Peek()
  {
  }

  /** In a cluster of one data center with at least `n` remote nodes the code does not always find
  them: it does if and only if the local node is not among the `n - 1` after the cycler's next. */
  lemma SingleCenterIff(n: nat, site: Site, local: Addr)
    requires 0 < n < |site.nodes| && Distinct(site.nodes) && local in site.nodes
    ensures |Visits(Tab([], n - 1, 1), [site], local).selected| == n <==> local !in Coming(site.Next(), n - 1)
  {
    var t := Tab([], n - 1, 1);
    assert [site][..0] == [] && Visits(t, [site], local) == Visit(t, site, local).0;
    PeekComesLast(site, n - 1);
    SkipsNothing(site, n - 1);
    SingleVisit(n, site, local);
  }

  lemma FillFrom(n: nat, after: Site, node: Addr, local: Addr)
    requires 1 < n < |after.nodes| && Distinct(after.nodes) && node !in Coming(after, n - 1)
    ensures |Extras(Round(after, [node], n - 1), local, n - 1).selected| == n <==> local !in Coming(after, n - 1)
  {
    WithoutIn(Coming(after, n - 1), local);
    hide Coming, Without, Distinct;
    ExtrasComeUp(Round(after, [node], n - 1), local, n - 1);
  }

  lemma SingleVisit(n: nat, site: Site, local: Addr)
    requires 0 < n < |site.nodes| && Distinct(site.nodes)
    ensures var rest := Coming(if site.Peek() == local then site.Next().Next() else site.Next(), n - 1);
            |Visit(Tab([], n - 1, 1), site, local).0.selected| == n <==> local !in rest
  {
    PeekComesLast(site, n - 1);
    SkipsNothing(site, n - 1);
    var after := if site.Peek() == local then site.Next().Next() else site.Next();
    var node := if site.Peek() == local then site.Next().Peek() else site.Peek();
    assert First(site, local) == (after, Some(node)) && [] + [node] == [node];
    hide Coming, Distinct, First;
    if n > 1 {
      FillFrom(n, after, node, local);
      hide Extras;
    }
  }

  /** Three nodes in one data center, two replicas wanted: with the cycler on the last node, the local
  one comes up second and only one replica is selected. */
  lemma EnoughNodesFallShort()
    ensures exists site: Site, local: Addr ::
              Distinct(site.nodes) && local in site.nodes && |site.nodes| == 3
              && |Visits(Tab([], 1, 1), [site], local).selected| < 2
  {
    var site := Site([0, 1, 2], 2);
    assert Coming(site.Next(), 1)[0] == 0;
    SingleCenterIff(2, site, 0);
    assert |Visits(Tab([], 1, 1), [site], 0).selected| < 2;
  }

  /** With two data centers it can fail as well, if one of them is small: three remote nodes, three
  replicas wanted, and only two selected. */
  lemma TwoCentersFallShort()
    ensures var sites := [Site([0, 1, 2], 2), Site([3], 0)];
            Apart(sites) && Visits(Tab([], 1, 2), sites, 0).selected == [2, 3]
  {
    var a, b := Site([0, 1, 2], 2), Site([3], 0);
    ApartPair(a, b);
    BothFallShort(a, b, Tab([], 1, 2));
    hide Visits, Apart;
  }

  lemma ApartPair(a: Site, b: Site)
    requires Distinct(a.nodes) && Distinct(b.nodes) && forall x :: x in a.nodes ==> x !in b.nodes
    ensures Apart([a, b])
  {
  }

  lemma BothFallShort(a: Site, b: Site, t: Tab)
    requires a == Site([0, 1, 2], 2) && b == Site([3], 0) && t == Tab([], 1, 2)
    ensures Visits(t, [a, b], 0).selected == [2, 3]
  {
    FirstFallsShort();
    LoneNode([2], 3, 0);
    hide Visits, Visit;
    TwoVisits(t, a, b, 0);
    assert [2] + [3] == [2, 3];
  }

  lemma TwoVisits(t: Tab, a: Site, b: Site, local: Addr)
    requires t.dcs == 2
    ensures var u := Visit(t, a, local).0;
            u.dcs > 0 && Visits(t, [a, b], local) == Visit(u, b, local).0
  {
    assert [a, b][..1] == [a] && [a][..0] == [];
    assert Visits(t, [a], local) == Visit(t, a, local).0;
    hide Visit;
  }

  lemma FirstFallsShort()
    ensures Visit(Tab([], 1, 2), Site([0, 1, 2], 2), 0).0 == Tab([2], 1, 1)
  {
    var r := Round(Site([0, 1, 2], 3), [2], 1);
    assert Extras(r, 0, 0) == r && Extras(r, 0, 1) == Round(Site([0, 1, 2], 1), [2], 1);
    assert [] + [2] == [2];
    hide Extras;
  }

  /** A data center of one node cannot give more. */
  lemma LoneNode(selected: seq<Addr>, node: Addr, local: Addr)
    requires node != local
    ensures Visit(Tab(selected, 1, 1), Site([node], 0), local).0 == Tab(selected + [node], 1, 0)
  {
    var r := Round(Site([node], 1), selected + [node], 1);
    assert Extras(r, local, 0) == r;
    assert r.site.Peek() == node && node in r.selected;
    assert Extras(r, local, 1).selected == r.selected;
    hide Extras;
  }

  /* Which data centers are visited. */

  /** Enough nodes are outside the local data center, whose place is `home` if it is listed. */
  predicate CanSkip(sites: seq<Site>, home: Option<nat>, n: nat, total: nat)
    requires home.Some? ==> home.value < |sites|
  {
    total - (if home.Some? then |sites[home.value].nodes| else 0) >= n
  }

  predicate InRange(places: seq<nat>, count: nat) { forall i :: 0 <= i < |places| ==> places[i] < count }

  /** The places of the data centers that may be visited, in order. */
  function Eligible(count: nat, home: Option<nat>, skip: bool): (places: seq<nat>)
    ensures InRange(places, count) && Distinct(places)
    ensures skip && home.Some? ==> home.value !in places
    ensures forall p: nat :: p < count && !(skip && home == Some(p)) ==> p in places
    ensures |places| == if skip && home.Some? && home.value < count then count - 1 else count
  {
    if count == 0 then []
    else
      var rest := Eligible(count - 1, home, skip);
      if skip && home == Some(count - 1) then rest else rest + [count - 1]
  }

  /** A random choice of `n` of the eligible data centers. */
  ghost predicate IsChoice(pick: seq<nat>, places: seq<nat>, n: nat) {
    |pick| == n && Distinct(pick) && forall i :: 0 <= i < |pick| ==> pick[i] in places
  }

  /** The data centers visited, and the extra nodes to start with. */
  function Plan(count: nat, home: Option<nat>, n: nat, skip: bool, pick: seq<nat>): (plan: (seq<nat>, nat))
    requires skip ==> count > 0
  {
    var places := Eligible(count, home, skip);
    var dcs := if skip then count - 1 else count;
    if dcs <= n then (places, n - dcs) else (pick, 0)
  }

  /** The budget is right, `n` in all, exactly when the local data center is listed or is not to be
  skipped or there are more data centers than are needed. */
  lemma PlanBudgetIff(count: nat, home: Option<nat>, n: nat, skip: bool, pick: seq<nat>)
    requires skip ==> count > 0
    requires home.Some? ==> home.value < count
    requires IsChoice(pick, Eligible(count, home, skip), n)
             || (if skip then count - 1 else count) <= n
    ensures var (places, extra) := Plan(count, home, n, skip, pick);
            |places| + extra == n <==> home.Some? || !skip || count - 1 > n
  {
  }

  function Sites(sites: seq<Site>, places: seq<nat>): (chosen: seq<Site>)
    requires InRange(places, |sites|)
    ensures |chosen| == |places| && forall i :: 0 <= i < |chosen| ==> chosen[i] == sites[places[i]]
  {
    seq(|places|, i requires 0 <= i < |places| => sites[places[i]])
  }

  lemma ChosenApart(sites: seq<Site>, places: seq<nat>)
    requires Apart(sites) && Distinct(places) && InRange(places, |sites|)
    ensures Apart(Sites(sites, places))
  {
    var chosen := Sites(sites, places);
    forall i, j, a | 0 <= i < |chosen| && 0 <= j < |chosen| && i != j && a in chosen[i].nodes
      ensures a !in chosen[j].nodes
    {
      assert places[i] != places[j];
      assert a in sites[places[i]].nodes ==> a !in sites[places[j]].nodes;
    }
  }

  function Judge(selected: seq<Addr>, n: nat): (r: Selection)
    ensures r.Selected? <==> |selected| >= n
    ensures match r case Selected(nodes) => nodes == selected case NotEnoughNodes(live, required) => live == |selected| && required == n
  {
    if |selected| >= n then Selected(selected) else NotEnoughNodes(|selected|, n)
  }

  /** What a selection over these data centers comes to. */
  function Select(sites: seq<Site>, places: seq<nat>, extra: nat, local: Addr): seq<Addr>
    requires InRange(places, |sites|)
  {
    Visits(Tab([], extra, |places|), Sites(sites, places), local).selected
  }

  lemma PlanIsSound(count: nat, home: Option<nat>, n: nat, skip: bool, pick: seq<nat>)
    requires skip ==> count > 0
    requires IsChoice(pick, Eligible(count, home, skip), n) || (if skip then count - 1 else count) <= n
    ensures var places := Plan(count, home, n, skip, pick).0;
            Distinct(places) && InRange(places, count) && (skip && home.Some? ==> home.value !in places)
  {
  }

  /** With the local data center listed and distinct addresses, for any cursors and any random choice:
  no more than `n` nodes are selected, so that success means exactly `n`; they are distinct members
  other than the local node; and none is in the local data center when enough nodes are outside. */
  lemma SelectionIsExact(sites: seq<Site>, h: nat, n: nat, total: nat, pick: seq<nat>, local: Addr)
    requires h < |sites| && Apart(sites)
    requires var skip := CanSkip(sites, Some(h), n, total);
             IsChoice(pick, Eligible(|sites|, Some(h), skip), n) || (if skip then |sites| - 1 else |sites|) <= n
    ensures var skip := CanSkip(sites, Some(h), n, total);
            var (places, extra) := Plan(|sites|, Some(h), n, skip, pick);
            InRange(places, |sites|)
            && var s := Select(sites, places, extra, local);
               |s| <= n && (Judge(s, n).Selected? <==> |s| == n)
               && Remote(s, local)
               && (forall a :: a in s ==> Listed(sites, a))
               && (total - |sites[h].nodes| >= n ==> forall a :: a in s ==> a !in sites[h].nodes)
  {
    var skip := CanSkip(sites, Some(h), n, total);
    var (places, extra) := Plan(|sites|, Some(h), n, skip, pick);
    PlanBudgetIff(|sites|, Some(h), n, skip, pick);
    PlanIsSound(|sites|, Some(h), n, skip, pick);
    ChosenApart(sites, places);
    SelectedAreRemote(Tab([], extra, |places|), Sites(sites, places), local);
    var s := Select(sites, places, extra, local);
    assert skip <==> total - |sites[h].nodes| >= n;
    hide Plan, CanSkip, Visits, Remote, Gives;
    forall a | a in s ensures Listed(sites, a) && (skip ==> a !in sites[h].nodes) {
      FromChosen(sites, places, h, a);
    }
  }

  lemma FromChosen(sites: seq<Site>, places: seq<nat>, h: nat, a: Addr)
    requires h < |sites| && Apart(sites) && InRange(places, |sites|)
    requires Listed(Sites(sites, places), a)
    ensures Listed(sites, a) && (h !in places ==> a !in sites[h].nodes)
  {
    var i :| 0 <= i < |places| && a in Sites(sites, places)[i].nodes;
    assert places[i] in places && a in sites[places[i]].nodes;
  }

  /* The code. */

  class NodeCycler {
    var cursor: nat
    const nodes: seq<Addr>

    constructor (nodes: seq<Addr>)
      ensures Here() == Site(nodes, 0)
    {
      this.nodes := nodes;
      cursor := 0;
    }

    function Here(): Site
      reads this
    {
      Site(nodes, cursor)
    }

    method Next() returns (node: Option<Addr>)
      modifies this
      ensures Here() == old(Here()).Next()
      ensures node == if nodes == [] then None else Some(old(Here()).Peek())
    {
      if cursor >= |nodes| {
        cursor := 0;
      }
      node := if cursor < |nodes| then Some(nodes[cursor]) else None;
      cursor := cursor + 1;
    }
  }

  /** One turn of the outer loop. */
  method VisitCenter(cycler: NodeCycler, local: Addr, selected: seq<Addr>, extra: nat, dcs: nat)
    returns (selected': seq<Addr>, extra': nat, dcs': nat)
    requires dcs > 0
    modifies cycler
    ensures (Tab(selected', extra', dcs'), cycler.Here()) == Visit(Tab(selected, extra, dcs), old(cycler.Here()), local)
  {
    selected', extra', dcs' := selected, extra, dcs;
    var node := cycler.Next();
    if node == Some(local) && |cycler.nodes| > 1 {
      node := cycler.Next();
    } else if node == None || node == Some(local) {
      return selected, extra + 1, dcs - 1;
    }
    selected' := selected' + [node.value];
    if extra == 0 {
      return;
    }
    ghost var round := Round(cycler.Here(), selected', extra);
    var share := Share(extra, dcs);
    for i := 0 to share
      invariant Round(cycler.Here(), selected', extra') == Extras(round, local, i)
    {
      var next := cycler.Next();
      if next == None || next.value == local || next.value in selected' {
        continue;
      }
      selected' := selected' + [next.value];
      extra' := extra' - 1;
    }
    dcs' := dcs - 1;
  }

  function Cursors(dcs: seq<NodeCycler>): (sites: seq<Site>)
    reads dcs
    ensures |sites| == |dcs| && forall i :: 0 <= i < |dcs| ==> sites[i] == dcs[i].Here()
  {
    seq(|dcs|, i requires 0 <= i < |dcs| reads dcs => dcs[i].Here())
  }

  /** The first `i` cyclers have been visited, the others stand where they stood. */
  ghost predicate Visited(t: Tab, chosen: seq<NodeCycler>, sites: seq<Site>, local: Addr, i: nat)
    requires |sites| <= t.dcs
    reads chosen
  {
    |chosen| == |sites|
    && forall j :: 0 <= j < |chosen| ==> chosen[j].Here() == if j < i then SiteAfter(t, sites, local, j) else sites[j]
  }

  method VisitNext(local: Addr, ghost start: Tab, ghost sites: seq<Site>, chosen: seq<NodeCycler>, i: nat, t: Tab) returns (t': Tab)
    requires forall i, j :: 0 <= i < j < |chosen| ==> chosen[i] != chosen[j]
    requires |sites| <= start.dcs && i < |sites| && Visited(start, chosen, sites, local, i)
    requires t == Visits(start, sites[..i], local)
    modifies chosen
    ensures Visited(start, chosen, sites, local, i + 1) && t' == Visits(start, sites[..i + 1], local)
  {
    VisitsOneMore(start, sites, local, i);
    SiteAfterIs(start, sites, local, i);
    hide Visit, Visits, SiteAfter;
    assert forall j :: 0 <= j < |chosen| && j != i ==> chosen[j] != chosen[i];
    var selected, extra, left := VisitCenter(chosen[i], local, t.selected, t.extra, t.dcs);
    t' := Tab(selected, extra, left);
  }

  /** The outer loop. */
  method VisitAll(local: Addr, spare: nat, chosen: seq<NodeCycler>) returns (selected: seq<Addr>)
    requires forall i, j :: 0 <= i < j < |chosen| ==> chosen[i] != chosen[j]
    modifies chosen
    ensures selected == Visits(Tab([], spare, |chosen|), old(Cursors(chosen)), local).selected
    ensures Visited(Tab([], spare, |chosen|), chosen, old(Cursors(chosen)), local, |chosen|)
  {
    ghost var start, sites := Tab([], spare, |chosen|), Cursors(chosen);
    var t := Tab([], spare, |chosen|);
    NoVisits(start, sites, local);
    assert Visited(start, chosen, sites, local, 0);
    hide Visit, Visits, Visited;
    for i := 0 to |chosen|
      invariant t == Visits(start, sites[..i], local) && Visited(start, chosen, sites, local, i)
    {
      t := VisitNext(local, start, sites, chosen, i, t);
    }
    assert sites[..|chosen|] == sites;
    selected := t.selected;
  }

  function Chosen(dcs: seq<NodeCycler>, places: seq<nat>): (chosen: seq<NodeCycler>)
    requires InRange(places, |dcs|)
    ensures |chosen| == |places| && forall i :: 0 <= i < |places| ==> chosen[i] == dcs[places[i]]
  {
    seq(|places|, i requires 0 <= i < |places| => dcs[places[i]])
  }

  lemma ChosenSites(dcs: seq<NodeCycler>, places: seq<nat>)
    requires forall i, j :: 0 <= i < j < |dcs| ==> dcs[i] != dcs[j]
    requires InRange(places, |dcs|) && Distinct(places)
    ensures Cursors(Chosen(dcs, places)) == Sites(Cursors(dcs), places)
    ensures var chosen := Chosen(dcs, places); forall i, j :: 0 <= i < j < |chosen| ==> chosen[i] != chosen[j]
    ensures forall i :: 0 <= i < |dcs| && i !in places ==> dcs[i] !in Chosen(dcs, places)
  {
  }

  /** The data centers in order; `home` is the place of the local one; `pick` is the random choice,
  used when there are more data centers than wanted nodes. */
  method SelectN(local: Addr, home: Option<nat>, n: nat, total: nat, dcs: seq<NodeCycler>, pick: seq<nat>)
    returns (r: Selection)
    requires forall i, j :: 0 <= i < j < |dcs| ==> dcs[i] != dcs[j]
    requires home.Some? ==> home.value < |dcs| && |dcs[home.value].nodes| <= total
    requires CanSkip(Cursors(dcs), home, n, total) ==> dcs != []
    requires var skip := CanSkip(Cursors(dcs), home, n, total);
             IsChoice(pick, Eligible(|dcs|, home, skip), n) || (if skip then |dcs| - 1 else |dcs|) <= n
    modifies dcs
    ensures var (places, extra) := Plan(|dcs|, home, n, CanSkip(old(Cursors(dcs)), home, n, total), pick);
            InRange(places, |dcs|)
            && r == Judge(Select(old(Cursors(dcs)), places, extra, local), n)
            && (forall i :: 0 <= i < |dcs| && i !in places ==> dcs[i].Here() == old(dcs[i].Here()))
            && Visited(Tab([], extra, |places|), Chosen(dcs, places), Sites(old(Cursors(dcs)), places), local, |places|)
  {
    var outside := total - if home.Some? then |dcs[home.value].nodes| else 0;
    var skip := outside >= n;
    PlanIsSound(|dcs|, home, n, skip, pick);
    hide IsChoice, Eligible, Visits;
    var (places, extra) := Plan(|dcs|, home, n, skip, pick);
    ChosenSites(dcs, places);
    hide Distinct, InRange, Plan, Visited;
    var selected := VisitAll(local, extra, Chosen(dcs, places));
    r := if |selected| >= n then Selected(selected) else NotEnoughNodes(|selected|, n);
  }
}
