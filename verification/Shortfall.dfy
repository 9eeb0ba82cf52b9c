/** Exactly when the choice of one, two or three replicas fails although there are enough nodes. */
module Shortfalls {
  import opened Hlc
  import opened Records
  import opened Selector

  /* A visit with nothing or one node extra to find. */

  /** A node other than the first and the local one comes up after the first. */
  predicate SecondComes(site: Site, local: Addr) {
    var (after, first) := First(site, local);
    first.Some? && after.Peek() != local && after.Peek() != first.value
  }

  lemma VisitForNoExtra(t: Tab, site: Site, local: Addr)
    requires t.dcs > 0 && t.extra == 0 && First(site, local).1.Some?
    ensures Visit(t, site, local).0.extra == 0
  {
  }

  lemma VisitForOneExtra(t: Tab, site: Site, local: Addr)
    requires 0 < t.dcs <= 2 && t.extra == 1 && First(site, local).1.Some?
    requires forall a :: a in site.nodes ==> a !in t.selected
    ensures var t' := Visit(t, site, local).0;
            t'.extra == (if SecondComes(site, local) then 0 else 1) && t'.dcs == t.dcs - 1
  {
    var (after, first) := First(site, local);
    var r := Round(after, t.selected + [first.value], 1);
    assert Extras(r, local, 0) == r;
    assert after.Peek() in after.nodes;
    assert Share(1, t.dcs) == 1;
    assert Extras(r, local, 1).extra == if after.Peek() == local || after.Peek() in r.selected then 1 else 0;
    hide Extras, First;
  }

  /** Without the local node: as soon as there are two nodes. */
  lemma SecondOfOthers(site: Site, local: Addr)
    requires Distinct(site.nodes) && site.nodes != [] && local !in site.nodes
    ensures First(site, local).1.Some? && (SecondComes(site, local) <==> |site.nodes| >= 2)
  {
    assert site.Peek() in site.nodes && site.Next().Peek() in site.nodes;
  }

  /** With the local node and two others: unless the local node comes up second. */
  lemma SecondAtHome(site: Site, local: Addr)
    requires Distinct(site.nodes) && |site.nodes| >= 2 && local in site.nodes
    ensures First(site, local).1.Some?
    ensures |site.nodes| >= 3 ==> (SecondComes(site, local) <==> site.Next().Peek() != local)
  {
    assert site.nodes[0] != site.nodes[1];
    assert site.nodes[0] in site.nodes && site.nodes[1] in site.nodes;
  }

  /* Two data centers, three replicas. */

  lemma TwoCenters(a: Site, b: Site, local: Addr)
    requires Apart([a, b]) && First(a, local).1.Some? && First(b, local).1.Some?
    ensures |Visits(Tab([], 1, 2), [a, b], local).selected| == 3 <==> SecondComes(a, local) || SecondComes(b, local)
  {
    var t, sites := Tab([], 1, 2), [a, b];
    NotYetSelected(t, sites, local, 1);
    assert sites[..1] == [a] && [a][..0] == [];
    assert Visits(t, [a], local) == Visit(t, a, local).0;
    TwoVisits(t, a, b, local);
    hide First, Visits, Visit, SecondComes, Apart;
    VisitForOneExtra(t, a, local);
    var t' := Visit(t, a, local).0;
    if t'.extra == 0 {
      VisitForNoExtra(t', b, local);
    } else {
      VisitForOneExtra(t', b, local);
    }
  }

  /* No extra nodes. */

  lemma {:induction false} OneEach(t: Tab, sites: seq<Site>, local: Addr)
    requires |sites| <= t.dcs && t.extra == 0 && forall i :: 0 <= i < |sites| ==> First(sites[i], local).1.Some?
    ensures Visits(t, sites, local).extra == 0
  {
    if sites != [] {
      var last := |sites| - 1;
      OneEach(t, sites[..last], local);
      hide First, Visit;
      VisitForNoExtra(Visits(t, sites[..last], local), sites[last], local);
    }
  }

  /* How many nodes there are. */

  function Total(sites: seq<Site>): nat {
    if sites == [] then 0 else Total(sites[..|sites| - 1]) + |sites[|sites| - 1].nodes|
  }

  ghost predicate NoneEmpty(sites: seq<Site>) { forall i :: 0 <= i < |sites| ==> sites[i].nodes != [] }

  lemma {:induction false} TotalAtLeast(sites: seq<Site>, h: nat)
    requires NoneEmpty(sites)
    ensures Total(sites) >= |sites|
    ensures h < |sites| ==> Total(sites) - |sites[h].nodes| >= |sites| - 1
  {
    if sites != [] {
      var before := sites[..|sites| - 1];
      assert h < |before| ==> before[h] == sites[h];
      TotalAtLeast(before, h);
    }
  }

  lemma SmallTotals(sites: seq<Site>)
    ensures |sites| == 1 ==> Total(sites) == |sites[0].nodes|
    ensures |sites| == 2 ==> Total(sites) == |sites[0].nodes| + |sites[1].nodes|
    ensures |sites| == 3 ==> Total(sites) == |sites[0].nodes| + |sites[1].nodes| + |sites[2].nodes|
  {
    if 1 <= |sites| <= 3 {
      var a := [sites[0]];
      assert a[..0] == [] && Total(a) == |sites[0].nodes|;
      if |sites| > 1 {
        var ab := [sites[0], sites[1]];
        assert ab[..1] == a && Total(ab) == Total(a) + |sites[1].nodes|;
        assert sites[..|sites| - 1] == if |sites| == 2 then a else ab;
        assert |sites| == 2 ==> sites == ab;
      } else {
        assert sites == a;
      }
    }
  }

  /* The condition. */

  /** The local node is in the way: in the only data center it is among the next `n - 1` after the next
  node; or three replicas are wanted, there is one node outside the local data center, and the local
  node is the second to come up in it. */
  predicate InTheWay(sites: seq<Site>, h: nat, n: nat, local: Addr)
    requires h < |sites| && sites[h].nodes != []
  {
    (|sites| == 1 && 0 < n <= |sites[h].nodes| && local in Coming(sites[h].Next(), n - 1))
    || (n == 3 && |sites| == 2 && |sites[1 - h].nodes| == 1 && sites[h].Next().Peek() == local)
  }

  lemma RemoteCenter(sites: seq<Site>, h: nat, p: nat, local: Addr)
    requires h < |sites| && p < |sites| && p != h && Apart(sites) && NoneEmpty(sites) && local in sites[h].nodes
    ensures Distinct(sites[p].nodes) && local !in sites[p].nodes && First(sites[p], local).1.Some?
    ensures SecondComes(sites[p], local) <==> |sites[p].nodes| >= 2
  {
    SecondOfOthers(sites[p], local);
  }

  lemma {:induction false} AllEligible(count: nat, home: Option<nat>)
    ensures |Eligible(count, home, false)| == count
    ensures forall i :: 0 <= i < count ==> Eligible(count, home, false)[i] == i
  {
    if count > 0 {
      AllEligible(count - 1, home);
    }
  }

  /** What `n` replicas chosen over these data centers come to. */
  ghost predicate Finds(sites: seq<Site>, places: seq<nat>, n: nat, local: Addr) {
    InRange(places, |sites|) && |places| <= n && |Select(sites, places, n - |places|, local)| == n
  }

  lemma OneEachFinds(sites: seq<Site>, places: seq<nat>, n: nat, local: Addr)
    requires InRange(places, |sites|) && |places| == n
    requires forall i :: 0 <= i < n ==> First(sites[places[i]], local).1.Some?
    ensures Finds(sites, places, n, local)
  {
    OneEach(Tab([], 0, n), Sites(sites, places), local);
    hide Visits, First;
  }

  lemma TwoFind(sites: seq<Site>, places: seq<nat>, local: Addr)
    requires InRange(places, |sites|) && Distinct(places) && |places| == 2 && Apart(sites)
    requires forall i :: 0 <= i < 2 ==> First(sites[places[i]], local).1.Some?
    ensures Finds(sites, places, 3, local) <==> exists i :: 0 <= i < 2 && SecondComes(sites[places[i]], local)
  {
    ChosenApart(sites, places);
    var a, b := sites[places[0]], sites[places[1]];
    assert Sites(sites, places) == [a, b];
    hide First, Visits, SecondComes, Apart;
    TwoCenters(a, b, local);
  }

  /* Enough nodes outside the local data center. */

  lemma SkippingFinds(sites: seq<Site>, h: nat, n: nat, places: seq<nat>, local: Addr)
    requires h < |sites| && Apart(sites) && NoneEmpty(sites) && local in sites[h].nodes && 1 <= n <= 3
    requires Total(sites) - |sites[h].nodes| >= n
    requires InRange(places, |sites|) && Distinct(places) && h !in places && |places| <= n
    requires |places| == n || |places| == |sites| - 1
    ensures Finds(sites, places, n, local)
  {
    forall i | 0 <= i < |places|
      ensures places[i] != h && local !in sites[places[i]].nodes && First(sites[places[i]], local).1.Some?
      ensures SecondComes(sites[places[i]], local) <==> |sites[places[i]].nodes| >= 2
    {
      assert places[i] in places;
      RemoteCenter(sites, h, places[i], local);
    }
    SmallTotals(sites);
    hide First, SecondComes, Total;
    if |places| == n {
      OneEachFinds(sites, places, n, local);
    } else if |places| == 1 {
      LoneCenterFinds(sites, h, n, places[0], local);
      assert places == [places[0]];
    } else {
      assert |sites| == 3 && n == 3;
      assert |sites[places[0]].nodes| + |sites[places[1]].nodes| >= 3;
      TwoFind(sites, places, local);
    }
  }

  lemma LoneCenterFinds(sites: seq<Site>, h: nat, n: nat, p: nat, local: Addr)
    requires h < |sites| && p < |sites| && p != h && Apart(sites) && n <= |sites[p].nodes| && n >= 1 && local !in sites[p].nodes
    ensures Finds(sites, [p], n, local)
  {
    assert Sites(sites, [p]) == [sites[p]];
    RoomyCentersSuffice(n, [sites[p]], local);
    hide Visits;
  }

  /* Too few of them: all the data centers are visited. */

  lemma NotSkippingFindsIff(sites: seq<Site>, h: nat, n: nat, places: seq<nat>, local: Addr)
    requires h < |sites| && Apart(sites) && NoneEmpty(sites) && local in sites[h].nodes && 1 <= n <= 3
    requires Total(sites) - |sites[h].nodes| < n < Total(sites)
    requires |places| == |sites| && forall i :: 0 <= i < |places| ==> places[i] == i
    ensures Finds(sites, places, n, local) <==> !InTheWay(sites, h, n, local)
  {
    TotalAtLeast(sites, h);
    SmallTotals(sites);
    SecondAtHome(sites[h], local);
    forall i | 0 <= i < |sites| && i != h
      ensures First(sites[i], local).1.Some? && (SecondComes(sites[i], local) <==> |sites[i].nodes| >= 2)
    {
      RemoteCenter(sites, h, i, local);
    }
    hide First, SecondComes, Total;
    hide Finds, Apart, Coming;
    if |sites| == 1 {
      SingleFindsIff(sites, n, places, local);
    } else if |sites| == n {
      OneEachFinds(sites, places, n, local);
    } else {
      hide InTheWay;
      TwoCentersFindIff(sites, h, places, local);
    }
  }

  lemma SingleFindsIff(sites: seq<Site>, n: nat, places: seq<nat>, local: Addr)
    requires |sites| == 1 && places == [0] && 0 < n < |sites[0].nodes| && Apart(sites) && local in sites[0].nodes
    ensures Finds(sites, places, n, local) <==> !InTheWay(sites, 0, n, local)
  {
    assert Sites(sites, places) == [sites[0]];
    SingleCenterIff(n, sites[0], local);
    hide Visits, Coming, Apart;
  }

  lemma TwoCentersFindIff(sites: seq<Site>, h: nat, places: seq<nat>, local: Addr)
    requires |sites| == 2 && h < 2 && |places| == 2 && places[0] == 0 && places[1] == 1 && Apart(sites)
    requires First(sites[h], local).1.Some? && First(sites[1 - h], local).1.Some?
    requires |sites[h].nodes| >= 3 || |sites[1 - h].nodes| >= 2
    requires |sites[h].nodes| >= 3 ==> (SecondComes(sites[h], local) <==> sites[h].Next().Peek() != local)
    requires SecondComes(sites[1 - h], local) <==> |sites[1 - h].nodes| >= 2
    requires sites[h].nodes != [] && sites[1 - h].nodes != []
    ensures Finds(sites, places, 3, local) <==> !InTheWay(sites, h, 3, local)
  {
    hide First, SecondComes, Finds, Coming;
    TwoFind(sites, places, local);
    HomeAndAway(sites, h, places, local);
  }

  lemma HomeAndAway(sites: seq<Site>, h: nat, places: seq<nat>, local: Addr)
    requires |sites| == 2 && h < 2 && |places| == 2 && places[0] == 0 && places[1] == 1
    ensures (exists i :: 0 <= i < 2 && SecondComes(sites[places[i]], local))
            <==> SecondComes(sites[h], local) || SecondComes(sites[1 - h], local)
  {
    hide SecondComes;
    if SecondComes(sites[h], local) {
      assert SecondComes(sites[places[h]], local);
    }
    if SecondComes(sites[1 - h], local) {
      assert SecondComes(sites[places[1 - h]], local);
    }
  }

  /** One, two or three replicas are wanted, there are enough remote nodes and no data center is empty:
  for any cursors and any random choice they are found if and only if the local node is not in the
  way. */
  lemma EnoughNodesFoundIff(sites: seq<Site>, h: nat, n: nat, pick: seq<nat>, local: Addr)
    requires h < |sites| && Apart(sites) && NoneEmpty(sites) && local in sites[h].nodes
    requires 1 <= n <= 3 && n < Total(sites)
    requires var skip := CanSkip(sites, Some(h), n, Total(sites));
             IsChoice(pick, Eligible(|sites|, Some(h), skip), n) || (if skip then |sites| - 1 else |sites|) <= n
    ensures var skip := CanSkip(sites, Some(h), n, Total(sites));
            var (places, extra) := Plan(|sites|, Some(h), n, skip, pick);
            InRange(places, |sites|)
            && (Judge(Select(sites, places, extra, local), n).Selected? <==> !InTheWay(sites, h, n, local))
  {
    var skip := CanSkip(sites, Some(h), n, Total(sites));
    var (places, extra) := Plan(|sites|, Some(h), n, skip, pick);
    TotalAtLeast(sites, h);
    PlanShape(|sites|, h, n, skip, pick);
    AtMostWanted(sites, places, extra, n, local);
    FoundIff(sites, h, n, places, local);
    hide *;
  }

  lemma PlanShape(count: nat, h: nat, n: nat, skip: bool, pick: seq<nat>)
    requires h < count && (!skip ==> count <= n)
    requires IsChoice(pick, Eligible(count, Some(h), skip), n) || (if skip then count - 1 else count) <= n
    ensures var (places, extra) := Plan(count, Some(h), n, skip, pick);
            InRange(places, count) && Distinct(places) && |places| + extra == n
            && (skip ==> h !in places && (|places| == n || |places| == count - 1))
            && (!skip ==> |places| == count && forall i :: 0 <= i < count ==> places[i] == i)
  {
    PlanIsSound(count, Some(h), n, skip, pick);
    PlanBudgetIff(count, Some(h), n, skip, pick);
    AllEligible(count, Some(h));
  }

  lemma AtMostWanted(sites: seq<Site>, places: seq<nat>, extra: nat, n: nat, local: Addr)
    requires InRange(places, |sites|) && |places| + extra == n
    ensures Judge(Select(sites, places, extra, local), n).Selected? <==> Finds(sites, places, n, local)
  {
    hide Visits;
  }

  lemma FoundIff(sites: seq<Site>, h: nat, n: nat, places: seq<nat>, local: Addr)
    requires h < |sites| && Apart(sites) && NoneEmpty(sites) && local in sites[h].nodes && 1 <= n <= 3 && n < Total(sites)
    requires InRange(places, |sites|) && Distinct(places) && |places| <= n
    requires var skip := CanSkip(sites, Some(h), n, Total(sites));
             (skip ==> h !in places && (|places| == n || |places| == |sites| - 1))
             && (!skip ==> |places| == |sites| && forall i :: 0 <= i < |sites| ==> places[i] == i)
    ensures Finds(sites, places, n, local) <==> !InTheWay(sites, h, n, local)
  {
    SmallTotals(sites);
    hide Finds, Total, Apart, Distinct, InRange;
    if CanSkip(sites, Some(h), n, Total(sites)) {
      SkippingFinds(sites, h, n, places, local);
      hide Coming;
    } else {
      NotSkippingFindsIff(sites, h, n, places, local);
    }
  }
}
