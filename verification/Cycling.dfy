/** How the cyclers go round: which node each call gives, and where a selection leaves them. */
module Cycling {
  import opened Hlc
  import opened Records
  import opened Selector

  /** The site after `m` more calls of `next`. */
  function Advance(site: Site, m: nat): Site { if m == 0 then site else Advance(site, m - 1).Next() }

  lemma ModuloStep(x: nat, len: nat)
    requires len > 0
    ensures (x + 1) % len == if x % len + 1 == len then 0 else x % len + 1
  {
    var q, r := x / len, x % len;
    assert x + 1 == q * len + r + 1;
    if r + 1 == len {
      assert x + 1 == (q + 1) * len;
      Remainder(q + 1, 0, len);
    } else {
      Remainder(q, r + 1, len);
    }
  }

  /** A remainder is recognised by its range. */
  lemma Remainder(q: nat, r: nat, len: nat)
    requires r < len
    ensures (q * len + r) % len == r
  {
    var x := q * len + r;
    var q', r' := x / len, x % len;
    assert x == q' * len + r';
    if q' > q {
      TooMuch(q', q, len);
    } else if q > q' {
      TooMuch(q, q', len);
    }
  }

  lemma TooMuch(a: nat, b: nat, len: nat)
    requires a > b
    ensures a * len >= b * len + len
  {
    ProductAtLeast(len, a - b);
    assert (a - b) * len == a * len - b * len;
  }

  lemma {:induction false} AdvanceNodes(site: Site, m: nat)
    ensures Advance(site, m).nodes == site.nodes
  {
    if m > 0 {
      AdvanceNodes(site, m - 1);
    }
  }

  /** Calls of `next` go round the list one by one. */
  lemma {:induction false} AdvanceMeans(site: Site, m: nat)
    requires site.nodes != []
    ensures Advance(site, m).nodes == site.nodes
    ensures Advance(site, m).Here() == (site.Here() + m) % |site.nodes|
  {
    if m == 0 {
      Remainder(0, site.Here(), |site.nodes|);
    } else {
      AdvanceMeans(site, m - 1);
      ModuloStep(site.Here() + m - 1, |site.nodes|);
    }
  }

  /** The node `i` places on from the cursor. */
  function NodeAt(site: Site, i: nat): Addr
    requires site.nodes != []
  {
    site.nodes[(site.Here() + i) % |site.nodes|]
  }

  lemma PeekAfter(site: Site, m: nat)
    requires site.nodes != []
    ensures Advance(site, m).nodes == site.nodes && Advance(site, m).Peek() == NodeAt(site, m)
  {
    AdvanceMeans(site, m);
  }

  /** How many calls a visit makes for its first node. */
  function Calls(site: Site, local: Addr): nat {
    if site.nodes != [] && NodeAt(site, 0) == local && |site.nodes| > 1 then 2 else 1
  }

  /** The first node is the one at the cursor, or the one after it if that is the local node. */
  lemma FirstMeans(site: Site, local: Addr)
    ensures First(site, local).0 == Advance(site, Calls(site, local))
    ensures First(site, local).1
            == if site.nodes == [] || (|site.nodes| == 1 && NodeAt(site, 0) == local) then None
               else if NodeAt(site, 0) != local then Some(NodeAt(site, 0)) else Some(NodeAt(site, 1))
  {
    assert Advance(site, 0) == site && Advance(site, 1) == site.Next() && Advance(site, 2) == site.Next().Next();
    if site.nodes != [] {
      PeekAfter(site, 0);
      PeekAfter(site, 1);
    }
    hide NodeAt;
  }

  lemma {:induction false} AdvanceAgain(site: Site, a: nat, b: nat)
    ensures Advance(Advance(site, a), b) == Advance(site, a + b)
  {
    if b > 0 {
      AdvanceAgain(site, a, b - 1);
    }
  }

  lemma {:induction false} ExtrasAdvance(r: Round, local: Addr, times: nat)
    requires r.site.nodes != [] && times <= r.extra
    ensures Extras(r, local, times).site == Advance(r.site, times)
  {
    if times > 0 {
      ExtrasAdvance(r, local, times - 1);
    }
  }

  /** One data center's turn in full: a center that gives no first node costs an extra one; otherwise the
  first node is selected, and the share of the extra nodes is tried if there are any. The count of data
  centers goes down except where there is nothing extra to find. The cycler moves one place for every
  call. */
  lemma VisitMeans(t: Tab, site: Site, local: Addr)
    requires t.dcs > 0
    ensures var (t', site') := Visit(t, site, local);
            var calls, first := Calls(site, local), First(site, local).1;
            if first.None? then t' == Tab(t.selected, t.extra + 1, t.dcs - 1) && site' == Advance(site, calls)
            else if t.extra == 0 then t' == Tab(t.selected + [first.value], 0, t.dcs) && site' == Advance(site, calls)
            else
              var share := Share(t.extra, t.dcs);
              t'.dcs == t.dcs - 1 && t.selected + [first.value] <= t'.selected && site' == Advance(site, calls + share)
              && |t'.selected| <= |t.selected| + 1 + share
  {
    var (after, first) := First(site, local);
    FirstMeans(site, local);
    if first.Some? && t.extra > 0 {
      var r, share := Round(after, t.selected + [first.value], t.extra), Share(t.extra, t.dcs);
      ExtrasAdvance(r, local, share);
      AdvanceAgain(site, Calls(site, local), share);
      hide First, Share, Calls;
      ExtrasKeep(r, local, share);
    }
  }

  lemma {:induction false} ExtrasKeep(r: Round, local: Addr, times: nat)
    requires r.site.nodes != [] && times <= r.extra
    ensures r.selected <= Extras(r, local, times).selected
  {
    if times > 0 {
      ExtrasKeep(r, local, times - 1);
    }
  }

  /** The cycler after `k` selections of one replica from one data center. */
  function AfterOnes(site: Site, local: Addr, k: nat): Site {
    if k == 0 then site else AfterOne(AfterOnes(site, local, k - 1), local)
  }

  function AfterOne(site: Site, local: Addr): Site { Visit(Tab([], 0, 1), site, local).1 }

  lemma OneMoves(here: Site, local: Addr)
    requires here.nodes != [] && local !in here.nodes
    ensures AfterOne(here, local) == here.Next()
  {
    assert here.Peek() in here.nodes;
  }

  lemma Unfold(site: Site, local: Addr, k: nat)
    ensures k == 0 ==> AfterOnes(site, local, k) == site == Advance(site, k)
    ensures k > 0 ==> AfterOnes(site, local, k) == AfterOne(AfterOnes(site, local, k - 1), local)
    ensures k > 0 ==> Advance(site, k) == Advance(site, k - 1).Next()
  {
  }

  lemma {:induction false} OnesAdvance(site: Site, local: Addr, k: nat)
    requires site.nodes != [] && local !in site.nodes
    ensures AfterOnes(site, local, k) == Advance(site, k)
  {
    Unfold(site, local, k);
    hide AfterOne, AfterOnes, Advance, Site.Next, Site.Here;
    if k > 0 {
      OnesAdvance(site, local, k - 1);
      AdvanceNodes(site, k - 1);
      OneMoves(Advance(site, k - 1), local);
    }
  }

  /** Successive selections of one replica from a data center go round it: the `k`-th gives the node `k`
  places on. */
  lemma SelectionsGoRound(site: Site, local: Addr, k: nat)
    requires site.nodes != [] && local !in site.nodes
    ensures Visits(Tab([], 0, 1), [AfterOnes(site, local, k)], local).selected == [site.nodes[(site.Here() + k) % |site.nodes|]]
  {
    var here, t := AfterOnes(site, local, k), Tab([], 0, 1);
    OnesAdvance(site, local, k);
    PeekAfter(site, k);
    PeekAfter(here, 0);
    assert Advance(here, 0) == here && here.Peek() in here.nodes;
    FirstMeans(here, local);
    VisitMeans(t, here, local);
    assert [here][..0] == [] && Visits(t, [here], local) == Visit(t, here, local).0;
    assert [] + [NodeAt(site, k)] == [NodeAt(site, k)];
    hide Visit, Visits, First, AfterOnes;
  }
}
