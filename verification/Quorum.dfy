/** The quorum levels of `DCAwareSelector::select_nodes` in datacake-node/src/nodes_selector.rs, and what
a write waits for in datacake-eventual-consistency/src/lib.rs. */
module Quorums {
  import opened Records
  import opened Selector

  /** The data centers, as lists of addresses. */
  type Centers = seq<seq<Addr>>

  function Members(dcs: Centers): (all: set<Addr>) { set i, j | 0 <= i < |dcs| && 0 <= j < |dcs[i]| :: dcs[i][j] }

  /** Every address once. */
  ghost predicate Once(dcs: Centers) {
    (forall i :: 0 <= i < |dcs| ==> Distinct(dcs[i]))
    && forall i, k, a :: 0 <= i < |dcs| && 0 <= k < |dcs| && i != k && a in dcs[i] ==> a !in dcs[k]
  }

  /** The iterators: every data center's nodes other than the local one. */
  function Others(dcs: Centers, local: Addr): (lists: Centers)
    ensures |lists| == |dcs| && forall i :: 0 <= i < |dcs| ==> lists[i] == Without(dcs[i], local)
  {
    seq(|dcs|, i requires 0 <= i < |dcs| => Without(dcs[i], local))
  }

  function Take(s: seq<Addr>, n: nat): seq<Addr> { if n <= |s| then s[..n] else s }

  /* Round-robin selection. */

  /** The `k`-th node of each of the first `upto` lists that has one. */
  function RoundOf(lists: Centers, k: nat, upto: nat): seq<Addr>
    requires upto <= |lists|
  {
    if upto == 0 then []
    else RoundOf(lists, k, upto - 1) + if k < |lists[upto - 1]| then [lists[upto - 1][k]] else []
  }

  /** The first `k` rounds. */
  function Rounds(lists: Centers, k: nat): seq<Addr> {
    if k == 0 then [] else Rounds(lists, k - 1) + RoundOf(lists, k - 1, |lists|)
  }

  ghost predicate Exhausted(lists: Centers, k: nat) { forall i :: 0 <= i < |lists| ==> |lists[i]| <= k }

  lemma {:induction false} EmptyRound(lists: Centers, k: nat, upto: nat)
    requires upto <= |lists| && RoundOf(lists, k, upto) == []
    ensures forall i :: 0 <= i < upto ==> |lists[i]| <= k
  {
    if upto > 0 {
      EmptyRound(lists, k, upto - 1);
    }
  }

  lemma EmptyIsExhausted(lists: Centers, k: nat)
    requires RoundOf(lists, k, |lists|) == []
    ensures Exhausted(lists, k)
  {
    EmptyRound(lists, k, |lists|);
  }

  lemma NextRound(lists: Centers, k: nat)
    ensures Rounds(lists, k + 1) == Rounds(lists, k) + RoundOf(lists, k, |lists|)
  {
  }

  function Longest(lists: Centers): (n: nat)
    ensures forall i :: 0 <= i < |lists| ==> |lists[i]| <= n
  {
    if lists == [] then 0
    else
      var rest := Longest(lists[..|lists| - 1]);
      if |lists[|lists| - 1]| > rest then |lists[|lists| - 1]| else rest
  }

  lemma RoundsAreFew(lists: Centers, k: nat)
    requires RoundOf(lists, k, |lists|) != []
    ensures k < Longest(lists)
  {
    if forall i :: 0 <= i < |lists| ==> |lists[i]| <= k {
      NoRound(lists, k, |lists|);
    }
  }

  lemma {:induction false} NoRound(lists: Centers, k: nat, upto: nat)
    requires upto <= |lists| && forall i :: 0 <= i < |lists| ==> |lists[i]| <= k
    ensures RoundOf(lists, k, upto) == []
  {
    if upto > 0 {
      NoRound(lists, k, upto - 1);
    }
  }

  function Rest(s: seq<Addr>, k: nat): seq<Addr> { if k <= |s| then s[k..] else [] }

  /** The iterators have given `k` nodes each, as far as they had them, and the first `ahead` one more. */
  ghost predicate AtRound(iters: Centers, lists: Centers, k: nat, ahead: nat) {
    |iters| == |lists|
    && forall j :: 0 <= j < |lists| ==> iters[j] == Rest(lists[j], if j < ahead then k + 1 else k)
  }

  lemma OneAhead(iters: Centers, lists: Centers, k: nat, i: nat)
    requires AtRound(iters, lists, k, i) && i < |lists|
    ensures |iters| == |lists|
    ensures iters[i] == [] ==> |lists[i]| <= k && AtRound(iters, lists, k, i + 1)
    ensures iters[i] != [] ==>
              k < |lists[i]| && iters[i][0] == lists[i][k] && AtRound(iters[i := iters[i][1..]], lists, k, i + 1)
  {
  }

  lemma AllAhead(iters: Centers, lists: Centers, k: nat)
    requires AtRound(iters, lists, k, |lists|)
    ensures AtRound(iters, lists, k + 1, 0)
  {
  }

  method NextOfEach(iters: Centers, ghost lists: Centers, ghost k: nat) returns (heads: seq<Addr>, iters': Centers)
    requires AtRound(iters, lists, k, 0)
    ensures heads == RoundOf(lists, k, |lists|) && AtRound(iters', lists, k + 1, 0)
  {
    heads, iters' := [], iters;
    assert |iters| == |lists|;
    hide AtRound;
    for i := 0 to |iters|
      invariant AtRound(iters', lists, k, i) && |iters'| == |lists|
      invariant heads == RoundOf(lists, k, i)
    {
      OneAhead(iters', lists, k, i);
      if iters'[i] != [] {
        heads := heads + [iters'[i][0]];
        iters' := iters'[i := iters'[i][1..]];
      }
    }
    AllAhead(iters', lists, k);
  }

  /** As few whole rounds as make a majority. */
  ghost predicate FewestRounds(lists: Centers, nodes: seq<Addr>, majority: nat) {
    exists k: nat :: nodes == Rounds(lists, k) && |nodes| >= majority && (k > 0 ==> |Rounds(lists, k - 1)| < majority)
  }

  /** All the nodes there are. */
  ghost predicate AllThereIs(lists: Centers, live: nat) {
    exists k: nat :: live == |Rounds(lists, k)| && Exhausted(lists, k)
  }

  /** The loop: rounds over the lists until there is a majority or nothing is left. */
  method RoundRobin(majority: nat, lists: Centers) returns (r: Selection)
    ensures match r
            case Selected(nodes) => FewestRounds(lists, nodes, majority)
            case NotEnoughNodes(live, required) => AllThereIs(lists, live) && live < required == majority
  {
    var iters: Centers, selected: seq<Addr> := lists, [];
    ghost var rounds: nat := 0;
    assert Rounds(lists, 0) == [] && AtRound(iters, lists, 0, 0);
    hide AtRound, RoundOf, Longest, Rounds, Exhausted, Rest;
    while |selected| < majority
      invariant AtRound(iters, lists, rounds, 0)
      invariant selected == Rounds(lists, rounds) && rounds <= Longest(lists)
      invariant rounds > 0 ==> |Rounds(lists, rounds - 1)| < majority
      decreases Longest(lists) - rounds
    {
      var previous := |selected|;
      NextRound(lists, rounds);
      var heads;
      heads, iters := NextOfEach(iters, lists, rounds);
      selected := selected + heads;
      if previous == |selected| {
        EmptyIsExhausted(lists, rounds);
        return NotEnoughNodes(|selected|, majority);
      }
      RoundsAreFew(lists, rounds);
      rounds := rounds + 1;
    }
    r := Selected(selected);
  }

  /** `Quorum`: rounds over the data centers until half of `total` is selected. In a consistent cluster
  it never fails. */
  method SelectQuorum(local: Addr, total: nat, dcs: Centers) returns (r: Selection)
    ensures match r
            case Selected(nodes) => FewestRounds(Others(dcs, local), nodes, total / 2)
            case NotEnoughNodes(live, required) => AllThereIs(Others(dcs, local), live) && live < required == total / 2
    ensures Cluster(dcs, total, local) ==> r.Selected?
  {
    hide Others, Cluster, FewestRounds, AllThereIs;
    r := RoundRobin(total / 2, Others(dcs, local));
    if r.NotEnoughNodes? {
      ShortIsNoCluster(dcs, total, local, r.live);
    }
  }

  /* What a quorum is. */

  lemma {:induction false} InRoundOf(lists: Centers, k: nat, upto: nat, a: Addr)
    requires upto <= |lists|
    ensures a in RoundOf(lists, k, upto) <==> exists i :: 0 <= i < upto && k < |lists[i]| && lists[i][k] == a
  {
    if upto > 0 {
      InRoundOf(lists, k, upto - 1, a);
    }
  }

  lemma TakeOneMore(s: seq<Addr>, k: nat, a: Addr)
    ensures a in Take(s, k + 1) <==> a in Take(s, k) || (k < |s| && s[k] == a)
  {
    assert k < |s| ==> s[..k + 1] == s[..k] + [s[k]];
  }

  /** The node is among the first `k` of some list. */
  ghost predicate Reached(lists: Centers, k: nat, a: Addr) { exists i :: 0 <= i < |lists| && a in Take(lists[i], k) }

  lemma ReachedOneMore(lists: Centers, k: nat, a: Addr)
    ensures Reached(lists, k + 1, a) <==> Reached(lists, k, a) || a in RoundOf(lists, k, |lists|)
  {
    InRoundOf(lists, k, |lists|, a);
    hide RoundOf, Take;
    forall i | 0 <= i < |lists|
      ensures a in Take(lists[i], k + 1) <==> a in Take(lists[i], k) || (k < |lists[i]| && lists[i][k] == a)
    {
      TakeOneMore(lists[i], k, a);
    }
  }

  lemma NoneReached(lists: Centers, a: Addr)
    ensures !Reached(lists, 0, a)
  {
  }

  lemma InConcat(s: seq<Addr>, t: seq<Addr>, a: Addr)
    ensures a in s + t <==> a in s || a in t
  {
  }

  /** The rounds reach the first nodes of every list. */
  lemma {:induction false} InRounds(lists: Centers, k: nat, a: Addr)
    ensures a in Rounds(lists, k) <==> Reached(lists, k, a)
  {
    hide Reached, RoundOf;
    if k == 0 {
      assert !Reached(lists, 0, a) by { NoneReached(lists, a); }
    } else {
      InRounds(lists, k - 1, a);
      ReachedOneMore(lists, k - 1, a);
      InConcat(Rounds(lists, k - 1), RoundOf(lists, k - 1, |lists|), a);
    }
  }

  lemma OnceAt(lists: Centers, i: nat, j: nat, k: nat, l: nat)
    requires Once(lists) && i < |lists| && j < |lists[i]| && k < |lists| && l < |lists[k]|
    requires lists[i][j] == lists[k][l]
    ensures i == k && j == l
  {
    assert lists[i][j] in lists[i] && lists[k][l] in lists[k];
    assert Distinct(lists[i]);
  }

  lemma ConcatDistinct(s: seq<Addr>, t: seq<Addr>)
    requires Distinct(s) && Distinct(t) && forall a :: a in t ==> a !in s
    ensures Distinct(s + t)
  {
    assert forall j :: 0 <= j < |t| ==> t[j] in t;
  }

  lemma {:induction false} RoundDistinct(lists: Centers, k: nat, upto: nat)
    requires upto <= |lists| && Once(lists)
    ensures Distinct(RoundOf(lists, k, upto))
  {
    if upto > 0 {
      RoundDistinct(lists, k, upto - 1);
      if k < |lists[upto - 1]| {
        var a := lists[upto - 1][k];
        InRoundOf(lists, k, upto - 1, a);
        hide Once;
        forall i | 0 <= i < upto - 1 && k < |lists[i]| ensures lists[i][k] != a {
          if lists[i][k] == a {
            OnceAt(lists, i, k, upto - 1, k);
          }
        }
        ConcatDistinct(RoundOf(lists, k, upto - 1), [a]);
      }
    }
  }

  lemma NewInRound(lists: Centers, k: nat, a: Addr)
    requires Once(lists) && a in RoundOf(lists, k, |lists|)
    ensures a !in Rounds(lists, k)
  {
    InRoundOf(lists, k, |lists|, a);
    InRounds(lists, k, a);
    hide Once, RoundOf, Rounds;
    var i :| 0 <= i < |lists| && k < |lists[i]| && lists[i][k] == a;
    if a in Rounds(lists, k) {
      var i' :| 0 <= i' < |lists| && a in Take(lists[i'], k);
      var j :| 0 <= j < k && j < |lists[i']| && lists[i'][j] == a;
      OnceAt(lists, i, k, i', j);
    }
  }

  lemma {:induction false} RoundsDistinct(lists: Centers, k: nat)
    requires Once(lists)
    ensures Distinct(Rounds(lists, k))
  {
    if k > 0 {
      var before, round := Rounds(lists, k - 1), RoundOf(lists, k - 1, |lists|);
      assert Rounds(lists, k) == before + round;
      hide Once, RoundOf, Rounds, Distinct;
      RoundsDistinct(lists, k - 1);
      RoundDistinct(lists, k - 1, |lists|);
      forall a | a in round ensures a !in before {
        NewInRound(lists, k - 1, a);
      }
      ConcatDistinct(before, round);
    } else {
      assert Rounds(lists, k) == [];
    }
  }

  lemma {:induction false} DistinctSize(s: seq<Addr>)
    requires Distinct(s)
    ensures |Elements(s)| == |s|
  {
    if s != [] {
      var rest := s[..|s| - 1];
      DistinctSize(rest);
      assert Elements(s) == Elements(rest) + {s[|s| - 1]};
    }
  }

  function Elements(s: seq<Addr>): set<Addr> { set a | a in s }

  lemma {:induction false} WithoutDistinct(s: seq<Addr>, local: Addr)
    requires Distinct(s)
    ensures Distinct(Without(s, local))
  {
    if s != [] {
      WithoutDistinct(s[..|s| - 1], local);
      WithoutIn(s[..|s| - 1], local);
      assert s[|s| - 1] !in s[..|s| - 1];
      ConcatDistinct(Without(s[..|s| - 1], local), [s[|s| - 1]]);
    }
  }

  lemma OthersOnce(dcs: Centers, local: Addr)
    requires Once(dcs)
    ensures Once(Others(dcs, local))
  {
    forall i | 0 <= i < |dcs| ensures Distinct(Without(dcs[i], local)) && forall a :: a in Without(dcs[i], local) ==> a in dcs[i] {
      WithoutDistinct(dcs[i], local);
      WithoutIn(dcs[i], local);
    }
  }

  /** The rounds reach members other than the local node, and all of them in the end. */
  lemma RoundsReach(dcs: Centers, local: Addr, k: nat)
    ensures var reached := Elements(Rounds(Others(dcs, local), k));
            reached <= Members(dcs) - {local}
            && (Exhausted(Others(dcs, local), k) ==> reached == Members(dcs) - {local})
  {
    var lists := Others(dcs, local);
    forall a ensures a in Rounds(lists, k) ==> a in Members(dcs) && a != local
             ensures Exhausted(lists, k) && a in Members(dcs) && a != local ==> a in Rounds(lists, k)
    {
      InRounds(lists, k, a);
      OtherMember(dcs, local, a);
      hide Rounds, Members, Others;
    }
  }

  lemma OtherMember(dcs: Centers, local: Addr, a: Addr)
    ensures var lists := Others(dcs, local);
            (exists i :: 0 <= i < |lists| && a in lists[i]) <==> a in Members(dcs) && a != local
  {
    var lists := Others(dcs, local);
    forall i | 0 <= i < |dcs| ensures a in lists[i] <==> a in dcs[i] && a != local {
      WithoutIn(dcs[i], local);
    }
    if a in Members(dcs) && a != local {
      var i, j :| 0 <= i < |dcs| && 0 <= j < |dcs[i]| && dcs[i][j] == a;
      assert a in lists[i];
    }
  }

  /** The lists hold exactly `total` members, the caller among them. */
  ghost predicate Cluster(dcs: Centers, total: nat, local: Addr) {
    Once(dcs) && |Members(dcs)| == total && local in Members(dcs)
  }

  /** In a consistent cluster all there is, is every other member: a quorum never fails. */
  lemma QuorumNeverFails(dcs: Centers, total: nat, local: Addr, live: nat)
    requires Cluster(dcs, total, local) && AllThereIs(Others(dcs, local), live)
    ensures live == total - 1 >= total / 2
  {
    var k: nat :| live == |Rounds(Others(dcs, local), k)| && Exhausted(Others(dcs, local), k);
    RoundsReach(dcs, local, k);
    OthersOnce(dcs, local);
    RoundsDistinct(Others(dcs, local), k);
    DistinctSize(Rounds(Others(dcs, local), k));
  }

  lemma ShortIsNoCluster(dcs: Centers, total: nat, local: Addr, live: nat)
    requires AllThereIs(Others(dcs, local), live) && live < total / 2
    ensures !Cluster(dcs, total, local)
  {
    hide AllThereIs;
    if Cluster(dcs, total, local) {
      QuorumNeverFails(dcs, total, local, live);
    }
  }

  /** The caller and the nodes selected. */
  function Writers(local: Addr, nodes: seq<Addr>): set<Addr> { {local} + Elements(nodes) }

  /** A quorum selection and the caller are a majority of the members. */
  lemma QuorumIsMajority(dcs: Centers, total: nat, local: Addr, nodes: seq<Addr>)
    requires Cluster(dcs, total, local) && FewestRounds(Others(dcs, local), nodes, total / 2)
    ensures Distinct(nodes) && local !in nodes
    ensures Writers(local, nodes) <= Members(dcs) && 2 * |Writers(local, nodes)| > total
  {
    var k: nat :| nodes == Rounds(Others(dcs, local), k) && |nodes| >= total / 2;
    RoundsReach(dcs, local, k);
    OthersOnce(dcs, local);
    RoundsDistinct(Others(dcs, local), k);
    DistinctSize(nodes);
    assert local !in Elements(nodes);
  }

  lemma MajoritiesMeet(all: set<Addr>, a: set<Addr>, b: set<Addr>)
    requires a <= all && b <= all && 2 * |a| > |all| && 2 * |b| > |all|
    ensures a * b != {}
  {
    if a * b == {} {
      assert |a + b| == |a| + |b|;
      assert a + b <= all;
      Subset(a + b, all);
    }
  }

  lemma {:induction false} Subset(a: set<Addr>, b: set<Addr>)
    requires a <= b
    ensures |a| <= |b|
  {
    assert b == a + (b - a);
  }

  /** Any two quorums of a cluster share a node, whoever the callers are and however each of them
  orders the members into data centers. */
  lemma QuorumsMeet(dcs: Centers, dcs': Centers, total: nat, local: Addr, local': Addr, nodes: seq<Addr>, nodes': seq<Addr>)
    requires Cluster(dcs, total, local) && Cluster(dcs', total, local') && Members(dcs) == Members(dcs')
    requires FewestRounds(Others(dcs, local), nodes, total / 2) && FewestRounds(Others(dcs', local'), nodes', total / 2)
    ensures Writers(local, nodes) * Writers(local', nodes') != {}
  {
    QuorumIsMajority(dcs, total, local, nodes);
    QuorumIsMajority(dcs', total, local', nodes');
    MajoritiesMeet(Members(dcs), Writers(local, nodes), Writers(local', nodes'));
  }

  /* A quorum in each data center. */

  /** What one data center contributes: one node less where the caller writes too. */
  function Part(center: seq<Addr>, home: bool, local: Addr): seq<Addr> {
    Take(Without(center, local), if home then |center| / 2 else |center| / 2 + 1)
  }

  function Parts(dcs: Centers, home: Option<nat>, local: Addr): seq<Addr> {
    if dcs == [] then []
    else
      var l := |dcs| - 1;
      Parts(dcs[..l], home, local) + Part(dcs[l], home == Some(l), local)
  }

  method SelectEachQuorum(local: Addr, home: Option<nat>, dcs: Centers) returns (nodes: seq<Addr>)
    ensures nodes == Parts(dcs, home, local)
  {
    nodes := [];
    for i := 0 to |dcs|
      invariant nodes == Parts(dcs[..i], home, local)
    {
      hide Take, Without;
      assert dcs[..i + 1][..i] == dcs[..i];
      var majority := if home == Some(i) then |dcs[i]| / 2 else |dcs[i]| / 2 + 1;
      nodes := nodes + Take(Without(dcs[i], local), majority);
    }
    assert dcs[..|dcs|] == dcs;
  }

  /** The writers in one data center are a majority of it. */
  lemma PartIsMajority(center: seq<Addr>, home: bool, local: Addr)
    requires Distinct(center) && center != [] && (home <==> local in center)
    ensures var writers := Elements(Part(center, home, local)) + if home then {local} else {};
            writers <= Elements(center) && 2 * |writers| > |Elements(center)|
  {
    var others, part := Without(center, local), Part(center, home, local);
    WithoutIn(center, local);
    WithoutDistinct(center, local);
    WithoutSize(center, local);
    hide Without;
    assert Distinct(part) && forall a :: a in part ==> a in others;
    DistinctSize(center);
    DistinctSize(part);
    assert local !in Elements(part);
  }

  /* Which nodes a part is. */

  /** How many nodes come before the `j`-th, the local one left out. */
  function Ahead(center: seq<Addr>, local: Addr, j: nat): nat
    requires j <= |center|
  {
    if local in center[..j] then j - 1 else j
  }

  lemma {:induction false} WithoutAt(center: seq<Addr>, local: Addr, j: nat)
    requires Distinct(center) && j < |center| && center[j] != local
    ensures Ahead(center, local, j) < |Without(center, local)| && Without(center, local)[Ahead(center, local, j)] == center[j]
  {
    var l := |center| - 1;
    var before := center[..l];
    if j == l {
      WithoutSize(before, local);
      assert center[..j] == before;
    } else {
      assert before[..j] == center[..j] && before[j] == center[j];
      WithoutAt(before, local, j);
    }
  }

  /** A part is the first nodes of the list other than the caller. */
  lemma PartPicks(center: seq<Addr>, home: bool, local: Addr, j: nat)
    requires Distinct(center) && j < |center|
    ensures center[j] in Part(center, home, local)
            <==> center[j] != local && Ahead(center, local, j) < if home then |center| / 2 else |center| / 2 + 1
  {
    var others, part := Without(center, local), Part(center, home, local);
    WithoutIn(center, local);
    WithoutDistinct(center, local);
    if center[j] != local {
      WithoutAt(center, local, j);
      hide Without;
      var p := Ahead(center, local, j);
      assert p < |part| ==> part[p] == center[j];
      if center[j] in part {
        var i :| 0 <= i < |part| && part[i] == center[j];
        assert others[i] == others[p];
      }
    }
  }

  lemma {:induction false} PartsIn(dcs: Centers, home: Option<nat>, local: Addr, a: Addr)
    ensures a in Parts(dcs, home, local) <==> exists i :: 0 <= i < |dcs| && a in Part(dcs[i], home == Some(i), local)
  {
    if dcs != [] {
      var l := |dcs| - 1;
      PartsIn(dcs[..l], home, local, a);
      hide Part;
      assert forall i :: 0 <= i < l ==> dcs[..l][i] == dcs[i];
    }
  }

  lemma PartWithin(center: seq<Addr>, home: bool, local: Addr)
    ensures forall a :: a in Part(center, home, local) ==> a in center && a != local
    ensures Distinct(center) ==> Distinct(Part(center, home, local))
  {
    WithoutIn(center, local);
    if Distinct(center) {
      WithoutDistinct(center, local);
    }
    hide Without;
  }

  /** `EachQuorum`, node by node: from each data center its first nodes other than the caller, half of it
  at home and one more than half elsewhere, and no others. */
  lemma EachQuorumPicks(dcs: Centers, home: Option<nat>, local: Addr, i: nat, j: nat)
    requires Once(dcs) && i < |dcs| && j < |dcs[i]|
    ensures dcs[i][j] in Parts(dcs, home, local)
            <==> dcs[i][j] != local && Ahead(dcs[i], local, j) < if home == Some(i) then |dcs[i]| / 2 else |dcs[i]| / 2 + 1
    ensures forall a :: a in Parts(dcs, home, local) ==> a in Members(dcs) && a != local
  {
    var a := dcs[i][j];
    PartsIn(dcs, home, local, a);
    PartPicks(dcs[i], home == Some(i), local, j);
    forall b ensures b in Parts(dcs, home, local) ==> b in Members(dcs) && b != local {
      PartsIn(dcs, home, local, b);
      if b in Parts(dcs, home, local) {
        var k :| 0 <= k < |dcs| && b in Part(dcs[k], home == Some(k), local);
        PartWithin(dcs[k], home == Some(k), local);
        var l :| 0 <= l < |dcs[k]| && dcs[k][l] == b;
      }
    }
    hide Part, Parts, Members;
    forall k | 0 <= k < |dcs| && a in Part(dcs[k], home == Some(k), local) ensures k == i {
      PartWithin(dcs[k], home == Some(k), local);
      assert a in dcs[i] && a in dcs[k];
    }
  }

  lemma {:induction false} PartsDistinct(dcs: Centers, home: Option<nat>, local: Addr)
    requires Once(dcs)
    ensures Distinct(Parts(dcs, home, local))
  {
    if dcs != [] {
      var l := |dcs| - 1;
      var before, part := Parts(dcs[..l], home, local), Part(dcs[l], home == Some(l), local);
      assert Once(dcs[..l]) && Distinct(dcs[l]);
      PartsDistinct(dcs[..l], home, local);
      PartWithin(dcs[l], home == Some(l), local);
      forall a | a in part ensures a !in before {
        PartsIn(dcs[..l], home, local, a);
        hide Part, Parts;
        if a in before {
          var i :| 0 <= i < l && a in Part(dcs[..l][i], home == Some(i), local);
          PartWithin(dcs[i], home == Some(i), local);
        }
      }
      hide Part, Once;
      ConcatDistinct(before, part);
    }
  }

  /** From a data center that is not empty exactly half of its size is selected at home, and one more than
  that elsewhere. */
  lemma EachQuorumCounts(dcs: Centers, h: nat, local: Addr, i: nat)
    requires Once(dcs) && h < |dcs| && local in dcs[h] && i < |dcs| && dcs[i] != []
    ensures var nodes := Parts(dcs, Some(h), local);
            Distinct(nodes)
            && |set a | a in nodes && a in dcs[i]| == if i == h then |dcs[i]| / 2 else |dcs[i]| / 2 + 1
  {
    var nodes, part := Parts(dcs, Some(h), local), Part(dcs[i], i == h, local);
    PartsDistinct(dcs, Some(h), local);
    PartWithin(dcs[i], i == h, local);
    WithoutSize(dcs[i], local);
    assert local in dcs[i] <==> i == h;
    assert |part| == if i == h then |dcs[i]| / 2 else |dcs[i]| / 2 + 1;
    DistinctSize(part);
    forall a ensures a in nodes && a in dcs[i] <==> a in part {
      PartsIn(dcs, Some(h), local, a);
      hide Part, Parts, Distinct;
      forall k | 0 <= k < |dcs| && a in Part(dcs[k], Some(h) == Some(k), local) && a in dcs[i] ensures k == i {
        PartWithin(dcs[k], Some(h) == Some(k), local);
      }
    }
    assert (set a | a in nodes && a in dcs[i]) == Elements(part);
  }

  /** `LocalQuorum`: half of the local data center, which with the caller is a majority of it; nothing
  if the local data center is not listed. */
  method SelectLocalQuorum(local: Addr, home: Option<nat>, dcs: Centers) returns (nodes: seq<Addr>)
    requires home.Some? ==> home.value < |dcs|
    ensures nodes == if home.Some? then Part(dcs[home.value], true, local) else []
    ensures home.Some? && Distinct(dcs[home.value]) && local in dcs[home.value] ==>
              |nodes| == |dcs[home.value]| / 2 && Distinct(nodes) && local !in nodes
              && Writers(local, nodes) <= Elements(dcs[home.value])
              && 2 * |Writers(local, nodes)| > |dcs[home.value]|
  {
    nodes := [];
    if home.Some? {
      var center := dcs[home.value];
      var majority := |center| / 2;
      nodes := nodes + Take(Without(center, local), majority);
      LocalPart(center, local);
    }
  }

  lemma LocalPart(center: seq<Addr>, local: Addr)
    ensures var nodes := Part(center, true, local);
            Distinct(center) && local in center ==>
              |nodes| == |center| / 2 && Distinct(nodes) && local !in nodes
              && Writers(local, nodes) <= Elements(center) && 2 * |Writers(local, nodes)| > |center|
  {
    if Distinct(center) && local in center {
      PartIsMajority(center, true, local);
      WithoutIn(center, local);
      WithoutDistinct(center, local);
      WithoutSize(center, local);
      DistinctSize(center);
      hide Without;
      assert Writers(local, Part(center, true, local)) == Elements(Part(center, true, local)) + {local};
      assert forall a :: a in Part(center, true, local) ==> a in Without(center, local);
    }
  }

  /** Two callers of one data center share a node. */
  lemma LocalQuorumsMeet(center: seq<Addr>, local: Addr, local': Addr)
    requires Distinct(center) && local in center && local' in center
    ensures Writers(local, Part(center, true, local)) * Writers(local', Part(center, true, local')) != {}
  {
    LocalPart(center, local);
    LocalPart(center, local');
    DistinctSize(center);
    hide Part;
    MajoritiesMeet(Elements(center), Writers(local, Part(center, true, local)), Writers(local', Part(center, true, local')));
  }

  lemma {:induction false} PartListed(dcs: Centers, home: Option<nat>, local: Addr, i: nat)
    requires i < |dcs|
    ensures Elements(Part(dcs[i], home == Some(i), local)) <= Elements(Parts(dcs, home, local))
  {
    var l := |dcs| - 1;
    if i < l {
      PartListed(dcs[..l], home, local, i);
    }
    hide Part;
  }

  /** Any two callers' `EachQuorum` selections share a node inside every data center that is not
  empty. */
  lemma EachQuorumsMeet(dcs: Centers, home: nat, home': nat, local: Addr, local': Addr, i: nat)
    requires Once(dcs) && home < |dcs| && home' < |dcs| && local in dcs[home] && local' in dcs[home']
    requires i < |dcs| && dcs[i] != []
    ensures Writers(local, Parts(dcs, Some(home), local)) * Writers(local', Parts(dcs, Some(home'), local')) * Elements(dcs[i]) != {}
  {
    var a := Elements(Part(dcs[i], home == i, local)) + if home == i then {local} else {};
    var b := Elements(Part(dcs[i], home' == i, local')) + if home' == i then {local'} else {};
    PartIsMajority(dcs[i], home == i, local);
    PartIsMajority(dcs[i], home' == i, local');
    PartListed(dcs, Some(home), local, i);
    PartListed(dcs, Some(home'), local', i);
    hide Part, Parts;
    MajoritiesMeet(Elements(dcs[i]), a, b);
    var x :| x in a * b;
    assert x in Writers(local, Parts(dcs, Some(home), local)) && x in Writers(local', Parts(dcs, Some(home'), local'));
  }

  /* A write. */

  datatype Reply = Reply(node: Addr, ok: bool)

  datatype PutResult =
    | Written
    | NotEnough(live: nat, required: nat)
    | StorageFailed
    | ConsistencyFailure(responses: nat, required: nat)

  function Answering(replies: seq<Reply>): (nodes: seq<Addr>)
    ensures |nodes| == |replies| && forall i :: 0 <= i < |replies| ==> nodes[i] == replies[i].node
  {
    seq(|replies|, i requires 0 <= i < |replies| => replies[i].node)
  }

  function Successes(replies: seq<Reply>): (n: nat)
    ensures n <= |replies|
    ensures n == |replies| <==> forall i :: 0 <= i < |replies| ==> replies[i].ok
  {
    if replies == [] then 0
    else
      var last := replies[|replies| - 1];
      Successes(replies[..|replies| - 1]) + if last.ok then 1 else 0
  }

  /** The successes are counted one by one. */
  lemma {:induction false} SuccessesCount(replies: seq<Reply>)
    ensures Successes(replies) == |set i | 0 <= i < |replies| && replies[i].ok|
  {
    if replies != [] {
      var l := |replies| - 1;
      SuccessesCount(replies[..l]);
      var before := set i | 0 <= i < l && replies[..l][i].ok;
      var all := set i | 0 <= i < |replies| && replies[i].ok;
      assert all == before + if replies[l].ok then {l} else {};
    }
  }

  /** `handle_consistency_distribution`: the replies come in any order, one from every node. */
  method Distribute(nodes: seq<Addr>, replies: seq<Reply>) returns (r: PutResult)
    requires multiset(Answering(replies)) == multiset(nodes)
    ensures r == Written <==> forall i :: 0 <= i < |replies| ==> replies[i].ok
    ensures r != Written ==> r == ConsistencyFailure(Successes(replies), |nodes|)
  {
    assert |multiset(Answering(replies))| == |multiset(nodes)|;
    var success := 0;
    for i := 0 to |replies|
      invariant success == Successes(replies[..i])
    {
      assert replies[..i + 1][..i] == replies[..i];
      if replies[i].ok {
        success := success + 1;
      }
    }
    assert replies[..|replies|] == replies;
    r := if success != |nodes| then ConsistencyFailure(success, |nodes|) else Written;
  }

  /** What a write does, in this order. */
  datatype Effect = WroteLocally(ok: bool) | Asked(node: Addr)

  function Requests(nodes: seq<Addr>): (log: seq<Effect>)
    ensures |log| == |nodes| && forall i :: 0 <= i < |log| ==> log[i] == Asked(nodes[i])
  {
    seq(|nodes|, i requires 0 <= i < |nodes| => Asked(nodes[i]))
  }

  /** `put`: choose the replicas, write locally, and only if that went well ask the replicas and wait
  for them. `stored` is what the local keyspace answers. */
  method Put(selection: Selection, stored: bool, replies: seq<Reply>) returns (r: PutResult, log: seq<Effect>)
    requires selection.Selected? && stored ==> multiset(Answering(replies)) == multiset(selection.nodes)
    ensures r == Written <==> selection.Selected? && stored && forall i :: 0 <= i < |replies| ==> replies[i].ok
    ensures selection.NotEnoughNodes? ==> r == NotEnough(selection.live, selection.required) && log == []
    ensures selection.Selected? && !stored ==> r == StorageFailed && log == [WroteLocally(false)]
    ensures selection.Selected? && stored ==> log == [WroteLocally(true)] + Requests(selection.nodes)
    ensures selection.Selected? && stored && r != Written ==> r == ConsistencyFailure(Successes(replies), |selection.nodes|)
  {
    if selection.NotEnoughNodes? {
      return NotEnough(selection.live, selection.required), [];
    }
    log := [WroteLocally(stored)];
    if !stored {
      return StorageFailed, log;
    }
    log := log + Requests(selection.nodes);
    r := Distribute(selection.nodes, replies);
  }

  /** The nodes that acknowledged a write: the caller if its own keyspace did, and the replicas that
  were asked and agreed. */
  function AckedBy(local: Addr, log: seq<Effect>, agrees: Addr -> bool): set<Addr> {
    (if WroteLocally(true) in log then {local} else {})
    + set e | e in log && e.Asked? && agrees(e.node) :: e.node
  }

  /** A quorum write. If it succeeds, the caller stored it before anyone was asked, and a majority of
  the members acknowledged it; it never fails for want of nodes in a consistent cluster. */
  method QuorumPut(local: Addr, total: nat, dcs: Centers, stored: bool, agrees: Addr -> bool)
    returns (r: PutResult, log: seq<Effect>)
    ensures r == Written ==> log != [] && log[0] == WroteLocally(true)
    ensures Cluster(dcs, total, local) ==> !r.NotEnough?
    ensures r == Written && Cluster(dcs, total, local) ==>
              AckedBy(local, log, agrees) <= Members(dcs) && 2 * |AckedBy(local, log, agrees)| > total
  {
    hide Cluster, FewestRounds, AllThereIs, Members, Others;
    var selection := SelectQuorum(local, total, dcs);
    var replies := [];
    if selection.Selected? {
      var nodes := selection.nodes;
      replies := seq(|nodes|, i requires 0 <= i < |nodes| => Reply(nodes[i], agrees(nodes[i])));
      assert Answering(replies) == nodes;
    }
    r, log := Put(selection, stored, replies);
    if r == Written {
      assert forall i :: 0 <= i < |replies| ==> replies[i].ok;
      assert forall i :: 0 <= i < |replies| ==> agrees(selection.nodes[i]);
      AllAgreed(local, selection.nodes, agrees);
      if Cluster(dcs, total, local) {
        QuorumIsMajority(dcs, total, local, selection.nodes);
      }
    }
  }

  lemma AllAgreed(local: Addr, nodes: seq<Addr>, agrees: Addr -> bool)
    requires forall i :: 0 <= i < |nodes| ==> agrees(nodes[i])
    ensures AckedBy(local, [WroteLocally(true)] + Requests(nodes), agrees) == Writers(local, nodes)
  {
    var log := [WroteLocally(true)] + Requests(nodes);
    assert log[0] == WroteLocally(true);
    forall a ensures a in AckedBy(local, log, agrees) <==> a in Writers(local, nodes) {
      if a in nodes {
        var i :| 0 <= i < |nodes| && nodes[i] == a;
        assert log[i + 1] == Asked(a);
      }
    }
  }
}
