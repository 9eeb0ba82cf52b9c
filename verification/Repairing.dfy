/** Read repair: applying what `diff` reports, and when that is enough. */
module Repairing {
  import opened Hlc
  import opened Records
  import opened Replicas
  import opened Convergence
  import opened Merging

  /** The operations of one repair: every record `diff` reports, each once, on one source. */
  ghost predicate Repairs(f: nat, r: Replica, other: Replica, s: nat, ops: seq<Op>)
    requires |r.seen| > 0
  {
    (forall i :: 0 <= i < |ops| ==>
       ops[i].source == s && ops[i].key in Diff(f, r, other) && ops[i].rec == other.recs[ops[i].key])
    && (forall i, j :: 0 <= i < j < |ops| ==> ops[i].key != ops[j].key)
    && (forall k :: k in Diff(f, r, other) ==> exists i :: 0 <= i < |ops| && ops[i].key == k)
  }

  /** A repair brings in everything `diff` reported exactly when it is delivered in order. */
  lemma RepairCompleteIff(f: nat, r: Replica, other: Replica, s: nat, ops: seq<Op>)
    requires |r.seen| > 0 && Repairs(f, r, other, s, ops)
    ensures (forall k :: k in Diff(f, r, other) ==> Covers(Run(r, ops).recs, k, other.recs[k]))
            <==> InOrder(r, ops)
  {
    AllAdmittedIffInOrder(r, ops);
    forall i | 0 <= i < |ops|
      ensures AdmittedAt(r, ops, i) <==> Covers(Run(r, ops).recs, ops[i].key, ops[i].rec)
    {
      AdmittedIffCovered(f, r, other, s, ops, i);
    }
    hide AdmittedAt, Run, Covers, Diff, InOrder;
    if forall i :: 0 <= i < |ops| ==> AdmittedAt(r, ops, i) {
      forall k | k in Diff(f, r, other) ensures Covers(Run(r, ops).recs, k, other.recs[k]) {
        var i :| 0 <= i < |ops| && ops[i].key == k;
        assert AdmittedAt(r, ops, i);
      }
    }
  }

  lemma AdmittedIffCovered(f: nat, r: Replica, other: Replica, s: nat, ops: seq<Op>, i: nat)
    requires |r.seen| > 0 && Repairs(f, r, other, s, ops) && i < |ops|
    ensures AdmittedAt(r, ops, i) <==> Covers(Run(r, ops).recs, ops[i].key, ops[i].rec)
  {
    KeyWrittenOnce(r, ops, i);
    assert ops[i].key in Diff(f, r, other);
    hide AdmittedAt, Run, Before, Repairs;
  }

  /** What a complete repair leaves at a key. */
  lemma RepairedAt(f: nat, r: Replica, other: Replica, s: nat, ops: seq<Op>, k: Key)
    requires |r.seen| > 0 && Repairs(f, r, other, s, ops) && InOrder(r, ops)
    ensures At(Run(r, ops).recs, k) == if k in Diff(f, r, other) then At(other.recs, k) else At(r.recs, k)
  {
    if k in Diff(f, r, other) {
      var i :| 0 <= i < |ops| && ops[i].key == k;
      KeyWrittenOnce(r, ops, i);
      InOrderImpliesAdmitted(r, ops);
      assert AdmittedAt(r, ops, i);
      hide Before, Run, AdmittedAt, InOrder;
    } else {
      UntouchedKey(r, ops, k);
    }
  }

  /** Off the epoch, a stamp that is behind the safe stamp stays behind it. At the epoch it need not:
  see `ShiftNotMonotone`. */
  lemma BehindStaysBehind(f: nat, a: seq<Stamps>, b: seq<Stamps>, ts: Stamp)
    requires |a| == |b| > 0 && ts.time > 0 && Before(f, a, ts)
    requires forall s :: 0 <= s < |a| ==> Seen(a[s], ts.node).AtMost(Seen(b[s], ts.node))
    ensures Before(f, b, ts)
  {
    var x, y := MinSeen(a, ts.node), MinSeen(b, ts.node);
    assert x.AtMost(y);
    ShiftMonotone(f, x, y);
  }

  /** A record of the other set, unknown here, is left out of `diff` because it is behind the safe
  stamp. */
  predicate HeldBack(f: nat, r: Replica, other: Replica, k: Key)
    requires |r.seen| > 0
  {
    k in other.recs && k !in r.recs && Before(f, r.seen, other.recs[k].ts)
  }

  /** The last stamp of a node among the operations. */
  function Latest(ops: seq<Op>, node: NodeId, start: Stamp): Stamp {
    if ops == [] then start
    else if ops[|ops| - 1].rec.ts.node == node then ops[|ops| - 1].rec.ts
    else Latest(ops[..|ops| - 1], node, start)
  }

  /** What the operations, in order on source `s`, raise the minimum of a node to. */
  function NewMin(r: Replica, s: nat, ops: seq<Op>, node: NodeId): Stamp
    requires s < |r.seen|
  {
    MinSeen(Observe(r.seen, s, Latest(ops, node, Seen(r.seen[s], node)).(node := node)), node)
  }

  lemma {:induction false} SeenIsLatest(r: Replica, s: nat, ops: seq<Op>, t: nat, node: NodeId)
    requires t < |r.seen| && forall i :: 0 <= i < |ops| ==> AdmittedAt(r, ops, i) && ops[i].source == s
    ensures Seen(Run(r, ops).seen[t], node)
            == if t == s then Latest(ops, node, Seen(r.seen[t], node)) else Seen(r.seen[t], node)
  {
    if ops != [] {
      var last := |ops| - 1;
      var before := ops[..last];
      forall i | 0 <= i < last ensures AdmittedAt(r, before, i) {
        assert AdmittedAt(r, ops, i) && before[..i] == ops[..i];
      }
      SeenIsLatest(r, s, before, t, node);
      assert AdmittedAt(r, ops, last);
      SeenAfter(Run(r, before), ops[last], t, node);
      hide Seen, Apply, Admits;
    }
  }

  lemma {:induction false} LatestNode(ops: seq<Op>, node: NodeId, start: Stamp)
    requires start.node == node
    ensures Latest(ops, node, start).node == node
  {
    if ops != [] {
      LatestNode(ops[..|ops| - 1], node, start);
    }
  }

  /** The minimum after a repair, from the stamps before and the operations. */
  lemma MinAfterRepair(r: Replica, s: nat, ops: seq<Op>, node: NodeId)
    requires s < |r.seen| && WellFiled(r.seen) && InOrder(r, ops) && forall i :: 0 <= i < |ops| ==> ops[i].source == s
    ensures MinSeen(Run(r, ops).seen, node) == NewMin(r, s, ops, node) && NewMin(r, s, ops, node).node == node
  {
    var latest := Latest(ops, node, Seen(r.seen[s], node));
    LatestNode(ops, node, Seen(r.seen[s], node));
    InOrderImpliesAdmitted(r, ops);
    hide AdmittedAt;
    var seen := Observe(r.seen, s, latest);
    forall t | 0 <= t < |r.seen| ensures Seen(Run(r, ops).seen[t], node) == Seen(seen[t], node) && Seen(seen[t], node).node == node {
      SeenIsLatest(r, s, ops, t, node);
      hide Run;
    }
    hide Run, InOrder, WellFiled;
    MinSeenFrame(Run(r, ops).seen, seen, node);
  }

  /** Behind the safe stamp at the epoch: the minimum is past the forgiveness period or has a larger
  counter. */
  lemma EpochBehindIff(f: nat, seen: seq<Stamps>, ts: Stamp)
    requires |seen| > 0 && ts.time == 0 && MinSeen(seen, ts.node).node == ts.node
    ensures Before(f, seen, ts) <==> f < MinSeen(seen, ts.node).time || ts.counter < MinSeen(seen, ts.node).counter
  {
    hide MinSeen;
  }

  /** What `diff` still reports after a repair in order: the records that were held back and are so no
  longer. */
  lemma StillReported(f: nat, r: Replica, other: Replica, s: nat, ops: seq<Op>, k: Key)
    requires |r.seen| > 0 && Repairs(f, r, other, s, ops) && InOrder(r, ops)
    ensures k in Diff(f, Run(r, ops), other)
            <==> HeldBack(f, r, other, k) && !Before(f, Run(r, ops).seen, other.recs[k].ts)
  {
    RepairedAt(f, r, other, s, ops, k);
    hide Run, Repairs, InOrder, Before;
  }

  /** After a repair in order the next `diff` against the same set reports nothing but records of the
  epoch itself that were held back before. */
  lemma RepairReachesFixpoint(f: nat, r: Replica, other: Replica, s: nat, ops: seq<Op>)
    requires |r.seen| > 0 && Repairs(f, r, other, s, ops) && InOrder(r, ops)
    ensures forall k :: k in Diff(f, Run(r, ops), other) ==> HeldBack(f, r, other, k) && other.recs[k].ts.time == 0
  {
    var r' := Run(r, ops);
    forall k | k in Diff(f, r', other) ensures HeldBack(f, r, other, k) && other.recs[k].ts.time == 0 {
      StillReported(f, r, other, s, ops, k);
      var ts := other.recs[k].ts;
      forall t | 0 <= t < |r.seen| ensures Seen(r.seen[t], ts.node).AtMost(Seen(r'.seen[t], ts.node)) {
        SeenGrows(r, ops, 0, t, ts.node);
      }
      hide Run, Repairs, InOrder, Diff;
      if ts.time > 0 {
        BehindStaysBehind(f, r.seen, r'.seen, ts);
      }
    }
  }

  /** The record stays held back: off the epoch always, at the epoch if the minimum after the repair
  is past the forgiveness period or has a larger counter. */
  predicate StaysHeldBack(f: nat, r: Replica, s: nat, ops: seq<Op>, ts: Stamp)
    requires s < |r.seen|
  {
    ts.time > 0 || f < NewMin(r, s, ops, ts.node).time || ts.counter < NewMin(r, s, ops, ts.node).counter
  }

  /** The next `diff` is empty exactly when every record that was held back stays so. */
  lemma RepairFixpointIff(f: nat, r: Replica, other: Replica, s: nat, ops: seq<Op>)
    requires s < |r.seen| && WellFiled(r.seen) && Repairs(f, r, other, s, ops) && InOrder(r, ops)
    ensures Diff(f, Run(r, ops), other) == map[]
            <==> forall k :: HeldBack(f, r, other, k) ==> StaysHeldBack(f, r, s, ops, other.recs[k].ts)
  {
    RepairReachesFixpoint(f, r, other, s, ops);
    forall k ensures k in Diff(f, Run(r, ops), other) <==>
                     HeldBack(f, r, other, k) && !StaysHeldBack(f, r, s, ops, other.recs[k].ts)
    {
      ReportedIff(f, r, other, s, ops, k);
    }
    hide Run, Repairs, InOrder, Diff, HeldBack, StaysHeldBack, WellFiled;
  }

  lemma ReportedIff(f: nat, r: Replica, other: Replica, s: nat, ops: seq<Op>, k: Key)
    requires s < |r.seen| && WellFiled(r.seen) && Repairs(f, r, other, s, ops) && InOrder(r, ops)
    ensures k in Diff(f, Run(r, ops), other) <==>
            HeldBack(f, r, other, k) && !StaysHeldBack(f, r, s, ops, other.recs[k].ts)
  {
    RepairReachesFixpoint(f, r, other, s, ops);
    StillReported(f, r, other, s, ops, k);
    if k in other.recs {
      MinAfterRepair(r, s, ops, other.recs[k].ts.node);
      hide NewMin, Run, InOrder, WellFiled, Repairs, Diff, MinSeen, HeldBack;
      if other.recs[k].ts.time == 0 {
        EpochBehindIff(f, Run(r, ops).seen, other.recs[k].ts);
      }
    } else {
      hide Run, InOrder, WellFiled, Repairs, NewMin;
    }
  }

  /** An insert on one side and a delete on the other, with the same stamp. */
  predicate TieAt(a: Replica, b: Replica, k: Key) {
    k in a.recs && k in b.recs && a.recs[k].ts == b.recs[k].ts && a.recs[k] != b.recs[k]
  }

  ghost predicate NoTies(a: Replica, b: Replica) { forall k :: !TieAt(a, b, k) }

  /** Repairing one replica from another fresh one joins their records, ties aside. */
  lemma RepairJoins(f: nat, a: Replica, b: Replica, s: nat, ops: seq<Op>, k: Key)
    requires Fresh(f, a, b) && Repairs(f, a, b, s, ops) && InOrder(a, ops)
    ensures At(Run(a, ops).recs, k) == if TieAt(a, b, k) then At(a.recs, k) else JoinOpt(At(a.recs, k), At(b.recs, k))
  {
    RepairedAt(f, a, b, s, ops, k);
    hide Run, Repairs, InOrder, Before;
  }

  /** Repairing two mutually fresh replicas once each way makes their records equal exactly when they
  hold no tie. */
  lemma TwoWayRepairIff(f: nat, a: Replica, b: Replica, s: nat, opsA: seq<Op>, t: nat, opsB: seq<Op>)
    requires Fresh(f, a, b)
    requires Repairs(f, a, b, s, opsA) && InOrder(a, opsA)
    requires Repairs(f, b, Run(a, opsA), t, opsB) && InOrder(b, opsB)
    ensures Run(a, opsA).recs == Run(b, opsB).recs <==> NoTies(a, b)
  {
    var a', b' := Run(a, opsA).recs, Run(b, opsB).recs;
    hide Run, Repairs, InOrder, Fresh, NoTies, TieAt;
    forall k ensures At(a', k) == At(b', k) <==> !TieAt(a, b, k) {
      TwoWayAt(f, a, b, s, opsA, t, opsB, k);
    }
    EqualIffNoTies(a', b', a, b);
  }

  lemma EqualIffNoTies(x: map<Key, Rec>, y: map<Key, Rec>, a: Replica, b: Replica)
    requires forall k :: At(x, k) == At(y, k) <==> !TieAt(a, b, k)
    ensures x == y <==> NoTies(a, b)
  {
    if NoTies(a, b) {
      forall k ensures At(x, k) == At(y, k) {
        assert !TieAt(a, b, k);
      }
      SameMap(x, y);
    } else {
      var k :| TieAt(a, b, k);
      assert At(x, k) != At(y, k);
    }
  }

  lemma TwoWayAt(f: nat, a: Replica, b: Replica, s: nat, opsA: seq<Op>, t: nat, opsB: seq<Op>, k: Key)
    requires Fresh(f, a, b)
    requires Repairs(f, a, b, s, opsA) && InOrder(a, opsA)
    requires Repairs(f, b, Run(a, opsA), t, opsB) && InOrder(b, opsB)
    ensures At(Run(a, opsA).recs, k) == At(Run(b, opsB).recs, k) <==> !TieAt(a, b, k)
  {
    var a', b' := Run(a, opsA), Run(b, opsB);
    RepairJoins(f, a, b, s, opsA, k);
    RepairedAt(f, b, a', t, opsB, k);
    hide Run, Repairs, InOrder;
    TwoWayRecords(f, a, b, a', b', k);
  }

  lemma TwoWayRecords(f: nat, a: Replica, b: Replica, a': Replica, b': Replica, k: Key)
    requires Fresh(f, a, b)
    requires At(a'.recs, k) == if TieAt(a, b, k) then At(a.recs, k) else JoinOpt(At(a.recs, k), At(b.recs, k))
    requires At(b'.recs, k) == if k in Diff(f, b, a') then At(a'.recs, k) else At(b.recs, k)
    ensures At(a'.recs, k) == At(b'.recs, k) <==> !TieAt(a, b, k)
  {
    hide Before;
  }

  /* The repair task of the poller. */

  /** The batches of a repair, one after the other. The poller sends the removals in one batch and the
  fetched documents in others, from two tasks, and each batch is applied in time order. */
  function Flat(batches: seq<seq<Op>>): seq<Op> {
    if batches == [] then [] else Flat(batches[..|batches| - 1]) + batches[|batches| - 1]
  }

  ghost predicate Sorted(ops: seq<Op>) {
    forall i, j :: 0 <= i < j < |ops| ==> ops[i].rec.ts.AtMost(ops[j].rec.ts)
  }

  /** Operations of one node come in time order. */
  ghost predicate NodesInOrder(ops: seq<Op>) {
    forall i, j :: 0 <= i < j < |ops| && ops[i].rec.ts.node == ops[j].rec.ts.node ==>
      ops[i].rec.ts.AtMost(ops[j].rec.ts)
  }

  /** Nothing in the first is newer than something of the same node in the second. */
  ghost predicate NoneNewer(first: seq<Op>, second: seq<Op>) {
    forall x, y :: x in first && y in second && x.rec.ts.node == y.rec.ts.node ==> x.rec.ts.AtMost(y.rec.ts)
  }

  lemma ConcatInOrderIff(a: seq<Op>, b: seq<Op>)
    ensures NodesInOrder(a + b) <==> NodesInOrder(a) && NodesInOrder(b) && NoneNewer(a, b)
  {
    var ab := a + b;
    if NodesInOrder(ab) {
      forall i, j | 0 <= i < j < |b| && b[i].rec.ts.node == b[j].rec.ts.node ensures b[i].rec.ts.AtMost(b[j].rec.ts) {
        assert ab[|a| + i] == b[i] && ab[|a| + j] == b[j];
      }
      forall i, j | 0 <= i < j < |a| && a[i].rec.ts.node == a[j].rec.ts.node ensures a[i].rec.ts.AtMost(a[j].rec.ts) {
        assert ab[i] == a[i] && ab[j] == a[j];
      }
      forall x, y | x in a && y in b && x.rec.ts.node == y.rec.ts.node ensures x.rec.ts.AtMost(y.rec.ts) {
        var i :| 0 <= i < |a| && a[i] == x;
        var j :| 0 <= j < |b| && b[j] == y;
        assert ab[i] == x && ab[|a| + j] == y;
      }
    }
  }

  lemma {:induction false} InFlat(batches: seq<seq<Op>>, x: Op)
    ensures x in Flat(batches) <==> exists a :: 0 <= a < |batches| && x in batches[a]
  {
    if batches != [] {
      var last := |batches| - 1;
      InFlat(batches[..last], x);
      assert forall a :: 0 <= a < last ==> batches[..last][a] == batches[a];
    }
  }

  ghost predicate BatchesInOrder(batches: seq<seq<Op>>) {
    forall a, b :: 0 <= a < b < |batches| ==> NoneNewer(batches[a], batches[b])
  }

  lemma {:induction false} FlatInOrderIff(batches: seq<seq<Op>>)
    requires forall a :: 0 <= a < |batches| ==> Sorted(batches[a])
    ensures NodesInOrder(Flat(batches)) <==> BatchesInOrder(batches)
  {
    if batches != [] {
      var last := |batches| - 1;
      var before := batches[..last];
      assert NodesInOrder(batches[last]) by { assert Sorted(batches[last]); }
      FlatInOrderIff(before);
      ConcatInOrderIff(Flat(before), batches[last]);
      FlatNoneNewerIff(before, batches[last]);
      hide NodesInOrder, NoneNewer, Sorted, Flat;
      assert forall a :: 0 <= a < last ==> before[a] == batches[a];
      assert BatchesInOrder(batches) <==>
          BatchesInOrder(before) && forall a :: 0 <= a < last ==> NoneNewer(before[a], batches[last]);
      assert NodesInOrder(Flat(batches)) <==> NodesInOrder(Flat(before)) && NoneNewer(Flat(before), batches[last]) by { UnfoldFlat(batches); }
    }
  }

  lemma UnfoldFlat(batches: seq<seq<Op>>)
    requires batches != []
    ensures Flat(batches) == Flat(batches[..|batches| - 1]) + batches[|batches| - 1]
  {
  }

  lemma FlatNoneNewerIff(batches: seq<seq<Op>>, ops: seq<Op>)
    ensures NoneNewer(Flat(batches), ops) <==> forall a :: 0 <= a < |batches| ==> NoneNewer(batches[a], ops)
  {
    forall x: Op ensures x in Flat(batches) <==> exists a :: 0 <= a < |batches| && x in batches[a] {
      InFlat(batches, x);
    }
    hide Flat;
  }

  /** Whatever the order in which the batches of a repair arrive, everything `diff` reported gets in
  exactly when the source admits all of it and no batch brings something newer than a later batch
  does for the same node. */
  lemma BatchedRepairIff(f: nat, r: Replica, other: Replica, s: nat, batches: seq<seq<Op>>)
    requires |r.seen| > 0 && Repairs(f, r, other, s, Flat(batches))
    requires forall a :: 0 <= a < |batches| ==> Sorted(batches[a])
    ensures (forall k :: k in Diff(f, r, other) ==> Covers(Run(r, Flat(batches)).recs, k, other.recs[k]))
            <==> (forall k :: k in Diff(f, r, other) ==> Admits(r, Op(s, k, other.recs[k]))) && BatchesInOrder(batches)
  {
    var ops := Flat(batches);
    RepairCompleteIff(f, r, other, s, ops);
    FlatInOrderIff(batches);
    AdmitsAllIff(f, r, other, s, ops);
    assert InOrder(r, ops) <==> (forall i :: 0 <= i < |ops| ==> Admits(r, ops[i])) && NodesInOrder(ops);
    hide *;
  }

  lemma AdmitsAllIff(f: nat, r: Replica, other: Replica, s: nat, ops: seq<Op>)
    requires |r.seen| > 0 && Repairs(f, r, other, s, ops)
    ensures (forall i :: 0 <= i < |ops| ==> Admits(r, ops[i]))
            <==> (forall k :: k in Diff(f, r, other) ==> Admits(r, Op(s, k, other.recs[k])))
  {
    assert forall i :: 0 <= i < |ops| ==> ops[i] == Op(s, ops[i].key, other.recs[ops[i].key]);
    hide Admits, Diff;
    if forall i :: 0 <= i < |ops| ==> Admits(r, ops[i]) {
      forall k | k in Diff(f, r, other) ensures Admits(r, Op(s, k, other.recs[k])) {
        var i :| 0 <= i < |ops| && ops[i].key == k;
        assert Admits(r, ops[i]);
      }
    }
  }

  /* The actor's filter. */

  /** The operations of a batch that the actor lets through: it asks `will_apply` before the batch. */
  function Filtered(f: nat, r: Replica, ops: seq<Op>): seq<Op>
    requires |r.seen| > 0
  {
    if ops == [] then []
    else
      var last := ops[|ops| - 1];
      Filtered(f, r, ops[..|ops| - 1]) + if WillApply(f, r, last.key, last.rec.ts) then [last] else []
  }

  /** Whatever is behind the safe stamp is behind every source. */
  lemma BeforeIsRefused(f: nat, r: Replica, op: Op)
    requires |r.seen| > 0 && Before(f, r.seen, op.rec.ts)
    ensures !Admits(r, op)
  {
    if op.source < |r.seen| {
      SafeBelowEverySource(f, r.seen, op.rec.ts.node, op.source);
    }
  }

  lemma RefusedStaysRefused(r: Replica, ops: seq<Op>, op: Op)
    requires !Admits(r, op)
    ensures !Admits(Run(r, ops), op)
  {
    if op.source < |r.seen| {
      SeenGrows(r, ops, 0, op.source, op.rec.ts.node);
      assert ops[..0] == [];
    }
  }

  /** For operations that are news, the filter keeps back only what the source refuses anyway. */
  lemma {:induction false} FilterChangesNothing(f: nat, r: Replica, ops: seq<Op>)
    requires |r.seen| > 0
    requires forall i :: 0 <= i < |ops| && ops[i].key in r.recs ==> r.recs[ops[i].key].ts.Less(ops[i].rec.ts)
    ensures Run(r, Filtered(f, r, ops)) == Run(r, ops)
  {
    if ops != [] {
      var before, last := ops[..|ops| - 1], ops[|ops| - 1];
      var kept := Filtered(f, r, before);
      FilterChangesNothing(f, r, before);
      RunOneMore(r, before, last);
      RunOneMore(r, kept, last);
      assert before + [last] == ops;
      hide Run, Before;
      if !WillApply(f, r, last.key, last.rec.ts) {
        BeforeIsRefused(f, r, last);
        RefusedStaysRefused(r, before, last);
        assert kept + [] == kept;
      }
    }
  }

  lemma RunOneMore(r: Replica, ops: seq<Op>, op: Op)
    ensures Run(r, ops + [op]) == Apply(Run(r, ops), op)
  {
    assert (ops + [op])[..|ops|] == ops;
  }

  lemma {:induction false} FlatPrefix(batches: seq<seq<Op>>, m: nat)
    requires m <= |batches|
    ensures Flat(batches[..m]) <= Flat(batches)
  {
    if m < |batches| {
      var last := |batches| - 1;
      assert batches[..last][..m] == batches[..m];
      FlatPrefix(batches[..last], m);
    } else {
      assert batches[..m] == batches;
    }
  }

  /** The batches of a repair are news when they arrive, so the filter changes nothing about them. */
  lemma RepairIsNotFiltered(f: nat, r: Replica, other: Replica, s: nat, batches: seq<seq<Op>>, b: nat)
    requires |r.seen| > 0 && Repairs(f, r, other, s, Flat(batches)) && b < |batches|
    ensures var r' := Run(r, Flat(batches[..b]));
            Run(r', Filtered(f, r', batches[b])) == Run(r', batches[b])
  {
    var first, all, batch := Flat(batches[..b]), Flat(batches), batches[b];
    FlatPrefix(batches, b + 1);
    assert Flat(batches[..b + 1]) == first + batch by {
      UnfoldFlat(batches[..b + 1]);
      assert batches[..b + 1][..b] == batches[..b];
    }
    hide Run, Flat, Filtered, Repairs;
    assert first + batch <= all;
    NewsOnTime(f, r, other, s, all, first, batch);
    FilterChangesNothing(f, Run(r, first), batch);
  }

  lemma NewsOnTime(f: nat, r: Replica, other: Replica, s: nat, all: seq<Op>, first: seq<Op>, batch: seq<Op>)
    requires |r.seen| > 0 && Repairs(f, r, other, s, all) && first + batch <= all
    ensures var r' := Run(r, first);
            forall i :: 0 <= i < |batch| && batch[i].key in r'.recs ==> r'.recs[batch[i].key].ts.Less(batch[i].rec.ts)
  {
    var r' := Run(r, first);
    hide Run, Repairs;
    forall i | 0 <= i < |batch| && batch[i].key in r'.recs ensures r'.recs[batch[i].key].ts.Less(batch[i].rec.ts) {
      assert all[|first| + i] == (first + batch)[|first| + i] == batch[i];
      NewsStaysNews(f, r, other, s, all, first, |first| + i);
    }
  }

  lemma NewsStaysNews(f: nat, r: Replica, other: Replica, s: nat, all: seq<Op>, first: seq<Op>, i: nat)
    requires |r.seen| > 0 && Repairs(f, r, other, s, all) && first <= all && |first| <= i < |all|
    ensures all[i].key in Run(r, first).recs ==> Run(r, first).recs[all[i].key].ts.Less(all[i].rec.ts)
  {
    var k := all[i].key;
    forall j | 0 <= j < |first| ensures first[j].key != k {
      assert first[j] == all[j];
    }
    UntouchedKey(r, first, k);
    assert k in Diff(f, r, other) && all[i].rec == other.recs[k];
    hide Run, Repairs, Before;
  }
}
