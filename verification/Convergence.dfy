/** Runs of inserts and deletes on one replica, and why replicas converge. */
module Convergence {
  import opened Hlc
  import opened Records
  import opened Replicas

  function Run(r: Replica, ops: seq<Op>): (after: Replica)
    ensures |after.seen| == |r.seen|
  {
    if ops == [] then r else Apply(Run(r, ops[..|ops| - 1]), ops[|ops| - 1])
  }

  /** The operation at `i` was not behind its source when it was delivered. */
  predicate AdmittedAt(r: Replica, ops: seq<Op>, i: nat)
    requires i < |ops|
  {
    Admits(Run(r, ops[..i]), ops[i])
  }

  /** What was written by the admitted operations of a run. */
  ghost function Writes(r: Replica, ops: seq<Op>): set<Row> {
    if ops == [] then {}
    else
      var last := |ops| - 1;
      Writes(r, ops[..last]) + if AdmittedAt(r, ops, last) then {Row(ops[last].key, ops[last].rec)} else {}
  }

  /** `recs` holds, for every key written, the greatest record written to it, and nothing else. */
  ghost predicate HoldsGreatest(recs: map<Key, Rec>, writes: set<Row>) {
    (forall k :: k in recs ==> Row(k, recs[k]) in writes)
    && (forall w :: w in writes ==> Covers(recs, w.key, w.rec))
  }

  lemma PutHoldsGreatest(recs: map<Key, Rec>, writes: set<Row>, k: Key, rec: Rec)
    requires HoldsGreatest(recs, writes)
    ensures HoldsGreatest(Put(recs, k, rec), writes + {Row(k, rec)})
  {
    var after := Put(recs, k, rec);
    forall w | w in writes + {Row(k, rec)} ensures Covers(after, w.key, w.rec) {
      assert w in writes ==> Covers(recs, w.key, w.rec);
    }
  }

  /** Over every run from the empty set, each key holds exactly the greatest admitted operation, as
  an entry if it was an insert and as a tombstone if it was a delete. */
  lemma {:induction false} RunHoldsGreatest(n: nat, ops: seq<Op>)
    ensures HoldsGreatest(Run(Empty(n), ops).recs, Writes(Empty(n), ops))
  {
    if ops != [] {
      var last := |ops| - 1;
      var before := Run(Empty(n), ops[..last]);
      RunHoldsGreatest(n, ops[..last]);
      hide HoldsGreatest, Put, Admits;
      PutHoldsGreatest(before.recs, Writes(Empty(n), ops[..last]), ops[last].key, ops[last].rec);
    }
  }

  lemma GreatestIsUnique(a: map<Key, Rec>, b: map<Key, Rec>, writes: set<Row>)
    requires HoldsGreatest(a, writes) && HoldsGreatest(b, writes)
    ensures a == b
  {
    forall k | k in a ensures k in b && a[k] == b[k] {
      assert Row(k, a[k]) in writes;
      assert Row(k, b[k]) in writes;
    }
    forall k | k in b ensures k in a {
      assert Row(k, b[k]) in writes;
    }
  }

  /** Strong eventual consistency: replicas that admitted the same writes, in any order, on any
  number of sources, hold the same entries and the same tombstones. */
  lemma ReplicasConverge(n: nat, a: seq<Op>, m: nat, b: seq<Op>)
    requires Writes(Empty(n), a) == Writes(Empty(m), b)
    ensures Run(Empty(n), a).recs == Run(Empty(m), b).recs
  {
    RunHoldsGreatest(n, a);
    RunHoldsGreatest(m, b);
    GreatestIsUnique(Run(Empty(n), a).recs, Run(Empty(m), b).recs, Writes(Empty(n), a));
  }

  /* Which operations are admitted. */

  /** The order the sources promise: each source delivers the operations of each node in time order,
  starting no earlier than what the replica has already observed there. */
  ghost predicate InOrder(r: Replica, ops: seq<Op>) {
    (forall i :: 0 <= i < |ops| ==> Admits(r, ops[i]))
    && (forall i, j :: 0 <= i < j < |ops| && ops[i].source == ops[j].source && ops[i].rec.ts.node == ops[j].rec.ts.node ==>
          ops[i].rec.ts.AtMost(ops[j].rec.ts))
  }

  lemma SeenAfter(r: Replica, op: Op, s: nat, n: NodeId)
    requires s < |r.seen|
    ensures |Apply(r, op).seen| == |r.seen|
    ensures Seen(Apply(r, op).seen[s], n)
            == if Admits(r, op) && op.source == s && op.rec.ts.node == n then op.rec.ts else Seen(r.seen[s], n)
    ensures Seen(r.seen[s], n).AtMost(Seen(Apply(r, op).seen[s], n))
  {
  }

  /** What a source has observed from a node never goes back, and covers every operation admitted. */
  lemma {:induction false} SeenGrows(r: Replica, ops: seq<Op>, i: nat, s: nat, n: NodeId)
    requires i <= |ops| && s < |r.seen|
    ensures Seen(Run(r, ops[..i]).seen[s], n).AtMost(Seen(Run(r, ops).seen[s], n))
  {
    if ops != [] {
      var last := |ops| - 1;
      if i < |ops| {
        SeenGrows(r, ops[..last], i, s, n);
        assert ops[..last][..i] == ops[..i];
        SeenAfter(Run(r, ops[..last]), ops[last], s, n);
      } else {
        assert ops[..i] == ops;
      }
    }
  }

  /** What a source has observed from a node was there at the start or came with an operation. */
  lemma {:induction false} SeenFrom(r: Replica, ops: seq<Op>, s: nat, n: NodeId)
    requires s < |r.seen|
    ensures var now := Seen(Run(r, ops).seen[s], n);
            now == Seen(r.seen[s], n)
            || exists i :: 0 <= i < |ops| && ops[i].source == s && ops[i].rec.ts.node == n && ops[i].rec.ts == now
  {
    if ops != [] {
      var last := |ops| - 1;
      SeenFrom(r, ops[..last], s, n);
      SeenAfter(Run(r, ops[..last]), ops[last], s, n);
    }
  }

  /** Every operation of a run is admitted exactly when the run keeps the sources' promise. */
  lemma AllAdmittedIffInOrder(r: Replica, ops: seq<Op>)
    ensures (forall i :: 0 <= i < |ops| ==> AdmittedAt(r, ops, i)) <==> InOrder(r, ops)
  {
    if forall i :: 0 <= i < |ops| ==> AdmittedAt(r, ops, i) {
      AdmittedImpliesInOrder(r, ops);
    }
    if InOrder(r, ops) {
      InOrderImpliesAdmitted(r, ops);
    }
  }

  lemma AdmittedImpliesInOrder(r: Replica, ops: seq<Op>)
    requires forall i :: 0 <= i < |ops| ==> AdmittedAt(r, ops, i)
    ensures InOrder(r, ops)
  {
    forall j | 0 <= j < |ops| ensures Admits(r, ops[j]) {
      assert AdmittedAt(r, ops, j);
      SeenGrows(r, ops[..j], 0, ops[j].source, ops[j].rec.ts.node);
    }
    forall i, j | 0 <= i < j < |ops| && ops[i].source == ops[j].source && ops[i].rec.ts.node == ops[j].rec.ts.node
      ensures ops[i].rec.ts.AtMost(ops[j].rec.ts)
    {
      var s, n := ops[i].source, ops[i].rec.ts.node;
      assert AdmittedAt(r, ops, i) && AdmittedAt(r, ops, j);
      assert ops[..j][..i + 1] == ops[..i + 1] && ops[..i + 1][..i] == ops[..i];
      SeenAfter(Run(r, ops[..i]), ops[i], s, n);
      SeenGrows(r, ops[..j], i + 1, s, n);
    }
  }

  lemma InOrderImpliesAdmitted(r: Replica, ops: seq<Op>)
    requires InOrder(r, ops)
    ensures forall i :: 0 <= i < |ops| ==> AdmittedAt(r, ops, i)
  {
    forall j | 0 <= j < |ops| ensures AdmittedAt(r, ops, j) {
      assert Admits(r, ops[j]);
      SeenFrom(r, ops[..j], ops[j].source, ops[j].rec.ts.node);
    }
  }

  /** So replicas that were delivered the same writes, each with its sources in order, agree. */
  lemma InOrderReplicasConverge(n: nat, a: seq<Op>, m: nat, b: seq<Op>)
    requires InOrder(Empty(n), a) && InOrder(Empty(m), b)
    requires (set op | op in a :: Row(op.key, op.rec)) == (set op | op in b :: Row(op.key, op.rec))
    ensures Run(Empty(n), a).recs == Run(Empty(m), b).recs
  {
    InOrderWritesAll(n, a);
    InOrderWritesAll(m, b);
    ReplicasConverge(n, a, m, b);
  }

  lemma InOrderWritesAll(n: nat, ops: seq<Op>)
    requires InOrder(Empty(n), ops)
    ensures Writes(Empty(n), ops) == set op | op in ops :: Row(op.key, op.rec)
  {
    InOrderImpliesAdmitted(Empty(n), ops);
    AdmittedWritesAll(Empty(n), ops);
  }

  lemma {:induction false} AdmittedWritesAll(r: Replica, ops: seq<Op>)
    requires forall i :: 0 <= i < |ops| ==> AdmittedAt(r, ops, i)
    ensures Writes(r, ops) == set op | op in ops :: Row(op.key, op.rec)
  {
    if ops != [] {
      var last := |ops| - 1;
      var before := ops[..last];
      forall i | 0 <= i < last ensures AdmittedAt(r, before, i) {
        assert AdmittedAt(r, ops, i) && before[..i] == ops[..i];
      }
      AdmittedWritesAll(r, before);
      assert Writes(r, ops) == Writes(r, before) + {Row(ops[last].key, ops[last].rec)};
      hide AdmittedAt, Writes;
      assert forall op :: op in ops <==> op in before || op == ops[last];
    }
  }

  /* Runs that write a key at most once. */

  lemma {:induction false} UntouchedKey(r: Replica, ops: seq<Op>, k: Key)
    requires forall i :: 0 <= i < |ops| ==> ops[i].key != k
    ensures At(Run(r, ops).recs, k) == At(r.recs, k)
  {
    if ops != [] {
      UntouchedKey(r, ops[..|ops| - 1], k);
    }
  }

  /** A key written once ends with its record joined in if the write was admitted, untouched if not. */
  lemma {:induction false} KeyWrittenOnce(r: Replica, ops: seq<Op>, i: nat)
    requires i < |ops| && forall j :: 0 <= j < |ops| && j != i ==> ops[j].key != ops[i].key
    ensures var k := ops[i].key;
            At(Run(r, ops).recs, k)
            == if AdmittedAt(r, ops, i) then JoinOpt(At(r.recs, k), Some(ops[i].rec)) else At(r.recs, k)
  {
    var last := |ops| - 1;
    var before := ops[..last];
    if i == last {
      UntouchedKey(r, before, ops[i].key);
    } else {
      KeyWrittenOnce(r, before, i);
      assert before[..i] == ops[..i];
      assert ops[last].key != ops[i].key;
    }
  }

  /* Runs that may write a key many times. */

  /** A key ends as it began or with one of the records written to it. */
  lemma {:induction false} RunPicks(r: Replica, ops: seq<Op>, k: Key)
    ensures At(Run(r, ops).recs, k) == At(r.recs, k)
            || exists i :: 0 <= i < |ops| && ops[i].key == k && At(Run(r, ops).recs, k) == Some(ops[i].rec)
  {
    if ops != [] {
      var last := |ops| - 1;
      RunPicks(r, ops[..last], k);
      if At(Run(r, ops).recs, k) == At(Run(r, ops[..last]).recs, k) {
        assert forall i :: 0 <= i < last ==> ops[..last][i] == ops[i];
      }
    }
  }

  lemma ApplyCovers(r: Replica, op: Op, k: Key, rec: Rec)
    requires Covers(r.recs, k, rec)
    ensures Covers(Apply(r, op).recs, k, rec)
  {
  }

  /** Every record admitted is covered at the end. */
  lemma {:induction false} RunCovers(r: Replica, ops: seq<Op>, i: nat)
    requires i < |ops| && AdmittedAt(r, ops, i)
    ensures Covers(Run(r, ops).recs, ops[i].key, ops[i].rec)
  {
    var last := |ops| - 1;
    if i < last {
      var before := ops[..last];
      assert before[..i] == ops[..i];
      RunCovers(r, before, i);
      ApplyCovers(Run(r, before), ops[last], ops[i].key, ops[i].rec);
    }
  }

  /** A key ends as it began or with one of the records admitted to it. */
  lemma {:induction false} RunPicksAdmitted(r: Replica, ops: seq<Op>, k: Key)
    ensures At(Run(r, ops).recs, k) == At(r.recs, k)
            || exists i :: 0 <= i < |ops| && ops[i].key == k && AdmittedAt(r, ops, i)
                 && At(Run(r, ops).recs, k) == Some(ops[i].rec)
  {
    if ops != [] {
      var last := |ops| - 1;
      var before := ops[..last];
      RunPicksAdmitted(r, before, k);
      if At(Run(r, ops).recs, k) != At(Run(r, before).recs, k) {
        assert AdmittedAt(r, ops, last) && ops[last].key == k && At(Run(r, ops).recs, k) == Some(ops[last].rec);
      } else if At(Run(r, ops).recs, k) != At(r.recs, k) {
        var i :| 0 <= i < last && before[i].key == k && AdmittedAt(r, before, i) && At(Run(r, before).recs, k) == Some(before[i].rec);
        assert before[..i] == ops[..i];
        assert AdmittedAt(r, ops, i);
      }
    }
  }

  /** What was admitted is at or behind what its source has observed. */
  lemma AdmittedIsSeen(r: Replica, ops: seq<Op>, i: nat)
    requires i < |ops| && AdmittedAt(r, ops, i)
    ensures ops[i].source < |r.seen| && ops[i].rec.ts.AtMost(Seen(Run(r, ops).seen[ops[i].source], ops[i].rec.ts.node))
  {
    var s, n := ops[i].source, ops[i].rec.ts.node;
    assert ops[..i + 1][..i] == ops[..i];
    SeenAfter(Run(r, ops[..i]), ops[i], s, n);
    SeenGrows(r, ops, i + 1, s, n);
  }

  /** In a run sorted by time, an operation is admitted exactly when it would be at the start. */
  lemma SortedAdmittedIff(r: Replica, ops: seq<Op>, i: nat)
    requires i < |ops| && forall a, b :: 0 <= a < b < |ops| ==> ops[a].rec.ts.AtMost(ops[b].rec.ts)
    ensures AdmittedAt(r, ops, i) <==> Admits(r, ops[i])
  {
    if ops[i].source < |r.seen| {
      var s, n := ops[i].source, ops[i].rec.ts.node;
      SeenFrom(r, ops[..i], s, n);
      SeenGrows(r, ops[..i], 0, s, n);
      assert ops[..i][..0] == [];
    }
  }

  /* What a run means, operation by operation. */

  /** The source exists and has not delivered something newer of the same node before. */
  predicate InTurn(n: nat, ops: seq<Op>, i: nat)
    requires i < |ops|
  {
    ops[i].source < n
    && forall j :: 0 <= j < i && ops[j].source == ops[i].source && ops[j].rec.ts.node == ops[i].rec.ts.node ==>
         ops[j].rec.ts.AtMost(ops[i].rec.ts)
  }

  /** What a source has observed of a node after a run: the newest stamp it delivered, if any. */
  lemma {:induction false} ObservedIsNewest(n: nat, ops: seq<Op>, s: nat, node: NodeId)
    requires s < n
    ensures var now := Seen(Run(Empty(n), ops).seen[s], node);
            (now == Zero(node) || exists i :: 0 <= i < |ops| && ops[i].source == s && ops[i].rec.ts.node == node && ops[i].rec.ts == now)
            && forall i :: 0 <= i < |ops| && ops[i].source == s && ops[i].rec.ts.node == node ==> ops[i].rec.ts.AtMost(now)
  {
    SeenFrom(Empty(n), ops, s, node);
    if ops != [] {
      var last := |ops| - 1;
      ObservedIsNewest(n, ops[..last], s, node);
      SeenAfter(Run(Empty(n), ops[..last]), ops[last], s, node);
      hide Apply;
      forall i | 0 <= i < |ops| && ops[i].source == s && ops[i].rec.ts.node == node
        ensures ops[i].rec.ts.AtMost(Seen(Run(Empty(n), ops).seen[s], node))
      {
        if i < last {
          assert ops[..last][i] == ops[i];
        }
      }
    }
  }

  /** An operation is admitted exactly in its turn. */
  lemma AdmittedIffInTurn(n: nat, ops: seq<Op>, i: nat)
    requires i < |ops|
    ensures AdmittedAt(Empty(n), ops, i) <==> InTurn(n, ops, i)
  {
    if ops[i].source < n {
      var s, node := ops[i].source, ops[i].rec.ts.node;
      ObservedIsNewest(n, ops[..i], s, node);
      assert forall j :: 0 <= j < i ==> ops[..i][j] == ops[j];
      hide Run;
    }
  }

  /** Of two records the one that wins: the newer, or the insert at one stamp. */
  predicate Wins(a: Rec, b: Rec) { b.ts.AtMost(a.ts) && (a.ts == b.ts && b.Live? ==> a.Live?) }

  /** What a key holds after a run: of the operations delivered in turn the one that wins over all of
  them, and nothing if there is none. */
  lemma RunMeans(n: nat, ops: seq<Op>, k: Key)
    ensures var held := At(Run(Empty(n), ops).recs, k);
            (held.None? <==> forall i :: 0 <= i < |ops| && ops[i].key == k ==> !InTurn(n, ops, i))
            && (held.Some? ==> exists i :: 0 <= i < |ops| && ops[i].key == k && InTurn(n, ops, i) && ops[i].rec == held.value)
            && (held.Some? ==> forall i :: 0 <= i < |ops| && ops[i].key == k && InTurn(n, ops, i) ==> Wins(held.value, ops[i].rec))
  {
    var r := Empty(n);
    forall i | 0 <= i < |ops| ensures AdmittedAt(r, ops, i) <==> InTurn(n, ops, i) {
      AdmittedIffInTurn(n, ops, i);
    }
    RunPicksAdmitted(r, ops, k);
    forall i | 0 <= i < |ops| && InTurn(n, ops, i) ensures Covers(Run(r, ops).recs, ops[i].key, ops[i].rec) {
      RunCovers(r, ops, i);
    }
    hide Run, AdmittedAt, InTurn;
  }

  /** What `insert_with_source` and `delete_with_source` return: whether the operation is in turn and no
  earlier one in turn on its key wins over it. */
  lemma ReturnedMeans(n: nat, ops: seq<Op>, op: Op)
    ensures Accepted(Run(Empty(n), ops), op)
            <==> InTurn(n, ops + [op], |ops|)
                 && forall i :: 0 <= i < |ops| && ops[i].key == op.key && InTurn(n, ops, i) ==> !Wins(ops[i].rec, op.rec)
  {
    var all := ops + [op];
    assert all[..|ops|] == ops;
    AdmittedIffInTurn(n, all, |ops|);
    RunMeans(n, ops, op.key);
    hide InTurn, Run;
  }
}
