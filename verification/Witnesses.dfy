/** Reachable inputs at which the properties that do not always hold fail. Each is a short run from
the empty set; the exact conditions are stated next to the properties. */
module Witnesses {
  import opened Hlc
  import opened Records
  import opened Replicas
  import opened Convergence
  import opened Merging
  import opened Repairing
  import Purging
  import opened Keyspaces

  /* Runs of a set with one source. */

  /** Time `t` on node 0, and on node 1. */
  function T(t: nat): Stamp { Stamp(t, 0, 0) }

  function U(t: nat): Stamp { Stamp(t, 0, 1) }

  function Insert(k: Key, ts: Stamp): Op { Op(0, k, Live(ts)) }

  function Delete(k: Key, ts: Stamp): Op { Op(0, k, Dead(ts)) }

  function Solo(recs: map<Key, Rec>, stamps: Stamps): Replica { Replica(recs, [stamps]) }

  lemma SoloRun(ops: seq<Op>)
    ensures |ops| == 1 ==> Run(Empty(1), ops) == Apply(Solo(map[], map[]), ops[0])
    ensures |ops| == 2 ==> Run(Empty(1), ops) == Apply(Apply(Solo(map[], map[]), ops[0]), ops[1])
    ensures |ops| == 3 ==> Run(Empty(1), ops) == Apply(Apply(Apply(Solo(map[], map[]), ops[0]), ops[1]), ops[2])
  {
    assert Empty(1) == Solo(map[], map[]);
    hide Apply;
    if |ops| == 1 {
      assert ops[..0] == [];
    } else if |ops| == 2 {
      assert ops[..1][..0] == [] && ops[..1] == [ops[0]];
      assert Run(Empty(1), ops[..1]) == Apply(Empty(1), ops[0]);
    } else if |ops| == 3 {
      assert ops[..2][..1] == [ops[0]] && ops[..2] == [ops[0], ops[1]] && ops[..2][..1][..0] == [];
      assert Run(Empty(1), [ops[0]]) == Apply(Empty(1), ops[0]);
      assert Run(Empty(1), ops[..2]) == Apply(Run(Empty(1), [ops[0]]), ops[1]);
    }
  }

  lemma SoloApply(recs: map<Key, Rec>, stamps: Stamps, op: Op, recs': map<Key, Rec>, stamps': Stamps)
    requires op.source == 0 && Seen(stamps, op.rec.ts.node).AtMost(op.rec.ts)
    requires recs' == Put(recs, op.key, op.rec) && stamps' == stamps[op.rec.ts.node := op.rec.ts]
    ensures Apply(Solo(recs, stamps), op) == Solo(recs', stamps')
  {
  }

  /** With one source the safe stamp is the source's own, shifted. */
  lemma SoloBefore(f: nat, stamps: Stamps, ts: Stamp)
    ensures Replicas.Before(f, [stamps], ts) <==> ts.Less(Shift(f, Seen(stamps, ts.node)))
  {
  }

  /* The sets the witnesses use. */

  lemma InsertOne()
    ensures Run(Empty(1), [Insert(1, T(1))]) == Solo(map[1 := Live(T(1))], map[0 := T(1)])
  {
    SoloRun([Insert(1, T(1))]);
  }

  lemma DeleteOne()
    ensures Run(Empty(1), [Delete(1, T(1))]) == Solo(map[1 := Dead(T(1))], map[0 := T(1)])
  {
    SoloRun([Delete(1, T(1))]);
  }

  lemma InsertTwo()
    ensures Run(Empty(1), [Insert(2, T(3))]) == Solo(map[2 := Live(T(3))], map[0 := T(3)])
  {
    SoloRun([Insert(2, T(3))]);
  }

  /* A call that returns false. */

  /** An insert that loses to a newer entry of another node returns false and is recorded as seen. */
  lemma FalseCallMovesStamp()
    ensures var r, op := Run(Empty(1), [Insert(1, U(5))]), Insert(1, T(2));
            !Accepted(r, op) && Apply(r, op) != r
  {
    var r, op := Run(Empty(1), [Insert(1, U(5))]), Insert(1, T(2));
    SoloRun([Insert(1, U(5))]);
    assert r == Solo(map[1 := Live(U(5))], map[1 := U(5)]);
    FalseCallChangesNothingIff(r, op);
  }

  /* Merging. */

  /** The other set has seen past the entry and does not hold it: the merge drops it. */
  lemma MergeDropsEntry()
    ensures var r, other := Run(Empty(1), [Insert(1, T(1))]), Run(Empty(1), [Insert(2, T(3))]);
            LosesOwn(0, r, other, 1) && 1 !in Merge(0, r, other).recs
  {
    InsertOne();
    InsertTwo();
    var r, other := Run(Empty(1), [Insert(1, T(1))]), Run(Empty(1), [Insert(2, T(3))]);
    SoloBefore(0, other.seen[0], T(1));
    MergeAt(0, r, other, 1);
  }

  /** This set has seen past the delete without it: the merge skips it. */
  lemma MergeSkipsDelete()
    ensures var r, other := Run(Empty(1), [Insert(2, T(3))]), Run(Empty(1), [Delete(1, T(1))]);
            LosesIncoming(0, r, other, 1) && 1 !in Merge(0, r, other).recs
  {
    DeleteOne();
    InsertTwo();
    var r, other := Run(Empty(1), [Insert(2, T(3))]), Run(Empty(1), [Delete(1, T(1))]);
    SoloBefore(0, r.seen[0], T(1));
    MergeAt(0, r, other, 1);
  }

  /** `merge` takes an insert behind the safe stamp, `diff` does not report it. */
  lemma DiffMissesOldInsert()
    ensures var r, other := Run(Empty(1), [Insert(2, T(3))]), Run(Empty(1), [Insert(1, T(1))]);
            1 !in Diff(0, r, other) && Replaces(0, r, other, 1)
  {
    InsertOne();
    InsertTwo();
    var r, other := Run(Empty(1), [Insert(2, T(3))]), Run(Empty(1), [Insert(1, T(1))]);
    SoloBefore(0, r.seen[0], T(1));
    MergeAt(0, r, other, 1);
  }

  /** `merge` takes an insert at the stamp of a tombstone, `diff` does not report it. */
  lemma DiffMissesTie()
    ensures var r, other := Run(Empty(1), [Delete(1, T(1))]), Run(Empty(1), [Insert(1, T(1))]);
            1 !in Diff(0, r, other) && Replaces(0, r, other, 1)
  {
    InsertOne();
    DeleteOne();
    var r, other := Run(Empty(1), [Delete(1, T(1))]), Run(Empty(1), [Insert(1, T(1))]);
    MergeAt(0, r, other, 1);
  }

  /** `diff` reports a newer delete behind the safe stamp, `merge` skips it. */
  lemma MergeSkipsReported()
    ensures var r, other := Run(Empty(1), [Insert(1, T(1)), Insert(2, T(3))]), Run(Empty(1), [Delete(1, T(2))]);
            1 in Diff(0, r, other) && !Replaces(0, r, other, 1)
  {
    var r, other := Run(Empty(1), [Insert(1, T(1)), Insert(2, T(3))]), Run(Empty(1), [Delete(1, T(2))]);
    SoloRun([Insert(1, T(1)), Insert(2, T(3))]);
    SoloRun([Delete(1, T(2))]);
    SoloApply(map[], map[], Insert(1, T(1)), map[1 := Live(T(1))], map[0 := T(1)]);
    SoloApply(map[1 := Live(T(1))], map[0 := T(1)], Insert(2, T(3)), map[1 := Live(T(1)), 2 := Live(T(3))], map[0 := T(3)]);
    assert other == Solo(map[1 := Dead(T(2))], map[0 := T(2)]);
    SoloBefore(0, r.seen[0], T(2));
    MergeAt(0, r, other, 1);
  }

  /** `merge` puts an older tombstone in place of an entry the other set has seen past. */
  lemma MergeTakesOlderDelete()
    ensures var r, other := Run(Empty(1), [Insert(1, T(2))]), Run(Empty(1), [Delete(1, U(1)), Insert(2, T(3))]);
            1 !in Diff(0, r, other) && Replaces(0, r, other, 1)
  {
    var r, other := Run(Empty(1), [Insert(1, T(2))]), Run(Empty(1), [Delete(1, U(1)), Insert(2, T(3))]);
    SoloRun([Insert(1, T(2))]);
    SoloRun([Delete(1, U(1)), Insert(2, T(3))]);
    assert r == Solo(map[1 := Live(T(2))], map[0 := T(2)]);
    assert other == Solo(map[1 := Dead(U(1)), 2 := Live(T(3))], map[1 := U(1), 0 := T(3)]);
    SoloBefore(0, r.seen[0], U(1));
    SoloBefore(0, other.seen[0], T(2));
    MergeAt(0, r, other, 1);
  }

  /* Purging. */

  /** A deleted key whose tombstone may be purged. */
  lemma DeletedAndSeen() returns (r: Replica)
    ensures r == Run(Empty(1), [Insert(1, T(1)), Delete(1, T(2)), Insert(2, T(3))])
    ensures r == Solo(map[1 := Dead(T(2)), 2 := Live(T(3))], map[0 := T(3)])
    ensures Purgeable(0, r, 1) && Purge(0, r, {}) == Solo(map[2 := Live(T(3))], map[0 := T(3)])
  {
    var ops := [Insert(1, T(1)), Delete(1, T(2)), Insert(2, T(3))];
    r := Run(Empty(1), ops);
    SoloRun(ops);
    SoloApply(map[], map[], Insert(1, T(1)), map[1 := Live(T(1))], map[0 := T(1)]);
    SoloApply(map[1 := Live(T(1))], map[0 := T(1)], Delete(1, T(2)), map[1 := Dead(T(2))], map[0 := T(2)]);
    SoloApply(map[1 := Dead(T(2))], map[0 := T(2)], Insert(2, T(3)), map[1 := Dead(T(2)), 2 := Live(T(3))], map[0 := T(3)]);
    hide Run, Apply;
    SoloBefore(0, r.seen[0], T(2));
    assert Purgeable(0, r, 1) && !Purgeable(0, r, 2);
  }

  lemma AfterDrop(r: Replica, step: Purging.Step)
    requires |r.seen| > 0
    ensures Purging.StragglesAt(0, r, [Purging.Drop({}), step], 1) <==> Purging.Straggles(Purge(0, r, {}), r, step)
  {
    var steps := [Purging.Drop({}), step];
    var drop := steps[..1];
    assert drop == [steps[0]] && drop[..0] == [];
    hide Purge, Purging.Straggles;
    assert Purging.Continue(0, r, drop) == Purging.Next(0, r, drop[0]);
    assert Purging.ContinueUnpurged(0, r, drop) == Purging.NextUnpurged(0, r, drop[0]);
  }

  /** A write of another node that is older than a purged tombstone is accepted after the purge and
  refused without it. */
  lemma LateWriteShowsPurge()
    ensures var r, op := Run(Empty(1), [Insert(1, T(1)), Delete(1, T(2)), Insert(2, T(3))]), Insert(1, U(1));
            Accepted(Purge(0, r, {}), op) && !Accepted(r, op)
            && Purging.StragglesAt(0, r, [Purging.Drop({}), Purging.Write(op)], 1)
  {
    var r := DeletedAndSeen();
    var op := Insert(1, U(1));
    AfterDrop(r, Purging.Write(op));
    assert Purging.Lags(Purge(0, r, {}), r, 1);
  }

  /** A merge with a replica that missed the delete brings the purged key back, even for the node of
  the tombstone; without the purge the tombstone stays. */
  lemma MergeBringsBackPurged()
    ensures var r, stale := Run(Empty(1), [Insert(1, T(1)), Delete(1, T(2)), Insert(2, T(3))]), Run(Empty(1), [Insert(1, T(1))]);
            Purgeable(0, r, 1) && At(Merge(0, Purge(0, r, {}), stale).recs, 1) == Some(Live(T(1)))
            && At(Merge(0, r, stale).recs, 1) == Some(Dead(T(2)))
            && Purging.StragglesAt(0, r, [Purging.Drop({}), Purging.Absorb(stale)], 1)
  {
    var r := DeletedAndSeen();
    InsertOne();
    var p, stale := Purge(0, r, {}), Run(Empty(1), [Insert(1, T(1))]);
    MergeAt(0, p, stale, 1);
    MergeAt(0, r, stale, 1);
    AfterDrop(r, Purging.Absorb(stale));
    assert Purging.MergesStraggler(p, r, stale, 1);
    hide Merge;
  }

  /* Repairing. */

  /** A set that has seen nothing is told everything. */
  lemma DiffOfEmpty(f: nat, n: nat, other: Replica)
    requires n > 0
    ensures Diff(f, Empty(n), other) == other.recs
  {
    forall k | k in other.recs ensures Wants(f, Empty(n), k, other.recs[k].ts) {
      UnseenSourceBlocks(f, Empty(n).seen, 0, other.recs[k].ts);
      hide Replicas.Before;
    }
    hide Wants;
  }

  /** Two writes of one node, in order. */
  lemma PairInOrder(a: Op, b: Op)
    requires a.source == b.source == 0 && a.key != b.key && a.rec.ts.node == b.rec.ts.node && b.rec.ts.Less(a.rec.ts)
    ensures Run(Empty(1), [b, a]).recs == map[b.key := b.rec, a.key := a.rec]
    ensures Run(Empty(1), [a, b]).recs == map[a.key := a.rec]
  {
    var node := a.rec.ts.node;
    SoloRun([b, a]);
    SoloRun([a, b]);
    SoloApply(map[], map[], b, map[b.key := b.rec], map[node := b.rec.ts]);
    SoloApply(map[b.key := b.rec], map[node := b.rec.ts], a, map[b.key := b.rec, a.key := a.rec], map[node := a.rec.ts]);
    SoloApply(map[], map[], a, map[a.key := a.rec], map[node := a.rec.ts]);
    hide Run;
  }

  lemma PairRepairs(other: Replica, a: Op, b: Op)
    requires a.source == b.source == 0 && a.key != b.key && other.recs == map[b.key := b.rec, a.key := a.rec]
    ensures Repairs(0, Empty(1), other, 0, [a, b])
  {
    var ops := [a, b];
    DiffOfEmpty(0, 1, other);
    hide Diff;
    assert ops[0].key == a.key && ops[1].key == b.key;
  }

  /** Two batches of a repair, the newer first: a removal before an older fetched document of its node,
  or a fetched document before an older removal. The older one is refused and the repair loses it. */
  lemma NewerBatchFirstLoses(a: Op, b: Op)
    requires a.source == b.source == 0 && a.key != b.key && a.rec.ts.node == b.rec.ts.node && b.rec.ts.Less(a.rec.ts)
    ensures var other := Run(Empty(1), [b, a]);
            Repairs(0, Empty(1), other, 0, Flat([[a], [b]])) && !BatchesInOrder([[a], [b]])
            && b.key in Diff(0, Empty(1), other) && b.key !in Run(Empty(1), Flat([[a], [b]])).recs
  {
    var other, batches := Run(Empty(1), [b, a]), [[a], [b]];
    PairInOrder(a, b);
    PairRepairs(other, a, b);
    DiffOfEmpty(0, 1, other);
    FlatPair([a], [b]);
    assert [a] + [b] == [a, b];
    hide Run, Flat, Diff, Repairs;
    assert !NoneNewer(batches[0], batches[1]) by { assert batches[0][0] in batches[0] && batches[1][0] in batches[1]; }
  }

  lemma FlatPair(a: seq<Op>, b: seq<Op>)
    ensures Flat([a, b]) == a + b
  {
    assert [a, b][..1] == [a] && [a][..0] == [];
    assert Flat([a]) == [] + a;
  }

  /** An insert here and a delete there at one stamp: neither is reported to the other side, the two
  stay apart. */
  lemma TieStaysApart()
    ensures var a, b := Run(Empty(1), [Insert(1, T(1))]), Run(Empty(1), [Delete(1, T(1))]);
            Fresh(0, a, b) && TieAt(a, b, 1) && Diff(0, a, b) == map[] && Diff(0, b, a) == map[]
  {
    InsertOne();
    DeleteOne();
    var a, b := Run(Empty(1), [Insert(1, T(1))]), Run(Empty(1), [Delete(1, T(1))]);
    SoloBefore(0, a.seen[0], T(1));
    SoloBefore(0, b.seen[0], T(1));
  }

  const FIRST := Stamp(250, 1, 0)

  lemma EpochSets() returns (r: Replica, other: Replica)
    ensures r == Run(Empty(1), [Insert(3, FIRST)]) && other == Run(Empty(1), [Delete(1, Zero(0)), Insert(3, FIRST), Insert(2, T(500))])
    ensures r == Solo(map[3 := Live(FIRST)], map[0 := FIRST])
    ensures other.recs == map[1 := Dead(Zero(0)), 3 := Live(FIRST), 2 := Live(T(500))]
  {
    var all := [Delete(1, Zero(0)), Insert(3, FIRST), Insert(2, T(500))];
    r, other := Run(Empty(1), [Insert(3, FIRST)]), Run(Empty(1), all);
    var zero, both := map[1 := Dead(Zero(0))], map[1 := Dead(Zero(0)), 3 := Live(FIRST)];
    SoloRun([Insert(3, FIRST)]);
    SoloRun(all);
    SoloApply(map[], map[], all[1], map[3 := Live(FIRST)], map[0 := FIRST]);
    SoloApply(map[], map[], all[0], zero, map[0 := Zero(0)]);
    SoloApply(zero, map[0 := Zero(0)], all[1], both, map[0 := FIRST]);
    SoloApply(both, map[0 := FIRST], all[2], both[2 := Live(T(500))], map[0 := T(500)]);
    hide Run, Apply;
  }

  /** A record of the epoch itself can come back: the repair replaces a stamp of one second, counter
  one, by a stamp of two seconds, counter zero, and both shift to the epoch. */
  lemma EpochRecordReturns()
    ensures var r := Run(Empty(1), [Insert(3, FIRST)]);
            var other := Run(Empty(1), [Delete(1, Zero(0)), Insert(3, FIRST), Insert(2, T(500))]);
            var ops := [Insert(2, T(500))];
            Repairs(900_000, r, other, 0, ops) && InOrder(r, ops) && 1 in Diff(900_000, Run(r, ops), other)
  {
    var f, ops := 900_000, [Insert(2, T(500))];
    var r, other := EpochSets();
    assert ops[..0] == [] && Run(r, ops) == Apply(r, ops[0]);
    SoloApply(r.recs, map[0 := FIRST], ops[0], map[3 := Live(FIRST), 2 := Live(T(500))], map[0 := T(500)]);
    assert InOrder(r, ops);
    SoloBefore(f, map[0 := FIRST], Zero(0));
    SoloBefore(f, map[0 := FIRST], T(500));
    SoloBefore(f, map[0 := T(500)], Zero(0));
    hide Run, Apply, Replicas.Before, InOrder;
    assert Diff(f, r, other) == map[2 := Live(T(500))];
    assert ops[0].key == 2;
  }

  /* Storage. */

  lemma {:induction false} AllApply(f: nat, n: nat, docs: seq<Row>)
    requires n > 0
    ensures Applicable(f, Empty(n), docs) == docs
  {
    if docs != [] {
      var last := |docs| - 1;
      AllApply(f, n, docs[..last]);
      UnseenSourceBlocks(f, Empty(n).seen, 0, docs[last].rec.ts);
      hide Replicas.Before;
    }
  }

  lemma {:induction false} AllDone(rows: seq<Row>, done: set<Key>)
    requires forall x :: x in rows ==> x.key in done
    ensures Done(rows, done) == rows
  {
    if rows != [] {
      AllDone(rows[..|rows| - 1], done);
    }
  }

  /** A batch that names a document twice, the newer record first: storage keeps the older one, memory
  the newer. */
  lemma BatchPutsStorageBehind(f: nat, start: Stamp)
    ensures var docs := [Row(1, Live(T(2))), Row(1, Live(T(1)))];
            var ks := Step(f, Keyspace(Empty(2), map[], start), Batch(0, docs, {1}, start));
            ks.rows == map[1 := Live(T(1))] && ks.replica.recs == map[1 := Live(T(2))]
            && !NeverBehind(ks.replica.recs, ks.rows)
  {
    var a, b := Row(1, Live(T(2))), Row(1, Live(T(1)));
    TakenTwice(a, b);
    StoredTwice(a, b);
    hide Step, Store, Run, SortRows, OpsOf, NeverBehind;
    BatchOnEmpty(f, [a, b], [b, a], start);
    OlderIsBehind(map[1 := Live(T(2))], map[1 := Live(T(1))]);
  }

  lemma OlderIsBehind(recs: map<Key, Rec>, rows: map<Key, Rec>)
    requires 1 in recs && 1 in rows && rows[1].ts.Less(recs[1].ts)
    ensures !NeverBehind(recs, rows)
  {
    assert !AsNew(rows[1], recs[1]);
  }

  lemma BatchOnEmpty(f: nat, docs: seq<Row>, sorted: seq<Row>, start: Stamp)
    requires forall x :: x in docs ==> x.key == 1
    requires sorted == SortRows(docs)
    ensures var ks := Step(f, Keyspace(Empty(2), map[], start), Batch(0, docs, {1}, start));
            ks.rows == Store(map[], docs) && ks.replica == Run(Empty(2), OpsOf(0, sorted))
  {
    AllApply(f, 2, docs);
    AllDone(docs, {1});
    AllDone(sorted, {1});
    hide Applicable, Done, SortRows, Store, Run, OpsOf;
  }

  lemma StoredTwice(a: Row, b: Row)
    requires a.key == b.key
    ensures Store(map[], [a, b]) == map[b.key := b.rec]
  {
    assert [a, b][..1] == [a] && [a][..0] == [];
    assert Store(map[], [a]) == map[a.key := a.rec];
  }

  lemma TakenTwice(a: Row, b: Row)
    requires a == Row(1, Live(T(2))) && b == Row(1, Live(T(1)))
    ensures SortRows([a, b]) == [b, a] && Run(Empty(2), OpsOf(0, [b, a])).recs == map[1 := Live(T(2))]
  {
    SortedPair(a, b);
    var ops := OpsOf(0, [b, a]);
    assert ops == [Insert(1, T(1)), Insert(1, T(2))];
    PairRun(Empty(2), ops[0], ops[1]);
    hide Run;
  }

  lemma SortedPair(a: Row, b: Row)
    requires b.rec.ts.Less(a.rec.ts)
    ensures SortRows([a, b]) == [b, a]
  {
    assert [a, b][1..] == [b] && [b][1..] == [];
    assert SortRows([b]) == [b];
    assert InsertRow(a, [b]) == [b] + InsertRow(a, [b][1..]);
  }

  lemma PairRun(r: Replica, a: Op, b: Op)
    ensures Run(r, [a, b]) == Apply(Apply(r, a), b)
  {
    assert [a, b][..1] == [a] && [a][..0] == [];
    assert Run(r, [a]) == Apply(r, a);
  }
}
