/** Keyspaces that stop and start again: runs of messages with reloads from storage in between. */
module Restarts {
  import opened Hlc
  import opened Records
  import opened Replicas
  import opened Convergence
  import opened Keyspaces

  /** A message is handled, or the process stops and loads the keyspace again. It may have stopped in
  the middle of a message, after storage did its part; `listing` is what storage then lists. */
  datatype Life =
    | Deliver(msg: Msg)
    | Restart(during: Option<Msg>, listing: seq<Row>, now: Stamp)

  /** What storage holds when the process has stopped. */
  function RowsLeft(f: nat, ks: Keyspace, during: Option<Msg>): map<Key, Rec>
    requires |ks.replica.seen| > 0
  {
    if during.Some? then Step(f, ks, during.value).rows else ks.rows
  }

  function Lived(f: nat, ks: Keyspace, life: Life): (after: Keyspace)
    requires |ks.replica.seen| > 0
    ensures |after.replica.seen| == |ks.replica.seen|
  {
    match life
    case Deliver(msg) => Step(f, ks, msg)
    case Restart(during, listing, now) => Keyspace(Load(|ks.replica.seen|, listing), RowsLeft(f, ks, during), now)
  }

  function Lives(f: nat, ks: Keyspace, lives: seq<Life>): (after: Keyspace)
    requires |ks.replica.seen| > 0
    ensures |after.replica.seen| == |ks.replica.seen|
  {
    if lives == [] then ks else Lived(f, Lives(f, ks, lives[..|lives| - 1]), lives[|lives| - 1])
  }

  function New(n: nat, start: Stamp): Keyspace { Keyspace(Empty(n), map[], start) }

  /** Where the run is before its `i`-th part. */
  function Reached(f: nat, n: nat, start: Stamp, lives: seq<Life>, i: nat): (ks: Keyspace)
    requires n > 0 && i <= |lives|
    ensures |ks.replica.seen| == n
  {
    Lives(f, New(n, start), lives[..i])
  }

  /** Every reload lists what storage holds, each row once, in any order. */
  ghost predicate ListsStorage(f: nat, n: nat, start: Stamp, lives: seq<Life>)
    requires n > 0
  {
    forall i :: 0 <= i < |lives| && lives[i].Restart? ==>
      Lists(lives[i].listing, RowsLeft(f, Reached(f, n, start, lives, i), lives[i].during))
  }

  lemma Unroll(f: nat, n: nat, start: Stamp, lives: seq<Life>, i: nat)
    requires n > 0 && i < |lives|
    ensures Reached(f, n, start, lives, i + 1) == Lived(f, Reached(f, n, start, lives, i), lives[i])
  {
    assert lives[..i + 1][..i] == lives[..i];
  }

  /** A reload leaves memory holding exactly what storage holds. */
  lemma RestartAgrees(f: nat, ks: Keyspace, life: Life)
    requires |ks.replica.seen| > 0 && life.Restart? && Lists(life.listing, RowsLeft(f, ks, life.during))
    ensures Lived(f, ks, life).replica.recs == Lived(f, ks, life).rows
  {
    LoadRebuilds(|ks.replica.seen|, life.listing, RowsLeft(f, ks, life.during));
  }

  /* Storage and memory over whole lives. */

  ghost predicate Ahead(ks: Keyspace) { NeverBehind(ks.replica.recs, ks.rows) }

  ghost predicate Agrees(ks: Keyspace) { ks.rows == ks.replica.recs }

  /** The message does not put storage behind: it is no batch, or the last row of every document
  outranks what memory admits. */
  ghost predicate KeepsAhead(f: nat, ks: Keyspace, life: Life)
    requires |ks.replica.seen| > 0
  {
    life.Deliver? && life.msg.Batch? ==> LastOutranks(ks.replica, life.msg.source, Written(f, ks, life.msg))
  }

  ghost predicate KeepsAgreeing(f: nat, ks: Keyspace, life: Life)
    requires |ks.replica.seen| > 0
  {
    life.Deliver? ==> Taken(f, ks, life.msg)
  }

  lemma LifeKeepsAheadIff(f: nat, ks: Keyspace, life: Life)
    requires |ks.replica.seen| > 0 && Ahead(ks)
    requires life.Restart? ==> Lists(life.listing, RowsLeft(f, ks, life.during))
    ensures Ahead(Lived(f, ks, life)) <==> KeepsAhead(f, ks, life)
  {
    if life.Restart? {
      RestartAgrees(f, ks, life);
    } else if life.msg.Batch? {
      BatchAheadIff(f, ks, life.msg);
    } else {
      StepKeepsStorageAhead(f, ks, life.msg);
    }
  }

  lemma LifeAgreesIff(f: nat, ks: Keyspace, life: Life)
    requires |ks.replica.seen| > 0 && Agrees(ks)
    requires life.Restart? ==> Lists(life.listing, RowsLeft(f, ks, life.during))
    ensures Agrees(Lived(f, ks, life)) <==> KeepsAgreeing(f, ks, life)
  {
    if life.Restart? {
      RestartAgrees(f, ks, life);
    } else {
      StepAgreesIff(f, ks, life.msg);
    }
  }

  lemma {:induction false} AheadUpTo(f: nat, n: nat, start: Stamp, lives: seq<Life>, m: nat)
    requires n > 0 && m <= |lives| && ListsStorage(f, n, start, lives)
    requires forall i :: 0 <= i < m ==> KeepsAhead(f, Reached(f, n, start, lives, i), lives[i])
    ensures Ahead(Reached(f, n, start, lives, m))
  {
    if m > 0 {
      AheadUpTo(f, n, start, lives, m - 1);
      Unroll(f, n, start, lives, m - 1);
      hide Reached, Ahead, Lived, KeepsAhead;
      LifeKeepsAheadIff(f, Reached(f, n, start, lives, m - 1), lives[m - 1]);
    }
  }

  /** Over every life of a keyspace, with any partial failures of storage, crashes and reloads, storage
  is never behind memory if and only if no batch last names a document with a record older than one
  that memory admits. */
  lemma NeverBehindIff(f: nat, n: nat, start: Stamp, lives: seq<Life>)
    requires n > 0 && ListsStorage(f, n, start, lives)
    ensures (forall m :: 0 <= m <= |lives| ==> Ahead(Reached(f, n, start, lives, m)))
            <==> (forall i :: 0 <= i < |lives| ==> KeepsAhead(f, Reached(f, n, start, lives, i), lives[i]))
  {
    hide Reached, Ahead, Lived, KeepsAhead;
    if forall i :: 0 <= i < |lives| ==> KeepsAhead(f, Reached(f, n, start, lives, i), lives[i]) {
      forall m | 0 <= m <= |lives| ensures Ahead(Reached(f, n, start, lives, m)) {
        AheadUpTo(f, n, start, lives, m);
      }
    }
    if forall m :: 0 <= m <= |lives| ==> Ahead(Reached(f, n, start, lives, m)) {
      forall i | 0 <= i < |lives| ensures KeepsAhead(f, Reached(f, n, start, lives, i), lives[i]) {
        assert Ahead(Reached(f, n, start, lives, i)) && Ahead(Reached(f, n, start, lives, i + 1));
        Unroll(f, n, start, lives, i);
        LifeKeepsAheadIff(f, Reached(f, n, start, lives, i), lives[i]);
      }
    }
  }

  lemma {:induction false} AgreesUpTo(f: nat, n: nat, start: Stamp, lives: seq<Life>, m: nat)
    requires n > 0 && m <= |lives| && ListsStorage(f, n, start, lives)
    requires forall i :: 0 <= i < m ==> KeepsAgreeing(f, Reached(f, n, start, lives, i), lives[i])
    ensures Agrees(Reached(f, n, start, lives, m))
  {
    if m > 0 {
      AgreesUpTo(f, n, start, lives, m - 1);
      Unroll(f, n, start, lives, m - 1);
      hide Reached, Agrees, Lived, KeepsAgreeing;
      LifeAgreesIff(f, Reached(f, n, start, lives, m - 1), lives[m - 1]);
    }
  }

  /** Over every life of a keyspace, storage and memory agree all along if and only if memory takes, in
  its turn, every document that storage is told to write. */
  lemma StorageAgreesIff(f: nat, n: nat, start: Stamp, lives: seq<Life>)
    requires n > 0 && ListsStorage(f, n, start, lives)
    ensures (forall m :: 0 <= m <= |lives| ==> Agrees(Reached(f, n, start, lives, m)))
            <==> (forall i :: 0 <= i < |lives| ==> KeepsAgreeing(f, Reached(f, n, start, lives, i), lives[i]))
  {
    hide Reached, Agrees, Lived, KeepsAgreeing;
    if forall i :: 0 <= i < |lives| ==> KeepsAgreeing(f, Reached(f, n, start, lives, i), lives[i]) {
      forall m | 0 <= m <= |lives| ensures Agrees(Reached(f, n, start, lives, m)) {
        AgreesUpTo(f, n, start, lives, m);
      }
    }
    if forall m :: 0 <= m <= |lives| ==> Agrees(Reached(f, n, start, lives, m)) {
      forall i | 0 <= i < |lives| ensures KeepsAgreeing(f, Reached(f, n, start, lives, i), lives[i]) {
        assert Agrees(Reached(f, n, start, lives, i)) && Agrees(Reached(f, n, start, lives, i + 1));
        Unroll(f, n, start, lives, i);
        LifeAgreesIff(f, Reached(f, n, start, lives, i), lives[i]);
      }
    }
  }

  /* What a loaded set admits. */

  /** A loaded set has filed every row under the first source, so there it refuses exactly what is
  behind a row of the same node; on any other source it admits everything. */
  lemma LoadedAdmitsIff(n: nat, listing: seq<Row>, op: Op)
    requires n > 0
    ensures Admits(Load(n, listing), op)
            <==> op.source < n
                 && (op.source == 0 ==>
                       forall x :: x in listing && x.rec.ts.node == op.rec.ts.node ==> x.rec.ts.AtMost(op.rec.ts))
  {
    if op.source == 0 {
      LoadedOnFirst(n, listing, op);
    } else if op.source < n {
      OtherSourceEmpty(Empty(n), OpsOf(0, SortRows(listing)), op.source);
    }
  }

  lemma LoadedOnFirst(n: nat, listing: seq<Row>, op: Op)
    requires n > 0 && op.source == 0
    ensures Admits(Load(n, listing), op)
            <==> forall x :: x in listing && x.rec.ts.node == op.rec.ts.node ==> x.rec.ts.AtMost(op.rec.ts)
  {
    var r, sorted, node := Empty(n), SortRows(listing), op.rec.ts.node;
    var ops := OpsOf(0, sorted);
    SortedInOrder(n, sorted);
    InOrderImpliesAdmitted(r, ops);
    SeenFrom(r, ops, 0, node);
    var now := Seen(Run(r, ops).seen[0], node);
    hide Run, AdmittedAt, InOrder;
    forall x | x in listing && x.rec.ts.node == node ensures x.rec.ts.AtMost(now) {
      assert x in sorted;
      var i :| 0 <= i < |sorted| && sorted[i] == x;
      AdmittedIsSeen(r, ops, i);
    }
    if now != Zero(node) {
      var i :| 0 <= i < |ops| && ops[i].source == 0 && ops[i].rec.ts.node == node && ops[i].rec.ts == now;
      assert sorted[i] in sorted && sorted[i] in listing;
    }
  }

  /* A restart that costs a document. */

  const ONE := Row(1, Live(Stamp(1, 0, 0)))
  const FIVE := Row(2, Live(Stamp(5, 0, 0)))
  const THREE := Row(3, Live(Stamp(3, 0, 0)))

  /** A document memory does not know is stored while the second source has seen nothing. */
  lemma IsStored(f: nat, ks: Keyspace, source: nat, row: Row, now: Stamp)
    requires |ks.replica.seen| == 2 && ks.replica.seen[1] == map[] && row.key !in ks.replica.recs
    ensures var after := Step(f, ks, Single(source, row, true, now));
            after.rows == ks.rows[row.key := row.rec] && after.replica == Apply(ks.replica, Op(source, row.key, row.rec))
  {
    UnseenSourceBlocks(f, ks.replica.seen, 1, row.rec.ts);
    hide Before, Apply;
  }

  /** The first source delivers a document, then the second a newer one of the same node. */
  lemma TwoSources(f: nat, start: Stamp) returns (ks: Keyspace)
    ensures ks == Step(f, Step(f, New(2, start), Single(0, ONE, true, start)), Single(1, FIVE, true, start))
    ensures |ks.replica.seen| == 2 && ks.rows == map[1 := ONE.rec, 2 := FIVE.rec]
  {
    var ks0 := New(2, start);
    var ks1 := Step(f, ks0, Single(0, ONE, true, start));
    IsStored(f, ks0, 0, ONE, start);
    IsStored(f, ks1, 1, FIVE, start);
    hide Step;
    ks := Step(f, ks1, Single(1, FIVE, true, start));
  }

  /** After a reload the first source's next document is behind the second source's row. */
  lemma LoadedThenLate(f: nat, rows: map<Key, Rec>, start: Stamp)
    requires rows == map[1 := ONE.rec, 2 := FIVE.rec]
    ensures Lists([ONE, FIVE], rows)
    ensures var ks := Step(f, Keyspace(Load(2, [ONE, FIVE]), rows, start), Single(0, THREE, true, start));
            3 in ks.rows && 3 !in ks.replica.recs
  {
    var listing := [ONE, FIVE];
    assert listing[0] == ONE && listing[1] == FIVE;
    LoadRebuilds(2, listing, rows);
    OtherSourceEmpty(Empty(2), OpsOf(0, SortRows(listing)), 1);
    LoadedAdmitsIff(2, listing, Op(0, 3, THREE.rec));
    assert FIVE in listing;
    assert |Load(2, listing).seen| == 2;
    assert Load(2, listing).seen[1] == map[];
    hide Load, Lists;
    IsStored(f, Keyspace(Load(2, listing), rows, start), 0, THREE, start);
    hide Step;
  }

  function LateLives(start: Stamp): (lives: seq<Life>)
    ensures |lives| == 4
  {
    [Deliver(Single(0, ONE, true, start)), Deliver(Single(1, FIVE, true, start)),
     Restart(None, [ONE, FIVE], start), Deliver(Single(0, THREE, true, start))]
  }

  lemma LateMiddle(f: nat, start: Stamp)
    ensures Reached(f, 2, start, LateLives(start), 2).rows == map[1 := ONE.rec, 2 := FIVE.rec]
  {
    hide Step, Reached, New;
    var ks := TwoSources(f, start);
    var lives := LateLives(start);
    var empty := New(2, start);
    NothingYet(f, 2, start, lives);
    assert Lived(f, Lived(f, empty, lives[0]), lives[1]) == ks;
    hide LateLives, Lived;
    TwoLives(f, 2, start, lives, 0);
  }

  lemma LateEnd(f: nat, start: Stamp)
    ensures var ks := Reached(f, 2, start, LateLives(start), 4);
            3 in ks.rows && 3 !in ks.replica.recs
  {
    var lives := LateLives(start);
    var middle := Reached(f, 2, start, lives, 2);
    LateMiddle(f, start);
    TwoLives(f, 2, start, lives, 2);
    LoadedThenLate(f, middle.rows, start);
    hide Step, Reached, Load, Lists;
  }

  lemma LateLists(f: nat, start: Stamp)
    ensures ListsStorage(f, 2, start, LateLives(start))
  {
    LateMiddle(f, start);
    LoadedThenLate(f, map[1 := ONE.rec, 2 := FIVE.rec], start);
    hide Step, Reached, Load, Lists;
  }

  /** Every source delivers in order, yet after a restart a document is stored and ignored in memory:
  loading has filed the second source's newer row under the first source. */
  lemma RestartSplitsState(f: nat, start: Stamp)
    ensures var lives := LateLives(start);
            ListsStorage(f, 2, start, lives) && OrderedDelivery(2, [lives[0].msg, lives[1].msg, lives[3].msg])
            && var ks := Reached(f, 2, start, lives, 4);
               3 in ks.rows && 3 !in ks.replica.recs
  {
    LateLists(f, start);
    LateEnd(f, start);
    InTwoOrders(start);
    hide Reached, ListsStorage, OrderedDelivery;
  }

  lemma InTwoOrders(start: Stamp)
    ensures OrderedDelivery(2, [Single(0, ONE, true, start), Single(1, FIVE, true, start), Single(0, THREE, true, start)])
  {
  }

  lemma NothingYet(f: nat, n: nat, start: Stamp, lives: seq<Life>)
    requires n > 0
    ensures Reached(f, n, start, lives, 0) == New(n, start)
  {
    assert lives[..0] == [];
  }

  lemma TwoLives(f: nat, n: nat, start: Stamp, lives: seq<Life>, i: nat)
    requires n > 0 && i + 2 <= |lives|
    ensures Reached(f, n, start, lives, i + 2) == Lived(f, Lived(f, Reached(f, n, start, lives, i), lives[i]), lives[i + 1])
  {
    Unroll(f, n, start, lives, i);
    Unroll(f, n, start, lives, i + 1);
    hide Reached, Lived;
  }
}
