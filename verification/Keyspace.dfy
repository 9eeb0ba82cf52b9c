/** The keyspace actor of datacake-eventual-consistency/src/keyspace: storage and the in-memory set
kept side by side, and the loading of one from the other. */
module Keyspaces {
  import opened Hlc
  import opened Records
  import opened Replicas
  import opened Convergence

  /** The set in memory, the metadata rows in storage, and the keyspace's change timestamp. */
  datatype Keyspace = Keyspace(replica: Replica, rows: map<Key, Rec>, changed: Stamp)

  /** One message of the actor, with what storage did about it and the clock's answer. `Single` is
  `Set` or `Del` by its record; `Batch` is `MultiSet` or `MultiDel`, of which storage carried out
  the ids in `done`; `Sweep` is `PurgeDeletes`, of which storage removed the ids in `done`. */
  datatype Msg =
    | Single(source: nat, row: Row, stored: bool, now: Stamp)
    | Batch(source: nat, docs: seq<Row>, done: set<Key>, now: Stamp)
    | Sweep(done: set<Key>)

  function Docs(msg: Msg): seq<Row> {
    match msg
    case Single(_, row, _, _) => [row]
    case Batch(_, docs, _, _) => docs
    case Sweep(_) => []
  }

  function OpsOf(source: nat, rows: seq<Row>): (ops: seq<Op>)
    ensures |ops| == |rows|
    ensures forall i :: 0 <= i < |rows| ==> ops[i] == Op(source, rows[i].key, rows[i].rec)
  {
    seq(|rows|, i requires 0 <= i < |rows| => Op(source, rows[i].key, rows[i].rec))
  }

  /** The documents the set says it will apply. */
  function Applicable(f: nat, r: Replica, docs: seq<Row>): (valid: seq<Row>)
    requires |r.seen| > 0
    ensures forall x :: x in valid <==> x in docs && WillApply(f, r, x.key, x.rec.ts)
  {
    if docs == [] then []
    else
      var last := docs[|docs| - 1];
      assert docs == docs[..|docs| - 1] + [last];
      var rest := Applicable(f, r, docs[..|docs| - 1]);
      if WillApply(f, r, last.key, last.rec.ts) then rest + [last] else rest
  }

  /** The rows whose ids storage reported as done. */
  function Done(rows: seq<Row>, done: set<Key>): (kept: seq<Row>)
    ensures forall x :: x in kept <==> x in rows && x.key in done
  {
    if rows == [] then []
    else
      var last := rows[|rows| - 1];
      assert rows == rows[..|rows| - 1] + [last];
      var rest := Done(rows[..|rows| - 1], done);
      if last.key in done then rest + [last] else rest
  }

  /** Storage upserts the rows one after the other. */
  function Store(table: map<Key, Rec>, rows: seq<Row>): map<Key, Rec> {
    if rows == [] then table
    else Store(table, rows[..|rows| - 1])[rows[|rows| - 1].key := rows[|rows| - 1].rec]
  }

  function Step(f: nat, ks: Keyspace, msg: Msg): (after: Keyspace)
    requires |ks.replica.seen| > 0
    ensures |after.replica.seen| == |ks.replica.seen|
  {
    match msg
    case Single(source, row, stored, now) =>
      if WillApply(f, ks.replica, row.key, row.rec.ts) && stored
      then Keyspace(Apply(ks.replica, Op(source, row.key, row.rec)), ks.rows[row.key := row.rec], now)
      else ks
    case Batch(source, docs, done, now) =>
      var valid := Applicable(f, ks.replica, docs);
      Keyspace(Run(ks.replica, OpsOf(source, Done(SortRows(valid), done))), Store(ks.rows, Done(valid, done)), now)
    case Sweep(done) =>
      Keyspace(
        Purge(f, ks.replica, ks.replica.recs.Keys - done),
        map k | k in ks.rows && !(Purgeable(f, ks.replica, k) && k in done) :: ks.rows[k],
        ks.changed)
  }

  function Steps(f: nat, ks: Keyspace, msgs: seq<Msg>): (after: Keyspace)
    requires |ks.replica.seen| > 0
    ensures |after.replica.seen| == |ks.replica.seen|
  {
    if msgs == [] then ks else Step(f, Steps(f, ks, msgs[..|msgs| - 1]), msgs[|msgs| - 1])
  }

  /** The rows of a batch that storage writes, in the order given; memory gets them in time order. */
  function Written(f: nat, ks: Keyspace, msg: Msg): seq<Row>
    requires |ks.replica.seen| > 0 && msg.Batch?
  {
    Done(Applicable(f, ks.replica, msg.docs), msg.done)
  }

  function Applied(f: nat, ks: Keyspace, msg: Msg): seq<Row>
    requires |ks.replica.seen| > 0 && msg.Batch?
  {
    Done(SortRows(Applicable(f, ks.replica, msg.docs)), msg.done)
  }

  /** A row is as new as a record: the same, or with a newer stamp. */
  predicate AsNew(row: Rec, rec: Rec) { row == rec || rec.ts.Less(row.ts) }

  /** A document named more than once is last named with its newest record. Batches that name every
  document once, or repeat it at one timestamp as `put_many` does, are like this. */
  predicate NewestLast(rows: seq<Row>) {
    forall i, j :: 0 <= i < j < |rows| && rows[i].key == rows[j].key ==> AsNew(rows[j].rec, rows[i].rec)
  }

  ghost predicate NewestLastBatches(msgs: seq<Msg>) {
    forall i :: 0 <= i < |msgs| ==> NewestLast(Docs(msgs[i]))
  }

  /* What a batch does to one key. */

  lemma {:induction false} ApplicableNewestLast(f: nat, r: Replica, docs: seq<Row>)
    requires |r.seen| > 0 && NewestLast(docs)
    ensures NewestLast(Applicable(f, r, docs))
  {
    if docs != [] {
      var rest := Applicable(f, r, docs[..|docs| - 1]);
      ApplicableNewestLast(f, r, docs[..|docs| - 1]);
      hide WillApply;
      forall i | 0 <= i < |rest| && rest[i].key == docs[|docs| - 1].key
        ensures AsNew(docs[|docs| - 1].rec, rest[i].rec)
      {
        assert rest[i] in docs[..|docs| - 1];
      }
    }
  }

  lemma {:induction false} DoneNewestLast(rows: seq<Row>, done: set<Key>)
    requires NewestLast(rows)
    ensures NewestLast(Done(rows, done))
  {
    if rows != [] {
      var rest := Done(rows[..|rows| - 1], done);
      DoneNewestLast(rows[..|rows| - 1], done);
      forall i | 0 <= i < |rest| && rest[i].key == rows[|rows| - 1].key
        ensures AsNew(rows[|rows| - 1].rec, rest[i].rec)
      {
        assert rest[i] in rows[..|rows| - 1];
      }
    }
  }

  /** `i` is the last row of its key. */
  predicate LastOfKey(rows: seq<Row>, i: nat) {
    i < |rows| && forall j :: i < j < |rows| ==> rows[j].key != rows[i].key
  }

  /** Storage ends with the last row of each key. */
  lemma {:induction false} StoreLast(table: map<Key, Rec>, rows: seq<Row>, k: Key)
    ensures (forall x :: x in rows ==> x.key != k) ==> At(Store(table, rows), k) == At(table, k)
    ensures forall i :: 0 <= i < |rows| && rows[i].key == k && LastOfKey(rows, i) ==>
              At(Store(table, rows), k) == Some(rows[i].rec)
  {
    if rows != [] {
      var last := |rows| - 1;
      assert rows == rows[..last] + [rows[last]];
      StoreLast(table, rows[..last], k);
      forall i | 0 <= i < last && LastOfKey(rows, i) ensures LastOfKey(rows[..last], i) {
      }
    }
  }

  lemma {:induction false} FindLast(rows: seq<Row>, i: nat) returns (j: nat)
    requires i < |rows|
    ensures i <= j && LastOfKey(rows, j) && rows[j].key == rows[i].key
    decreases |rows| - i
  {
    if LastOfKey(rows, i) {
      j := i;
    } else {
      var next :| i < next < |rows| && rows[next].key == rows[i].key;
      j := FindLast(rows, next);
    }
  }

  lemma SameRows(f: nat, ks: Keyspace, msg: Msg)
    requires |ks.replica.seen| > 0 && msg.Batch?
    ensures forall x :: x in Written(f, ks, msg) <==> x in Applied(f, ks, msg)
    ensures forall x :: x in Written(f, ks, msg) ==>
              x in msg.docs && (x.key in ks.replica.recs ==> ks.replica.recs[x.key].ts.Less(x.rec.ts))
  {
  }

  /** A key the batch does not write is untouched in storage; a key it does ends with its last row. */
  lemma BatchStores(f: nat, ks: Keyspace, msg: Msg, k: Key)
    requires |ks.replica.seen| > 0 && msg.Batch?
    ensures var after, rows := Step(f, ks, msg).rows, Written(f, ks, msg);
            if forall x :: x in rows ==> x.key != k then At(after, k) == At(ks.rows, k)
            else exists i :: 0 <= i < |rows| && rows[i].key == k && LastOfKey(rows, i) && At(after, k) == Some(rows[i].rec)
  {
    var rows := Written(f, ks, msg);
    assert Step(f, ks, msg).rows == Store(ks.rows, rows);
    hide Step, Written, Store;
    StoreLast(ks.rows, rows, k);
    if exists x :: x in rows && x.key == k {
      var i :| 0 <= i < |rows| && rows[i].key == k;
      var j := FindLast(rows, i);
    }
  }

  /** In memory a key ends as it was or with one of the rows written. */
  lemma BatchPicks(f: nat, ks: Keyspace, msg: Msg, k: Key)
    requires |ks.replica.seen| > 0 && msg.Batch?
    ensures var after := Step(f, ks, msg).replica.recs;
            At(after, k) == At(ks.replica.recs, k)
            || exists x :: x in Written(f, ks, msg) && x.key == k && At(after, k) == Some(x.rec)
  {
    var applied := Applied(f, ks, msg);
    var ops := OpsOf(msg.source, applied);
    SameRows(f, ks, msg);
    assert Step(f, ks, msg).replica == Run(ks.replica, ops);
    hide Step, Written, Run, Applied;
    RunPicks(ks.replica, ops, k);
    if i :| 0 <= i < |ops| && ops[i].key == k && At(Run(ks.replica, ops).recs, k) == Some(ops[i].rec) {
      assert applied[i] in applied;
    }
  }

  lemma {:induction false} DoneSorted(rows: seq<Row>, done: set<Key>)
    requires SortedByStamp(rows)
    ensures SortedByStamp(Done(rows, done))
  {
    if rows != [] {
      var rest := Done(rows[..|rows| - 1], done);
      DoneSorted(rows[..|rows| - 1], done);
      forall i | 0 <= i < |rest| ensures rest[i].rec.ts.AtMost(rows[|rows| - 1].rec.ts) {
        assert rest[i] in rows[..|rows| - 1];
      }
    }
  }

  /** After rows in time order a key is as it was or holds an admitted row, and covers all of those. */
  ghost predicate Takes(r: Replica, source: nat, rows: seq<Row>, k: Key, after: Option<Rec>) {
    (after == At(r.recs, k)
     || exists x :: x in rows && x.key == k && Admits(r, Op(source, k, x.rec)) && after == Some(x.rec))
    && forall x :: x in rows && x.key == k && Admits(r, Op(source, k, x.rec)) ==> after.Some? && !Below(after.value, x.rec)
  }

  lemma SortedTakes(r: Replica, source: nat, rows: seq<Row>, k: Key)
    requires SortedByStamp(rows)
    ensures Takes(r, source, rows, k, At(Run(r, OpsOf(source, rows)).recs, k))
  {
    var ops := OpsOf(source, rows);
    hide Run, AdmittedAt, Admits, Below;
    forall i | 0 <= i < |ops| ensures AdmittedAt(r, ops, i) <==> Admits(r, ops[i]) {
      SortedAdmittedIff(r, ops, i);
    }
    RunPicksAdmitted(r, ops, k);
    if i :| 0 <= i < |ops| && ops[i].key == k && AdmittedAt(r, ops, i) && At(Run(r, ops).recs, k) == Some(ops[i].rec) {
      assert rows[i] in rows;
    }
    forall x | x in rows && x.key == k && Admits(r, Op(source, k, x.rec)) ensures Covers(Run(r, ops).recs, k, x.rec) {
      var i :| 0 <= i < |rows| && rows[i] == x;
      RunCovers(r, ops, i);
    }
  }

  lemma BatchTakes(f: nat, ks: Keyspace, msg: Msg, k: Key)
    requires |ks.replica.seen| > 0 && msg.Batch?
    ensures Takes(ks.replica, msg.source, Written(f, ks, msg), k, At(Step(f, ks, msg).replica.recs, k))
  {
    var applied := Applied(f, ks, msg);
    SameRows(f, ks, msg);
    DoneSorted(SortRows(Applicable(f, ks.replica, msg.docs)), msg.done);
    assert Step(f, ks, msg).replica == Run(ks.replica, OpsOf(msg.source, applied));
    hide Step, Written, Run, Applied, Admits, Below, OpsOf, SortedByStamp;
    SortedTakes(ks.replica, msg.source, applied, k);
  }

  lemma UniqueRecord(a: Rec, b: Rec)
    requires !Below(a, b) && !Below(b, a)
    ensures a == b
  {
  }

  lemma LastStored(f: nat, ks: Keyspace, msg: Msg, rows: seq<Row>, i: nat)
    requires |ks.replica.seen| > 0 && msg.Batch? && rows == Written(f, ks, msg) && i < |rows| && LastOfKey(rows, i)
    ensures At(Step(f, ks, msg).rows, rows[i].key) == Some(rows[i].rec)
  {
    StoreLast(ks.rows, rows, rows[i].key);
  }

  /* What a message means, document by document. */

  /** The set will apply the document, and storage reports its id as done. */
  predicate Told(f: nat, r: Replica, docs: seq<Row>, done: set<Key>, i: int)
    requires |r.seen| > 0
  {
    0 <= i < |docs| && WillApply(f, r, docs[i].key, docs[i].rec.ts) && docs[i].key in done
  }

  /** The last document of a key that is told to storage. */
  ghost predicate LastTold(f: nat, r: Replica, docs: seq<Row>, done: set<Key>, i: int)
    requires |r.seen| > 0
  {
    Told(f, r, docs, done, i) && forall j :: i < j && Told(f, r, docs, done, j) ==> docs[j].key != docs[i].key
  }

  lemma StoreOneMore(table: map<Key, Rec>, rows: seq<Row>, x: Row)
    ensures Store(table, rows + [x]) == Store(table, rows)[x.key := x.rec]
  {
    assert (rows + [x])[..|rows|] == rows;
  }

  lemma DoneOneMore(rows: seq<Row>, x: Row, done: set<Key>)
    ensures Done(rows + [x], done) == Done(rows, done) + if x.key in done then [x] else []
  {
    assert (rows + [x])[..|rows|] == rows;
  }

  function ToldRec(f: nat, r: Replica, docs: seq<Row>, done: set<Key>, k: Key): Option<Rec>
    requires |r.seen| > 0
  {
    if docs == [] then None
    else
      var x := docs[|docs| - 1];
      if x.key == k && k in done && WillApply(f, r, k, x.rec.ts) then Some(x.rec)
      else ToldRec(f, r, docs[..|docs| - 1], done, k)
  }

  lemma {:induction false} StoresTold(f: nat, r: Replica, table: map<Key, Rec>, docs: seq<Row>, done: set<Key>, k: Key)
    requires |r.seen| > 0
    ensures var told := ToldRec(f, r, docs, done, k);
            At(Store(table, Done(Applicable(f, r, docs), done)), k) == if told.Some? then told else At(table, k)
  {
    if docs != [] {
      var before, x := docs[..|docs| - 1], docs[|docs| - 1];
      StoresTold(f, r, table, before, done, k);
      var valid := Applicable(f, r, before);
      DoneOneMore(valid, x, done);
      StoreOneMore(table, Done(valid, done), x);
      hide Done, Store, WillApply;
      assert Done(valid, done) + [] == Done(valid, done);
    }
  }

  lemma {:induction false} ToldRecIsLast(f: nat, r: Replica, docs: seq<Row>, done: set<Key>, k: Key)
    requires |r.seen| > 0
    ensures ToldRec(f, r, docs, done, k).None? <==> forall i :: Told(f, r, docs, done, i) ==> docs[i].key != k
    ensures forall i :: LastTold(f, r, docs, done, i) && docs[i].key == k ==> ToldRec(f, r, docs, done, k) == Some(docs[i].rec)
  {
    hide WillApply;
    if docs != [] {
      var last := |docs| - 1;
      var before := docs[..last];
      ToldRecIsLast(f, r, before, done, k);
      assert forall i :: 0 <= i < last ==> before[i] == docs[i];
      assert forall i :: i < last ==> (Told(f, r, docs, done, i) <==> Told(f, r, before, done, i));
      if !(Told(f, r, docs, done, last) && docs[last].key == k) {
        forall i | LastTold(f, r, docs, done, i) && docs[i].key == k ensures LastTold(f, r, before, done, i) {
          assert i < last;
        }
      } else {
        assert forall i :: Told(f, r, docs, done, i) && docs[i].key == k && i < last ==> !LastTold(f, r, docs, done, i);
      }
    }
  }

  lemma WrittenIffTold(f: nat, ks: Keyspace, msg: Msg, x: Row)
    requires |ks.replica.seen| > 0 && msg.Batch?
    ensures x in Written(f, ks, msg) <==> exists i :: Told(f, ks.replica, msg.docs, msg.done, i) && msg.docs[i] == x
  {
    assert x in Written(f, ks, msg) <==> x in msg.docs && WillApply(f, ks.replica, x.key, x.rec.ts) && x.key in msg.done;
    hide Written, WillApply;
    if x in msg.docs && WillApply(f, ks.replica, x.key, x.rec.ts) && x.key in msg.done {
      var i :| 0 <= i < |msg.docs| && msg.docs[i] == x;
      assert Told(f, ks.replica, msg.docs, msg.done, i);
    }
  }

  /** What a batch does to storage, from its documents and the ids storage reports as done: each key ends
  with the last document told of it, and is unchanged if there is none. */
  lemma BatchStoresMeans(f: nat, ks: Keyspace, msg: Msg, k: Key)
    requires |ks.replica.seen| > 0 && msg.Batch?
    ensures var r, docs, done, after := ks.replica, msg.docs, msg.done, Step(f, ks, msg);
            after.changed == msg.now
            && (forall i :: LastTold(f, r, docs, done, i) && docs[i].key == k ==> At(after.rows, k) == Some(docs[i].rec))
            && ((forall i :: Told(f, r, docs, done, i) ==> docs[i].key != k) ==> At(after.rows, k) == At(ks.rows, k))
  {
    StoresTold(f, ks.replica, ks.rows, msg.docs, msg.done, k);
    ToldRecIsLast(f, ks.replica, msg.docs, msg.done, k);
    hide Store, Done, Applicable, WillApply, ToldRec, LastTold, Told, SortRows, Run;
  }

  /** What a batch does to memory: each key ends as it was or with a document told that the source admits,
  and with one that wins over all of those; it is unchanged if there is none. */
  lemma BatchTakesMeans(f: nat, ks: Keyspace, msg: Msg, k: Key)
    requires |ks.replica.seen| > 0 && msg.Batch?
    ensures var r, docs, done, held := ks.replica, msg.docs, msg.done, At(Step(f, ks, msg).replica.recs, k);
            (forall i :: Told(f, r, docs, done, i) && docs[i].key == k && Admits(r, Op(msg.source, k, docs[i].rec)) ==>
               held.Some? && Wins(held.value, docs[i].rec))
            && (held == At(r.recs, k)
                || exists i :: Told(f, r, docs, done, i) && docs[i].key == k && Admits(r, Op(msg.source, k, docs[i].rec)) && held == Some(docs[i].rec))
  {
    hide Step, WillApply, Written, Admits, Takes;
    BatchTakes(f, ks, msg, k);
    forall x ensures x in Written(f, ks, msg) <==> exists i :: Told(f, ks.replica, msg.docs, msg.done, i) && msg.docs[i] == x {
      WrittenIffTold(f, ks, msg, x);
    }
    TakesTold(f, ks, msg, k, At(Step(f, ks, msg).replica.recs, k));
  }

  lemma TakesTold(f: nat, ks: Keyspace, msg: Msg, k: Key, held: Option<Rec>)
    requires |ks.replica.seen| > 0 && msg.Batch? && Takes(ks.replica, msg.source, Written(f, ks, msg), k, held)
    requires forall x :: x in Written(f, ks, msg) <==> exists i :: Told(f, ks.replica, msg.docs, msg.done, i) && msg.docs[i] == x
    ensures var r, docs, done := ks.replica, msg.docs, msg.done;
            (forall i :: Told(f, r, docs, done, i) && docs[i].key == k && Admits(r, Op(msg.source, k, docs[i].rec)) ==>
               held.Some? && Wins(held.value, docs[i].rec))
            && (held == At(r.recs, k)
                || exists i :: Told(f, r, docs, done, i) && docs[i].key == k && Admits(r, Op(msg.source, k, docs[i].rec)) && held == Some(docs[i].rec))
  {
    var r, docs, done, rows := ks.replica, msg.docs, msg.done, Written(f, ks, msg);
    hide Written, Admits, WillApply;
    forall i | Told(f, r, docs, done, i) && docs[i].key == k && Admits(r, Op(msg.source, k, docs[i].rec))
      ensures held.Some? && Wins(held.value, docs[i].rec)
    {
      assert docs[i] in rows;
    }
  }

  /** What a single set or delete does: nothing if the set will not apply it or storage fails; otherwise
  storage has it, memory has it if the source admits it, and nothing else changes. */
  lemma SingleMeans(f: nat, ks: Keyspace, msg: Msg, k: Key)
    requires |ks.replica.seen| > 0 && msg.Single?
    ensures var row, after := msg.row, Step(f, ks, msg);
            if PassedBy(f, ks.replica.seen, row.rec.ts)
               || (row.key in ks.replica.recs && row.rec.ts.AtMost(ks.replica.recs[row.key].ts)) || !msg.stored
            then after == ks
            else
              after.changed == msg.now && after.rows == ks.rows[row.key := row.rec]
              && At(after.replica.recs, k)
                 == if k == row.key && Admits(ks.replica, Op(msg.source, k, row.rec)) then Some(row.rec) else At(ks.replica.recs, k)
  {
    WillApplyIff(f, ks.replica, msg.row.key, msg.row.rec.ts);
    hide PassedBy, Before;
  }

  /** What a sweep does: the tombstones that every source has passed leave memory and storage, if storage
  reports them as done; everything else stays, the change stamp too. */
  lemma SweepMeans(f: nat, ks: Keyspace, msg: Msg, k: Key)
    requires |ks.replica.seen| > 0 && msg.Sweep?
    ensures var after, r := Step(f, ks, msg), ks.replica;
            var gone := k in r.recs && r.recs[k].Dead? && PassedBy(f, r.seen, r.recs[k].ts) && k in msg.done;
            after.changed == ks.changed && after.replica.seen == r.seen
            && At(after.replica.recs, k) == (if gone then None else At(r.recs, k))
            && At(after.rows, k) == (if gone then None else At(ks.rows, k))
  {
    PurgedIff(f, ks.replica, ks.replica.recs.Keys - msg.done, k);
    if k in ks.replica.recs {
      BeforeIff(f, ks.replica.seen, ks.replica.recs[k].ts);
    }
    hide PassedBy, Before;
  }

  /** What a batch leaves observed: on its source the newest stamp of the node among what was observed and
  what it told, on the others nothing new. */
  lemma BatchObserves(f: nat, ks: Keyspace, msg: Msg, s: nat, n: NodeId)
    requires s < |ks.replica.seen| && msg.Batch?
    ensures var r, docs := ks.replica, msg.docs;
            var now := Seen(Step(f, ks, msg).replica.seen[s], n);
            Seen(r.seen[s], n).AtMost(now)
            && (s != msg.source ==> now == Seen(r.seen[s], n))
            && (forall i :: s == msg.source && Told(f, r, docs, msg.done, i) && docs[i].rec.ts.node == n ==> docs[i].rec.ts.AtMost(now))
            && (now == Seen(r.seen[s], n) || exists i :: Told(f, r, docs, msg.done, i) && docs[i].rec.ts.node == n && docs[i].rec.ts == now)
  {
    var r, applied := ks.replica, Applied(f, ks, msg);
    assert Step(f, ks, msg).replica == Run(r, OpsOf(msg.source, applied));
    SameRows(f, ks, msg);
    DoneSorted(SortRows(Applicable(f, r, msg.docs)), msg.done);
    hide Step, Applied, Written, WillApply, Run, SortedByStamp, OpsOf;
    SortedObserves(r, msg.source, applied, s, n);
    forall x ensures x in applied <==> exists i :: Told(f, r, msg.docs, msg.done, i) && msg.docs[i] == x {
      WrittenIffTold(f, ks, msg, x);
    }
    hide Told;
    forall i | s == msg.source && Told(f, r, msg.docs, msg.done, i) ensures 0 <= i < |msg.docs| && msg.docs[i] in applied {
      ToldIsIndex(f, r, msg.docs, msg.done, i);
    }
  }

  lemma ToldIsIndex(f: nat, r: Replica, docs: seq<Row>, done: set<Key>, i: int)
    requires |r.seen| > 0 && Told(f, r, docs, done, i)
    ensures 0 <= i < |docs|
  {
  }

  lemma SortedObserves(r: Replica, source: nat, rows: seq<Row>, s: nat, n: NodeId)
    requires s < |r.seen| && SortedByStamp(rows)
    ensures var now := Seen(Run(r, OpsOf(source, rows)).seen[s], n);
            Seen(r.seen[s], n).AtMost(now)
            && (s != source ==> now == Seen(r.seen[s], n))
            && (forall x :: s == source && x in rows && x.rec.ts.node == n ==> x.rec.ts.AtMost(now))
            && (now == Seen(r.seen[s], n) || exists x :: x in rows && x.rec.ts.node == n && x.rec.ts == now)
  {
    var ops := OpsOf(source, rows);
    RunNothing(r);
    hide Run;
    SeenFrom(r, ops, s, n);
    SeenGrows(r, ops, 0, s, n);
    assert ops[..0] == [];
    var now := Seen(Run(r, ops).seen[s], n);
    forall x | s == source && x in rows && x.rec.ts.node == n ensures x.rec.ts.AtMost(now) {
      var j :| 0 <= j < |rows| && rows[j] == x;
      SortedIsSeen(r, ops, j);
    }
    if now != Seen(r.seen[s], n) {
      var j :| 0 <= j < |ops| && ops[j].source == s && ops[j].rec.ts.node == n && ops[j].rec.ts == now;
      assert rows[j] in rows;
    }
  }

  lemma RunNothing(r: Replica)
    ensures Run(r, []) == r
  {
  }

  /** In a run sorted by time every operation is at or behind what its source has observed, admitted or
  not. */
  lemma SortedIsSeen(r: Replica, ops: seq<Op>, i: nat)
    requires i < |ops| && ops[i].source < |r.seen| && forall a, b :: 0 <= a < b < |ops| ==> ops[a].rec.ts.AtMost(ops[b].rec.ts)
    ensures ops[i].rec.ts.AtMost(Seen(Run(r, ops).seen[ops[i].source], ops[i].rec.ts.node))
  {
    SortedAdmittedIff(r, ops, i);
    if AdmittedAt(r, ops, i) {
      AdmittedIsSeen(r, ops, i);
    } else {
      SeenGrows(r, ops, 0, ops[i].source, ops[i].rec.ts.node);
      assert ops[..0] == [];
    }
  }

  /* Storage is never behind memory. */

  ghost predicate NeverBehind(recs: map<Key, Rec>, rows: map<Key, Rec>) {
    forall k :: k in recs ==> k in rows && AsNew(rows[k], recs[k])
  }

  /** The last row of each key is as new as every other row of the key. */
  ghost predicate LastIsNewest(rows: seq<Row>) {
    forall i, j :: 0 <= i < |rows| && 0 <= j < |rows| && LastOfKey(rows, i) && rows[j].key == rows[i].key ==>
      AsNew(rows[i].rec, rows[j].rec)
  }

  lemma NewestLastIsEnough(f: nat, ks: Keyspace, msg: Msg)
    requires |ks.replica.seen| > 0 && msg.Batch? && NewestLast(msg.docs)
    ensures LastIsNewest(Written(f, ks, msg))
  {
    ApplicableNewestLast(f, ks.replica, msg.docs);
    DoneNewestLast(Applicable(f, ks.replica, msg.docs), msg.done);
  }

  lemma WrittenIsNewer(f: nat, ks: Keyspace, msg: Msg, x: Row)
    requires |ks.replica.seen| > 0 && msg.Batch? && x in Written(f, ks, msg)
    ensures x.key in ks.replica.recs ==> ks.replica.recs[x.key].ts.Less(x.rec.ts)
  {
    SameRows(f, ks, msg);
  }

  /** No row of a key that memory admits is above the key's last row. */
  ghost predicate LastOutranks(r: Replica, source: nat, rows: seq<Row>) {
    forall i :: 0 <= i < |rows| && LastOfKey(rows, i) ==> OutranksAdmitted(r, source, rows, rows[i])
  }

  ghost predicate OutranksAdmitted(r: Replica, source: nat, rows: seq<Row>, last: Row) {
    forall x :: x in rows && x.key == last.key && Admits(r, Op(source, x.key, x.rec)) ==> !Below(last.rec, x.rec)
  }

  lemma SameStampAdmitted(r: Replica, source: nat, k: Key, a: Rec, b: Rec)
    requires a.ts == b.ts
    ensures Admits(r, Op(source, k, a)) <==> Admits(r, Op(source, k, b))
  {
  }

  /** For a key the batch writes, its last row is as new as what memory ends with exactly when it
  outranks what memory admits. */
  lemma KeyAheadIff(r: Replica, source: nat, rows: seq<Row>, last: Row, after: Option<Rec>)
    requires last in rows && Takes(r, source, rows, last.key, after)
    requires last.key in r.recs ==> r.recs[last.key].ts.Less(last.rec.ts)
    ensures (after.Some? ==> AsNew(last.rec, after.value)) <==> OutranksAdmitted(r, source, rows, last)
  {
    hide Admits;
    if OutranksAdmitted(r, source, rows, last) && after != At(r.recs, last.key) {
      var x :| x in rows && x.key == last.key && Admits(r, Op(source, last.key, x.rec)) && after == Some(x.rec);
      if x.rec.ts == last.rec.ts {
        SameStampAdmitted(r, source, last.key, x.rec, last.rec);
        UniqueRecord(x.rec, last.rec);
      }
    }
  }

  /** Exactly when a batch keeps storage from falling behind memory, whatever part of it storage carries
  out: no document is last named with an older record than one that memory admits. */
  lemma BatchAheadIff(f: nat, ks: Keyspace, msg: Msg)
    requires |ks.replica.seen| > 0 && msg.Batch? && NeverBehind(ks.replica.recs, ks.rows)
    ensures NeverBehind(Step(f, ks, msg).replica.recs, Step(f, ks, msg).rows)
            <==> LastOutranks(ks.replica, msg.source, Written(f, ks, msg))
  {
    var rows, after := Written(f, ks, msg), Step(f, ks, msg);
    forall i | 0 <= i < |rows| && LastOfKey(rows, i)
      ensures At(after.rows, rows[i].key) == Some(rows[i].rec)
      ensures (rows[i].key in after.replica.recs ==> AsNew(rows[i].rec, after.replica.recs[rows[i].key]))
              <==> OutranksAdmitted(ks.replica, msg.source, rows, rows[i])
    {
      LastStored(f, ks, msg, rows, i);
      assert rows[i] in rows;
      WrittenIsNewer(f, ks, msg, rows[i]);
      BatchTakes(f, ks, msg, rows[i].key);
      hide Step, Written, OutranksAdmitted, Takes;
      KeyAheadIff(ks.replica, msg.source, rows, rows[i], At(after.replica.recs, rows[i].key));
    }
    hide Step, Written, OutranksAdmitted, AsNew;
    if LastOutranks(ks.replica, msg.source, rows) {
      forall k | k in after.replica.recs ensures k in after.rows && AsNew(after.rows[k], after.replica.recs[k]) {
        BatchStores(f, ks, msg, k);
        if forall x :: x in rows ==> x.key != k {
          BatchPicks(f, ks, msg, k);
          assert At(after.replica.recs, k) == At(ks.replica.recs, k);
        }
      }
    }
  }

  lemma BatchKeepsStorageAhead(f: nat, ks: Keyspace, msg: Msg)
    requires |ks.replica.seen| > 0 && msg.Batch? && LastIsNewest(Written(f, ks, msg))
    requires NeverBehind(ks.replica.recs, ks.rows)
    ensures NeverBehind(Step(f, ks, msg).replica.recs, Step(f, ks, msg).rows)
  {
    NewestOutranks(ks.replica, msg.source, Written(f, ks, msg));
    BatchAheadIff(f, ks, msg);
  }

  lemma NewestOutranks(r: Replica, source: nat, rows: seq<Row>)
    requires LastIsNewest(rows)
    ensures LastOutranks(r, source, rows)
  {
    hide Admits, LastOfKey;
    forall i, x | 0 <= i < |rows| && LastOfKey(rows, i) && x in rows && x.key == rows[i].key ensures !Below(rows[i].rec, x.rec) {
      var j :| 0 <= j < |rows| && rows[j] == x;
      assert AsNew(rows[i].rec, rows[j].rec);
    }
  }

  lemma StepKeepsStorageAhead(f: nat, ks: Keyspace, msg: Msg)
    requires |ks.replica.seen| > 0 && NewestLast(Docs(msg)) && NeverBehind(ks.replica.recs, ks.rows)
    ensures NeverBehind(Step(f, ks, msg).replica.recs, Step(f, ks, msg).rows)
  {
    hide Before;
    if msg.Batch? {
      NewestLastIsEnough(f, ks, msg);
      BatchKeepsStorageAhead(f, ks, msg);
    }
  }

  /** Over every run of messages, whatever storage fails to do, storage is never behind memory. */
  lemma {:induction false} StorageNeverBehind(f: nat, n: nat, start: Stamp, msgs: seq<Msg>)
    requires n > 0 && NewestLastBatches(msgs)
    ensures var ks := Steps(f, Keyspace(Empty(n), map[], start), msgs);
            NeverBehind(ks.replica.recs, ks.rows)
  {
    if msgs != [] {
      var last := |msgs| - 1;
      StorageNeverBehind(f, n, start, msgs[..last]);
      hide Step, NeverBehind;
      StepKeepsStorageAhead(f, Steps(f, Keyspace(Empty(n), map[], start), msgs[..last]), msgs[last]);
    }
  }

  /* Ordered delivery: storage and memory agree. */

  /** Every source delivers each node's documents in time order, message by message. */
  ghost predicate OrderedDelivery(n: nat, msgs: seq<Msg>) {
    (forall i :: 0 <= i < |msgs| && !msgs[i].Sweep? ==> msgs[i].source < n)
    && (forall i, j, x, y :: 0 <= i < j < |msgs| && !msgs[i].Sweep? && !msgs[j].Sweep?
                             && msgs[i].source == msgs[j].source && x in Docs(msgs[i]) && y in Docs(msgs[j])
                             && x.rec.ts.node == y.rec.ts.node ==>
          x.rec.ts.AtMost(y.rec.ts))
  }

  /** Every document of a message is at or past what its source has observed. */
  ghost predicate AllAdmitted(r: Replica, msg: Msg) {
    !msg.Sweep? ==> forall x :: x in Docs(msg) ==> Admits(r, Op(msg.source, x.key, x.rec))
  }

  /* Exactly when storage and memory stay the same. */

  /** The last row of every key is admitted to memory, and no admitted row of the key is above it. */
  ghost predicate LastIsTaken(r: Replica, source: nat, rows: seq<Row>) {
    forall i :: 0 <= i < |rows| && LastOfKey(rows, i) ==> TakenLast(r, source, rows, rows[i])
  }

  ghost predicate TakenLast(r: Replica, source: nat, rows: seq<Row>, last: Row) {
    Admits(r, Op(source, last.key, last.rec)) && OutranksAdmitted(r, source, rows, last)
  }

  /** What storage is told to write, memory takes as well. */
  ghost predicate Taken(f: nat, ks: Keyspace, msg: Msg)
    requires |ks.replica.seen| > 0
  {
    match msg
    case Single(source, row, stored, _) =>
      WillApply(f, ks.replica, row.key, row.rec.ts) && stored ==> Admits(ks.replica, Op(source, row.key, row.rec))
    case Batch(source, _, _, _) => LastIsTaken(ks.replica, source, Written(f, ks, msg))
    case Sweep(_) => true
  }

  /** One key after a batch: its last row is what memory holds exactly when memory took it. */
  lemma BatchKeyAgreesIff(f: nat, ks: Keyspace, msg: Msg, rows: seq<Row>, i: nat)
    requires |ks.replica.seen| > 0 && msg.Batch? && rows == Written(f, ks, msg) && i < |rows|
    ensures At(Step(f, ks, msg).replica.recs, rows[i].key) == Some(rows[i].rec)
            <==> TakenLast(ks.replica, msg.source, rows, rows[i])
  {
    var k, w, r, after := rows[i].key, rows[i].rec, ks.replica, Step(f, ks, msg).replica.recs;
    assert rows[i] in rows;
    WrittenIsNewer(f, ks, msg, rows[i]);
    hide Step, Written, Admits;
    BatchTakes(f, ks, msg, k);
    if TakenLast(r, msg.source, rows, rows[i]) {
      assert Covers(after, k, w);
      assert At(after, k) != At(r.recs, k);
      var x :| x in rows && x.key == k && Admits(r, Op(msg.source, k, x.rec)) && At(after, k) == Some(x.rec);
      UniqueRecord(x.rec, w);
    }
  }

  lemma BatchAgreesIff(f: nat, ks: Keyspace, msg: Msg)
    requires |ks.replica.seen| > 0 && msg.Batch? && ks.rows == ks.replica.recs
    ensures Step(f, ks, msg).rows == Step(f, ks, msg).replica.recs <==> LastIsTaken(ks.replica, msg.source, Written(f, ks, msg))
  {
    var rows, after := Written(f, ks, msg), Step(f, ks, msg);
    hide Step, Written, TakenLast, LastOfKey;
    if LastIsTaken(ks.replica, msg.source, rows) {
      forall k ensures At(after.rows, k) == At(after.replica.recs, k) {
        BatchStores(f, ks, msg, k);
        if forall x :: x in rows ==> x.key != k {
          BatchPicks(f, ks, msg, k);
        } else {
          var i :| 0 <= i < |rows| && rows[i].key == k && LastOfKey(rows, i) && At(after.rows, k) == Some(rows[i].rec);
          BatchKeyAgreesIff(f, ks, msg, rows, i);
        }
      }
      SameMap(after.rows, after.replica.recs);
    }
    if after.rows == after.replica.recs {
      forall i | 0 <= i < |rows| && LastOfKey(rows, i) ensures TakenLast(ks.replica, msg.source, rows, rows[i]) {
        LastStored(f, ks, msg, rows, i);
        BatchKeyAgreesIff(f, ks, msg, rows, i);
      }
    }
  }

  /** From the same contents, storage and memory have the same contents after a message exactly when
  memory takes what storage is told to write. */
  lemma StepAgreesIff(f: nat, ks: Keyspace, msg: Msg)
    requires |ks.replica.seen| > 0 && ks.rows == ks.replica.recs
    ensures Step(f, ks, msg).rows == Step(f, ks, msg).replica.recs <==> Taken(f, ks, msg)
  {
    match msg
    case Single(source, row, stored, now) => SingleAgreesIff(f, ks, msg);
    case Batch(source, docs, done, now) =>
      BatchAgreesIff(f, ks, msg);
      hide Step, Written, LastIsTaken;
    case Sweep(done) =>
      hide Before;
  }

  lemma SingleAgreesIff(f: nat, ks: Keyspace, msg: Msg)
    requires |ks.replica.seen| > 0 && ks.rows == ks.replica.recs && msg.Single?
    ensures Step(f, ks, msg).rows == Step(f, ks, msg).replica.recs <==> Taken(f, ks, msg)
  {
    var k, rec, after := msg.row.key, msg.row.rec, Step(f, ks, msg);
    hide Before;
    if WillApply(f, ks.replica, k, rec.ts) && msg.stored {
      assert At(after.rows, k) == Some(rec);
      if Admits(ks.replica, Op(msg.source, k, rec)) {
        assert after.replica.recs == ks.replica.recs[k := rec];
      } else {
        assert At(after.replica.recs, k) != Some(rec);
      }
    }
  }

  /** If everything a message carries is admitted, storage and memory stay the same. */
  lemma StepAgrees(f: nat, ks: Keyspace, msg: Msg)
    requires |ks.replica.seen| > 0 && ks.rows == ks.replica.recs
    requires NewestLast(Docs(msg)) && AllAdmitted(ks.replica, msg)
    ensures Step(f, ks, msg).rows == Step(f, ks, msg).replica.recs
  {
    if msg.Single? {
      assert msg.row in Docs(msg);
    }
    if msg.Batch? {
      NewestLastIsEnough(f, ks, msg);
      SameRows(f, ks, msg);
      var rows := Written(f, ks, msg);
      NewestOutranks(ks.replica, msg.source, rows);
      hide Written, OutranksAdmitted, Admits, LastIsNewest;
      forall i | 0 <= i < |rows| && LastOfKey(rows, i) ensures Admits(ks.replica, Op(msg.source, rows[i].key, rows[i].rec)) {
        assert rows[i] in rows && rows[i] in Docs(msg);
      }
      assert LastIsTaken(ks.replica, msg.source, rows);
    }
    hide Step, WillApply, LastIsTaken, Written;
    StepAgreesIff(f, ks, msg);
  }

  /** The stamp `ts` was observed on source `s` with a document of message `i`. */
  ghost predicate CameWith(msgs: seq<Msg>, i: nat, s: nat, ts: Stamp) {
    i < |msgs| && !msgs[i].Sweep? && msgs[i].source == s && exists x :: x in Docs(msgs[i]) && x.rec.ts == ts
  }

  lemma StepSeen(f: nat, ks: Keyspace, msg: Msg, s: nat, n: NodeId)
    requires s < |ks.replica.seen|
    ensures var now := Seen(Step(f, ks, msg).replica.seen[s], n);
            now == Seen(ks.replica.seen[s], n) || (now.node == n && CameWith([msg], 0, s, now))
  {
    match msg
    case Single(source, row, stored, now) =>
      hide Before, Put;
      assert row in Docs(msg);
    case Batch(source, docs, done, now) =>
      BatchSeen(f, ks, msg, s, n);
    case Sweep(done) =>
      hide Before;
  }

  lemma BatchSeen(f: nat, ks: Keyspace, msg: Msg, s: nat, n: NodeId)
    requires s < |ks.replica.seen| && msg.Batch?
    ensures var now := Seen(Step(f, ks, msg).replica.seen[s], n);
            now == Seen(ks.replica.seen[s], n) || (now.node == n && CameWith([msg], 0, s, now))
  {
    var rows := Applied(f, ks, msg);
    assert Step(f, ks, msg).replica == Run(ks.replica, OpsOf(msg.source, rows));
    SameRows(f, ks, msg);
    hide Step, Run, Applied, Written;
    RowsSeen(ks.replica, msg.source, rows, s, n);
  }

  lemma RowsSeen(r: Replica, source: nat, rows: seq<Row>, s: nat, n: NodeId)
    requires s < |r.seen|
    ensures var now := Seen(Run(r, OpsOf(source, rows)).seen[s], n);
            now == Seen(r.seen[s], n) || (now.node == n && source == s && exists x :: x in rows && x.rec.ts == now)
  {
    var ops := OpsOf(source, rows);
    var after := Run(r, ops);
    SeenFrom(r, ops, s, n);
    hide Run;
    if Seen(after.seen[s], n) != Seen(r.seen[s], n) {
      var i :| 0 <= i < |ops| && ops[i].source == s && ops[i].rec.ts.node == n && ops[i].rec.ts == Seen(after.seen[s], n);
      assert rows[i] in rows;
    }
  }

  /** Whatever a source has observed from a node came with a document of the run. */
  lemma {:induction false} SeenFromDocs(f: nat, n: nat, start: Stamp, msgs: seq<Msg>, s: nat, node: NodeId)
    requires s < n
    ensures var now := Seen(Steps(f, Keyspace(Empty(n), map[], start), msgs).replica.seen[s], node);
            now == Zero(node) || (now.node == node && exists i: nat :: CameWith(msgs, i, s, now))
  {
    if msgs != [] {
      var last := |msgs| - 1;
      var before := Steps(f, Keyspace(Empty(n), map[], start), msgs[..last]);
      SeenFromDocs(f, n, start, msgs[..last], s, node);
      StepSeen(f, before, msgs[last], s, node);
      hide Step;
      var now := Seen(Steps(f, Keyspace(Empty(n), map[], start), msgs).replica.seen[s], node);
      if CameWith([msgs[last]], 0, s, now) {
        assert CameWith(msgs, last, s, now);
      } else if now != Zero(node) {
        var i: nat :| CameWith(msgs[..last], i, s, now);
        assert CameWith(msgs, i, s, now);
      }
    }
  }

  /** Under ordered delivery everything is admitted when its turn comes. */
  lemma OrderedIsAdmitted(f: nat, n: nat, start: Stamp, msgs: seq<Msg>, i: nat)
    requires n > 0 && i < |msgs| && OrderedDelivery(n, msgs)
    ensures AllAdmitted(Steps(f, Keyspace(Empty(n), map[], start), msgs[..i]).replica, msgs[i])
  {
    var r := Steps(f, Keyspace(Empty(n), map[], start), msgs[..i]).replica;
    if !msgs[i].Sweep? {
      forall y | y in Docs(msgs[i]) ensures Admits(r, Op(msgs[i].source, y.key, y.rec)) {
        SeenFromDocs(f, n, start, msgs[..i], msgs[i].source, y.rec.ts.node);
        hide Steps;
        LaterIsAdmitted(n, msgs, i, y, r);
      }
    }
  }

  lemma LaterIsAdmitted(n: nat, msgs: seq<Msg>, i: nat, y: Row, r: Replica)
    requires i < |msgs| && OrderedDelivery(n, msgs) && |r.seen| == n && !msgs[i].Sweep? && y in Docs(msgs[i])
    requires var now := Seen(r.seen[msgs[i].source], y.rec.ts.node);
             now == Zero(y.rec.ts.node)
             || (now.node == y.rec.ts.node && exists j: nat :: CameWith(msgs[..i], j, msgs[i].source, now))
    ensures Admits(r, Op(msgs[i].source, y.key, y.rec))
  {
    var now := Seen(r.seen[msgs[i].source], y.rec.ts.node);
    if now != Zero(y.rec.ts.node) {
      var j: nat :| CameWith(msgs[..i], j, msgs[i].source, now);
      var x :| x in Docs(msgs[j]) && x.rec.ts == now;
      assert x.rec.ts.AtMost(y.rec.ts);
    }
  }

  /** With ordered delivery, after every run of messages and whatever storage failed to do, storage
  and memory hold exactly the same. */
  lemma {:induction false} StorageAgrees(f: nat, n: nat, start: Stamp, msgs: seq<Msg>)
    requires n > 0 && NewestLastBatches(msgs) && OrderedDelivery(n, msgs)
    ensures var ks := Steps(f, Keyspace(Empty(n), map[], start), msgs);
            ks.rows == ks.replica.recs
  {
    if msgs != [] {
      var last := |msgs| - 1;
      StorageAgrees(f, n, start, msgs[..last]);
      OrderedIsAdmitted(f, n, start, msgs, last);
      hide Step, AllAdmitted;
      StepAgrees(f, Steps(f, Keyspace(Empty(n), map[], start), msgs[..last]), msgs[last]);
    }
  }

  /** Without it they need not: a document that comes late on one source is stored, because the safe
  stamp also waits for the other source, and ignored in memory. */
  lemma LateDocumentSplitsState(f: nat, start: Stamp)
    ensures var late, first := Live(Stamp(1, 0, 0)), Live(Stamp(2, 0, 0));
            var ks := Steps(f, Keyspace(Empty(2), map[], start),
                            [Single(0, Row(1, first), true, start), Single(0, Row(2, late), true, start)]);
            ks.rows == map[1 := first, 2 := late] && ks.replica.recs == map[1 := first]
  {
    var late, first := Live(Stamp(1, 0, 0)), Live(Stamp(2, 0, 0));
    var msgs := [Single(0, Row(1, first), true, start), Single(0, Row(2, late), true, start)];
    var ks0 := Keyspace(Empty(2), map[], start);
    assert msgs[..1][..0] == [];
    UnseenSourceBlocks(f, ks0.replica.seen, 1, first.ts);
    var ks1 := Steps(f, ks0, msgs[..1]);
    assert Steps(f, ks0, msgs[..1][..0]) == ks0;
    assert ks1 == Step(f, ks0, msgs[..1][0]);
    UnseenSourceBlocks(f, ks1.replica.seen, 1, late.ts);
    hide Before;
  }

  /* Loading. */

  /** Replaying the metadata rows of storage, sorted by timestamp, on the first source. */
  function Load(n: nat, listing: seq<Row>): Replica {
    Run(Empty(n), OpsOf(0, SortRows(listing)))
  }

  /** Loading any listing of the rows, in any order, rebuilds exactly the rows: the live ones as
  entries, the tombstones as tombstones. */
  lemma LoadRebuilds(n: nat, listing: seq<Row>, rows: map<Key, Rec>)
    requires n > 0 && Lists(listing, rows)
    ensures Load(n, listing).recs == rows
  {
    var r, sorted := Empty(n), SortRows(listing);
    var ops := OpsOf(0, sorted);
    SortLists(listing, rows);
    SortedInOrder(n, sorted);
    hide Run, InOrder, AdmittedAt, Lists, OpsOf, SortRows;
    InOrderImpliesAdmitted(r, ops);
    forall k ensures At(Run(r, ops).recs, k) == At(rows, k) {
      LoadedAt(r, sorted, ops, rows, k);
    }
    SameMap(Run(r, ops).recs, rows);
  }

  lemma SortedInOrder(n: nat, sorted: seq<Row>)
    requires n > 0 && SortedByStamp(sorted)
    ensures InOrder(Empty(n), OpsOf(0, sorted))
  {
  }

  lemma SortLists(listing: seq<Row>, rows: map<Key, Rec>)
    requires Lists(listing, rows)
    ensures Lists(SortRows(listing), rows)
  {
    var sorted := SortRows(listing);
    SortKeepsDistinct(listing);
    hide DistinctKeys, SortedByStamp;
    forall i | 0 <= i < |sorted| ensures sorted[i].key in rows && rows[sorted[i].key] == sorted[i].rec {
      assert sorted[i] in listing;
    }
  }

  lemma LoadedAt(r: Replica, sorted: seq<Row>, ops: seq<Op>, rows: map<Key, Rec>, k: Key)
    requires Lists(sorted, rows) && ops == OpsOf(0, sorted) && r.recs == map[]
    requires forall i :: 0 <= i < |ops| ==> AdmittedAt(r, ops, i)
    ensures At(Run(r, ops).recs, k) == At(rows, k)
  {
    hide Run, AdmittedAt;
    if k in rows {
      var i :| 0 <= i < |sorted| && sorted[i] == Row(k, rows[k]);
      KeyWrittenOnce(r, ops, i);
    } else {
      UntouchedKey(r, ops, k);
    }
  }

  /** A crash while a message is being handled: storage has done its part, memory is lost before or
  after doing its own. What is loaded from storage covers the lost memory either way, except for the
  tombstones a sweep has dropped. */
  lemma CrashRecovery(f: nat, n: nat, ks: Keyspace, msg: Msg, listing: seq<Row>)
    requires n > 0 && |ks.replica.seen| > 0 && NeverBehind(ks.replica.recs, ks.rows) && NewestLast(Docs(msg))
    requires Lists(listing, Step(f, ks, msg).rows)
    ensures NeverBehind(Step(f, ks, msg).replica.recs, Load(n, listing).recs)
    ensures !msg.Sweep? ==> NeverBehind(ks.replica.recs, Load(n, listing).recs)
    ensures msg.Sweep? ==> NeverBehind(Purge(f, ks.replica, {}).recs, Load(n, listing).recs)
  {
    LoadRebuilds(n, listing, Step(f, ks, msg).rows);
    StepKeepsStorageAhead(f, ks, msg);
    hide Load, Before;
    if msg.Batch? {
      NewestLastIsEnough(f, ks, msg);
      BatchCoversOld(f, ks, msg);
    }
  }

  lemma BatchCoversOld(f: nat, ks: Keyspace, msg: Msg)
    requires |ks.replica.seen| > 0 && msg.Batch? && NeverBehind(ks.replica.recs, ks.rows)
    ensures NeverBehind(ks.replica.recs, Step(f, ks, msg).rows)
  {
    var after, rows := Step(f, ks, msg).rows, Written(f, ks, msg);
    forall k | k in ks.replica.recs ensures k in after && AsNew(after[k], ks.replica.recs[k]) {
      BatchStores(f, ks, msg, k);
      SameRows(f, ks, msg);
      hide Step, Written;
      if exists x :: x in rows && x.key == k {
        var i :| 0 <= i < |rows| && rows[i].key == k && LastOfKey(rows, i) && At(after, k) == Some(rows[i].rec);
        assert rows[i] in rows;
      }
    }
  }

  /** A loaded set, and whatever is then delivered on the first source, has nothing to purge until
  another source has observed something. */
  lemma LoadedPurgesNothing(f: nat, n: nat, listing: seq<Row>, ops: seq<Op>, k: Key)
    requires n > 1 && forall i :: 0 <= i < |ops| ==> ops[i].source == 0
    ensures !Purgeable(f, Run(Load(n, listing), ops), k)
  {
    var r := Run(Load(n, listing), ops);
    if k in r.recs {
      var node := r.recs[k].ts.node;
      OtherSourceEmpty(Empty(n), OpsOf(0, SortRows(listing)), 1);
      OtherSourceEmpty(Load(n, listing), ops, 1);
      UnseenSourceBlocks(f, r.seen, 1, r.recs[k].ts);
    }
  }

  lemma {:induction false} OtherSourceEmpty(r: Replica, ops: seq<Op>, s: nat)
    requires s < |r.seen| && r.seen[s] == map[] && forall i :: 0 <= i < |ops| ==> ops[i].source != s
    ensures Run(r, ops).seen[s] == map[]
  {
    if ops != [] {
      OtherSourceEmpty(r, ops[..|ops| - 1], s);
    }
  }
}
