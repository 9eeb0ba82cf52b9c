/** From the remote's records to the local set: polling, fetching and repairing taken together. */
module EndToEnd {
  import opened Hlc
  import opened Records
  import opened Replicas
  import opened Convergence
  import opened Repairing
  import opened Polling

  /** The local side of a sync: the set when `diff` was taken, and the batches that were applied. */
  datatype Repair = Repair(local: Replica, source: nat, batches: seq<seq<Op>>)

  /** The snapshot that is being synced. */
  function Snapshot(w: World, n: Name): Replica {
    Replica(if n in w.fetches && w.fetches[n].Got? then w.fetches[n].recs else map[], [])
  }

  /** The batches bring in what `diff` reports about the snapshot, each in time order. */
  ghost predicate IsRepair(f: nat, r: Repair, other: Replica) {
    |r.local.seen| > 0 && Repairs(f, r.local, other, r.source, Flat(r.batches))
    && forall b :: 0 <= b < |r.batches| ==> Sorted(r.batches[b])
  }

  /** The source admits all of it, and no batch is newer than a later one for the same node. */
  ghost predicate InTime(f: nat, r: Repair, other: Replica)
    requires |r.local.seen| > 0
  {
    (forall k :: k in Diff(f, r.local, other) ==> Admits(r.local, Op(r.source, k, other.recs[k])))
    && BatchesInOrder(r.batches)
  }

  /** After the sync the local set holds something at least as new at the key. */
  predicate Arrives(r: Repair, row: Row) {
    var after := Run(r.local, Flat(r.batches)).recs;
    row.key in after && !after[row.key].ts.Less(row.rec.ts)
  }

  lemma {:induction false} RunKeepsCover(r: Replica, ops: seq<Op>, k: Key, rec: Rec)
    requires Covers(r.recs, k, rec)
    ensures Covers(Run(r, ops).recs, k, rec)
  {
    if ops != [] {
      RunKeepsCover(r, ops[..|ops| - 1], k, rec);
      ApplyCovers(Run(r, ops[..|ops| - 1]), ops[|ops| - 1], k, rec);
    }
  }

  /** A sync brings in every record of the snapshot, but for those held back behind the safe stamp,
  exactly when its batches come in time. */
  lemma SyncArrivesIff(f: nat, r: Repair, other: Replica)
    requires IsRepair(f, r, other)
    ensures (forall k :: k in other.recs && !HeldBack(f, r.local, other, k) ==> Arrives(r, Row(k, other.recs[k])))
            <==> InTime(f, r, other)
  {
    BatchedRepairIff(f, r.local, other, r.source, r.batches);
    forall k | k in other.recs && !HeldBack(f, r.local, other, k)
      ensures k in Diff(f, r.local, other) ==>
                (Arrives(r, Row(k, other.recs[k])) <==> Covers(Run(r.local, Flat(r.batches)).recs, k, other.recs[k]))
      ensures k !in Diff(f, r.local, other) ==> Arrives(r, Row(k, other.recs[k]))
    {
      ArrivesAt(f, r, other, k);
    }
    forall k | k in Diff(f, r.local, other) ensures !HeldBack(f, r.local, other, k) {
      hide Before;
    }
    hide Diff, HeldBack, Arrives, Covers, Run, Flat, IsRepair, BatchesInOrder, Admits;
  }

  lemma ArrivesAt(f: nat, r: Repair, other: Replica, k: Key)
    requires IsRepair(f, r, other) && k in other.recs && !HeldBack(f, r.local, other, k)
    ensures k in Diff(f, r.local, other) ==>
              (Arrives(r, Row(k, other.recs[k])) <==> Covers(Run(r.local, Flat(r.batches)).recs, k, other.recs[k]))
    ensures k !in Diff(f, r.local, other) ==> Arrives(r, Row(k, other.recs[k]))
  {
    var ops, rec := Flat(r.batches), other.recs[k];
    if k in Diff(f, r.local, other) {
      var i :| 0 <= i < |ops| && ops[i].key == k;
      KeyWrittenOnce(r.local, ops, i);
      assert At(Run(r.local, ops).recs, k) == Some(rec) || At(Run(r.local, ops).recs, k) == At(r.local.recs, k);
      hide Run, Flat, Before, AdmittedAt, IsRepair;
    } else {
      hide Before, Run, Flat, IsRepair;
      RunKeepsCover(r.local, ops, k, r.local.recs[k]);
    }
  }

  /** Every successful sync of a run has its repair. */
  ghost predicate Repaired(f: nat, ws: seq<World>, es: seq<Event>, repairs: seq<Repair>) {
    |ws| == |es| + 1 && |repairs| == |es|
    && forall i :: 0 <= i < |es| && es[i].Sync? && es[i].ok ==> IsRepair(f, repairs[i], Snapshot(ws[i], es[i].name))
  }

  /** Whenever the tracked stamp is the remote's, so that no poll reports the keyspace, every record the
  remote holds was in a snapshot whose sync succeeded. The sync left the local set with something at
  least as new, or `diff` had held the record back, provided that the batches of the successful syncs
  came in time; if those of a sync did not, the sync missed a record it was told about. */
  lemma TrackedRecordsArrive(f: nat, ws: seq<World>, es: seq<Event>, repairs: seq<Repair>, name: Name, k: Key)
    returns (i: nat)
    requires Trace(f, ws, es) && AllSafe(ws, es) && Repaired(f, ws, es, repairs)
    requires var w := ws[|es|];
             name in w.spaces && At(w.tracker, name) == Some(w.spaces[name].cell)
             && k in w.spaces[name].ks.replica.recs
    ensures i < |es| && es[i] == Sync(name, true)
    ensures var other, rec := Snapshot(ws[i], name), ws[|es|].spaces[name].ks.replica.recs[k];
            At(other.recs, k) == Some(rec) && IsRepair(f, repairs[i], other)
            && (InTime(f, repairs[i], other) ==>
                  Arrives(repairs[i], Row(k, rec)) || HeldBack(f, repairs[i].local, other, k))
  {
    var row := Row(k, ws[|es|].spaces[name].ks.replica.recs[k]);
    NoLostUpdate(f, ws, es, name, k);
    i :| 0 <= i < |es| && i < |ws| && es[i] == Sync(name, true) && (name, row) in Fetched(ws[i], name);
    var other := Snapshot(ws[i], name);
    assert At(other.recs, k) == Some(row.rec);
    assert IsRepair(f, repairs[i], other);
    hide Trace, AllSafe, Fetched, Snapshot, InTime, Arrives, HeldBack, IsRepair;
    SyncArrivesIff(f, repairs[i], other);
  }
}
