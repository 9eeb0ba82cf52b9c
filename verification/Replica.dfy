/** The set of datacake-crdt/src/orswot.rs as a value: what it promises, without its tables.

A replica holds at most one record a key and, for every source, the largest timestamp observed
from each node. The safe stamps are not part of it: they are a function of the observed ones. */
module Replicas {
  import opened Hlc
  import opened Records

  type Stamps = map<NodeId, Stamp>

  datatype Replica = Replica(recs: map<Key, Rec>, seen: seq<Stamps>)

  /** An insert (a `Live` record) or a delete (a `Dead` one) delivered on a source. */
  datatype Op = Op(source: nat, key: Key, rec: Rec)

  function Empty(n: nat): Replica { Replica(map[], seq(n, i => map[])) }

  /** The largest stamp observed from a node; a node never seen counts as `new(0, 0, node)`. */
  function Seen(stamps: Stamps, n: NodeId): Stamp { if n in stamps then stamps[n] else Zero(n) }

  function MinSeen(seen: seq<Stamps>, n: NodeId): (m: Stamp)
    requires |seen| > 0
    ensures forall s :: 0 <= s < |seen| ==> m.AtMost(Seen(seen[s], n))
    ensures exists s :: 0 <= s < |seen| && m == Seen(seen[s], n)
  {
    var last := Seen(seen[|seen| - 1], n);
    if |seen| == 1 then last
    else
      var rest := MinSeen(seen[..|seen| - 1], n);
      if last.Less(rest) then last else rest
  }

  function SafeStamp(f: nat, seen: seq<Stamps>, n: NodeId): Stamp
    requires |seen| > 0
  {
    Shift(f, MinSeen(seen, n))
  }

  /** `is_ts_before_last_observed_event`. */
  predicate Before(f: nat, seen: seq<Stamps>, ts: Stamp)
    requires |seen| > 0
  {
    ts.Less(SafeStamp(f, seen, ts.node))
  }

  /** The stamp is not behind what this source has already observed from its node. */
  predicate Admits(r: Replica, op: Op) {
    op.source < |r.seen| && Seen(r.seen[op.source], op.rec.ts.node).AtMost(op.rec.ts)
  }

  function Observe(seen: seq<Stamps>, source: nat, ts: Stamp): seq<Stamps>
    requires source < |seen|
  {
    var stamps: Stamps := seen[source][ts.node := ts];
    seen[source := stamps]
  }

  /** An operation behind its source is ignored; any other is joined into its key. */
  function Apply(r: Replica, op: Op): Replica {
    if Admits(r, op)
    then Replica(Put(r.recs, op.key, op.rec), Observe(r.seen, op.source, op.rec.ts))
    else r
  }

  /** What `insert_with_source` and `delete_with_source` return. */
  predicate Accepted(r: Replica, op: Op) {
    Admits(r, op) && !Covers(r.recs, op.key, op.rec)
  }

  predicate WillApply(f: nat, r: Replica, k: Key, ts: Stamp)
    requires |r.seen| > 0
  {
    !Before(f, r.seen, ts) && (k in r.recs ==> r.recs[k].ts.Less(ts))
  }

  predicate Purgeable(f: nat, r: Replica, k: Key)
    requires |r.seen| > 0
  {
    k in r.recs && r.recs[k].Dead? && Before(f, r.seen, r.recs[k].ts)
  }

  /** A purge whose removals from storage failed for the keys in `keep`, which were re-added. */
  function Purge(f: nat, r: Replica, keep: set<Key>): Replica
    requires |r.seen| > 0
  {
    Replica(map k | k in r.recs && (Purgeable(f, r, k) ==> k in keep) :: r.recs[k], r.seen)
  }

  /** The record of `other` at `k`, with stamp `ts`, is one that `diff` reports. */
  predicate Wants(f: nat, r: Replica, k: Key, ts: Stamp)
    requires |r.seen| > 0
  {
    if k in r.recs then r.recs[k].ts.Less(ts) else !Before(f, r.seen, ts)
  }

  function Diff(f: nat, r: Replica, other: Replica): map<Key, Rec>
    requires |r.seen| > 0
  {
    map k | k in other.recs && Wants(f, r, k, other.recs[k].ts) :: other.recs[k]
  }

  function MaxStamps(a: Stamps, b: Stamps): Stamps {
    map n | n in a.Keys + b.Keys :: if n !in b || (n in a && b[n].Less(a[n])) then a[n] else b[n]
  }

  function MergeSeen(a: seq<Stamps>, b: seq<Stamps>): seq<Stamps>
    requires |a| == |b|
  {
    seq(|a|, i requires 0 <= i < |a| => MaxStamps(a[i], b[i]))
  }

  /** What the other set contributes at a key: only its deletes are checked against the safe stamp. */
  function Incoming(f: nat, r: Replica, other: Replica, k: Key): Option<Rec>
    requires |r.seen| > 0
  {
    if k in other.recs && other.recs[k].Dead? && Before(f, r.seen, other.recs[k].ts) then None
    else At(other.recs, k)
  }

  /** What the set keeps of its own: an entry the other set does not hold as an entry is dropped if
  the other set has observed it. */
  function Kept(f: nat, r: Replica, other: Replica, k: Key): Option<Rec>
    requires |other.seen| > 0
  {
    if k in r.recs && r.recs[k].Live? && !(k in other.recs && other.recs[k].Live?)
       && Before(f, other.seen, r.recs[k].ts)
    then None
    else At(r.recs, k)
  }

  function MergedRec(f: nat, r: Replica, other: Replica, k: Key): Option<Rec>
    requires |r.seen| > 0 && |other.seen| > 0
  {
    JoinOpt(Kept(f, r, other, k), Incoming(f, r, other, k))
  }

  /** `merge`: key by key, the join of what is kept and what comes in. */
  function Merge(f: nat, r: Replica, other: Replica): Replica
    requires |r.seen| == |other.seen| > 0
  {
    Replica(
      map k | k in r.recs.Keys + other.recs.Keys && MergedRec(f, r, other, k).Some? ::
        MergedRec(f, r, other, k).value,
      MergeSeen(r.seen, other.seen))
  }

  lemma MergeAt(f: nat, r: Replica, other: Replica, k: Key)
    requires |r.seen| == |other.seen| > 0
    ensures At(Merge(f, r, other).recs, k) == MergedRec(f, r, other, k)
  {
    hide Before;
  }

  /** Every observed stamp is filed under its own node. */
  ghost predicate WellFiled(seen: seq<Stamps>) {
    |seen| > 0
    && forall s, n :: 0 <= s < |seen| && n in seen[s] ==> seen[s][n].node == n
  }

  /** The minimum depends only on what the sources have seen from the node. */
  lemma {:induction false} MinSeenFrame(a: seq<Stamps>, b: seq<Stamps>, n: NodeId)
    requires |a| == |b| > 0
    requires forall s :: 0 <= s < |a| ==> Seen(a[s], n) == Seen(b[s], n)
    ensures MinSeen(a, n) == MinSeen(b, n)
  {
    if |a| > 1 {
      MinSeenFrame(a[..|a| - 1], b[..|b| - 1], n);
    }
  }

  /** The safe stamp never exceeds any source's stamp. */
  lemma SafeBelowEverySource(f: nat, seen: seq<Stamps>, n: NodeId, source: nat)
    requires |seen| > 0 && source < |seen|
    ensures SafeStamp(f, seen, n).AtMost(Seen(seen[source], n))
  {
    var m := MinSeen(seen, n);
    assert Shift(f, m).AtMost(m);
  }

  /** While some source has observed nothing from a node, none of the node's stamps is behind the
  safe stamp, so none of its tombstones can be purged. */
  lemma UnseenSourceBlocks(f: nat, seen: seq<Stamps>, source: nat, ts: Stamp)
    requires |seen| > 0 && source < |seen| && ts.node !in seen[source]
    ensures !Before(f, seen, ts)
  {
    SafeBelowEverySource(f, seen, ts.node, source);
  }

  /** Exactly when an operation takes effect, in terms of `will_apply` and the source's stamp. An
  insert also succeeds on a tombstone with its own timestamp, which `will_apply` denies. */
  lemma AcceptanceOracle(f: nat, r: Replica, op: Op)
    requires op.source < |r.seen|
    ensures op.rec.Dead? ==>
              (Accepted(r, op) <==> WillApply(f, r, op.key, op.rec.ts) && Admits(r, op))
    ensures op.rec.Live? ==>
              (Accepted(r, op) <==>
               Admits(r, op)
               && (WillApply(f, r, op.key, op.rec.ts) || (op.key in r.recs && r.recs[op.key] == Dead(op.rec.ts))))
    ensures !Accepted(r, op) ==> Apply(r, op).recs == r.recs
    ensures Accepted(r, op) ==> Apply(r, op).recs == r.recs[op.key := op.rec]
  {
    SafeBelowEverySource(f, r.seen, op.rec.ts.node, op.source);
  }

  /** A call that returns false leaves the records alone, but the set only if its source refused the
  stamp or had already observed exactly that stamp. */
  lemma FalseCallChangesNothingIff(r: Replica, op: Op)
    requires op.source < |r.seen| && !Accepted(r, op)
    ensures Apply(r, op) == r <==> !Admits(r, op) || At(r.seen[op.source], op.rec.ts.node) == Some(op.rec.ts)
  {
    if Admits(r, op) {
      var stamps: Stamps := r.seen[op.source][op.rec.ts.node := op.rec.ts];
      assert Apply(r, op).recs == r.recs && Apply(r, op).seen[op.source] == stamps;
      assert r.seen[op.source] == stamps <==> At(r.seen[op.source], op.rec.ts.node) == Some(op.rec.ts);
    }
  }

  /* The safe stamp, source by source. */

  /** Every source has seen the node past the stamp by the forgiveness period. A node that some source
  has seen for less than the period counts from the epoch, with the counter of its smallest stamp. */
  ghost predicate PassedBy(f: nat, seen: seq<Stamps>, ts: Stamp) {
    if forall s :: 0 <= s < |seen| ==> f <= Seen(seen[s], ts.node).time
    then forall s :: 0 <= s < |seen| ==> Stamp(ts.time + f, ts.counter, ts.node).Less(Seen(seen[s], ts.node))
    else exists s :: IsSmallest(seen, ts.node, s) && ts.Less(Seen(seen[s], ts.node).(time := 0))
  }

  ghost predicate IsSmallest(seen: seq<Stamps>, n: NodeId, s: int) {
    0 <= s < |seen| && forall t :: 0 <= t < |seen| ==> Seen(seen[s], n).AtMost(Seen(seen[t], n))
  }

  lemma ShiftedIff(f: nat, m: Stamp, ts: Stamp)
    ensures f <= m.time ==> (ts.Less(Shift(f, m)) <==> Stamp(ts.time + f, ts.counter, ts.node).Less(m))
    ensures m.time < f ==> (ts.Less(Shift(f, m)) <==> ts.Less(m.(time := 0)))
  {
  }

  /** What `is_ts_before_last_observed_event` means for the observed stamps. */
  lemma BeforeIff(f: nat, seen: seq<Stamps>, ts: Stamp)
    requires |seen| > 0
    ensures Before(f, seen, ts) <==> PassedBy(f, seen, ts)
  {
    var m := MinSeen(seen, ts.node);
    var s :| 0 <= s < |seen| && m == Seen(seen[s], ts.node);
    ShiftedIff(f, m, ts);
    assert IsSmallest(seen, ts.node, s);
    hide MinSeen, Shift;
    if m.time < f {
      assert !(f <= Seen(seen[s], ts.node).time);
      forall t | IsSmallest(seen, ts.node, t) ensures Seen(seen[t], ts.node).time == m.time && Seen(seen[t], ts.node).counter == m.counter
                                              ensures Seen(seen[t], ts.node).node == m.node
      {
      }
    }
  }

  /** Exactly the tombstones of which every source has seen the node past the period are purged, but for
  those that are put back. */
  lemma PurgedIff(f: nat, r: Replica, keep: set<Key>, k: Key)
    requires |r.seen| > 0
    ensures Purge(f, r, keep).seen == r.seen
    ensures At(Purge(f, r, keep).recs, k)
            == if k in r.recs && r.recs[k].Dead? && PassedBy(f, r.seen, r.recs[k].ts) && k !in keep then None else At(r.recs, k)
  {
    if k in r.recs {
      BeforeIff(f, r.seen, r.recs[k].ts);
    }
    hide Before, PassedBy;
  }

  /** `will_apply` refuses exactly what every source has passed and what is not newer than the record. */
  lemma WillApplyIff(f: nat, r: Replica, k: Key, ts: Stamp)
    requires |r.seen| > 0
    ensures WillApply(f, r, k, ts) <==> !PassedBy(f, r.seen, ts) && forall rec :: At(r.recs, k) == Some(rec) ==> rec.ts.Less(ts)
  {
    BeforeIff(f, r.seen, ts);
    hide Before, PassedBy;
  }

  /** The merged stamps: for every source and node one of the two observed, and the larger. */
  lemma MergedStamp(f: nat, a: Replica, b: Replica, s: nat, n: NodeId)
    requires |a.seen| == |b.seen| > 0 && s < |a.seen|
    ensures var m := At(Merge(f, a, b).seen[s], n);
            (m == At(a.seen[s], n) || m == At(b.seen[s], n))
            && (n in a.seen[s] ==> m.Some? && a.seen[s][n].AtMost(m.value))
            && (n in b.seen[s] ==> m.Some? && b.seen[s][n].AtMost(m.value))
    ensures |Merge(f, a, b).seen| == |a.seen|
  {
    hide MergedRec;
  }
}
