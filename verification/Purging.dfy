/** Purging tombstones: it shows nowhere, unless something older than a dropped tombstone comes late. */
module Purging {
  import opened Hlc
  import opened Records
  import opened Replicas
  import opened Convergence

  /** What can happen to a replica: an insert or a delete, a purge that keeps the tombstones storage
  failed to remove, or a merge with another replica. */
  datatype Step = Write(op: Op) | Drop(keep: set<Key>) | Absorb(other: Replica)

  function Next(f: nat, r: Replica, step: Step): Replica
    requires |r.seen| > 0
  {
    match step
    case Write(op) => Apply(r, op)
    case Drop(keep) => Purge(f, r, keep)
    case Absorb(other) => if |other.seen| == |r.seen| then Merge(f, r, other) else r
  }

  function Continue(f: nat, r: Replica, steps: seq<Step>): (after: Replica)
    requires |r.seen| > 0
    ensures |after.seen| == |r.seen|
  {
    if steps == [] then r else Next(f, Continue(f, r, steps[..|steps| - 1]), steps[|steps| - 1])
  }

  /** The replicas merged in file their stamps under their own nodes, as every reachable one does. */
  ghost predicate MergesFiled(steps: seq<Step>) {
    forall i :: 0 <= i < |steps| && steps[i].Absorb? ==> WellFiled(steps[i].other.seen)
  }

  lemma StepStaysFiled(f: nat, r: Replica, step: Step)
    requires WellFiled(r.seen) && (step.Absorb? ==> WellFiled(step.other.seen))
    ensures WellFiled(Next(f, r, step).seen)
  {
    hide Before, Put, MergedRec, Purgeable;
    if step.Absorb? && |step.other.seen| == |r.seen| {
      var seen: seq<Stamps> := MergeSeen(r.seen, step.other.seen);
      assert Next(f, r, step).seen == seen;
      forall s, n | 0 <= s < |seen| && n in seen[s] ensures seen[s][n].node == n {
        assert seen[s][n] == MaxStamps(r.seen[s], step.other.seen[s])[n];
      }
    }
  }

  /** Every reachable replica files its stamps under their nodes. */
  lemma {:induction false} ReachableIsWellFiled(f: nat, n: nat, steps: seq<Step>)
    requires n > 0 && MergesFiled(steps)
    ensures WellFiled(Continue(f, Empty(n), steps).seen)
  {
    if steps != [] {
      ReachableIsWellFiled(f, n, steps[..|steps| - 1]);
      hide Next, WellFiled;
      StepStaysFiled(f, Continue(f, Empty(n), steps[..|steps| - 1]), steps[|steps| - 1]);
    }
  }

  /** No step takes back what a source has observed. */
  lemma StepKeepsSeen(f: nat, r: Replica, step: Step, s: nat, n: NodeId)
    requires s < |r.seen| && (step.Absorb? ==> WellFiled(step.other.seen))
    ensures Seen(r.seen[s], n).AtMost(Seen(Next(f, r, step).seen[s], n))
  {
    hide Before, Put, MergedRec, Purgeable;
    if step.Absorb? && |step.other.seen| == |r.seen| {
      assert Next(f, r, step).seen[s] == MaxStamps(r.seen[s], step.other.seen[s]);
    }
  }

  lemma {:induction false} SeenNeverGoesBack(f: nat, r: Replica, steps: seq<Step>, s: nat, n: NodeId)
    requires s < |r.seen| && MergesFiled(steps)
    ensures Seen(r.seen[s], n).AtMost(Seen(Continue(f, r, steps).seen[s], n))
  {
    if steps != [] {
      var last := |steps| - 1;
      SeenNeverGoesBack(f, r, steps[..last], s, n);
      hide Next;
      StepKeepsSeen(f, Continue(f, r, steps[..last]), steps[last], s, n);
    }
  }

  /** A tombstone that may be purged is strictly behind what every source has seen from its node. */
  lemma PurgeableIsBehind(f: nat, r: Replica, k: Key, s: nat)
    requires s < |r.seen| && Purgeable(f, r, k)
    ensures r.recs[k].ts.Less(Seen(r.seen[s], r.recs[k].ts.node))
  {
    SafeBelowEverySource(f, r.seen, r.recs[k].ts.node, s);
  }

  /** No resurrection by the tombstone's own node: once a purge may drop a tombstone, in every
  continuation no call on any source with the node of the tombstone and a stamp at or below it is
  admitted, let alone accepted. */
  lemma {:induction false} NoResurrection(f: nat, r: Replica, k: Key, steps: seq<Step>, op: Op)
    requires |r.seen| > 0 && Purgeable(f, r, k) && MergesFiled(steps)
    requires op.rec.ts.node == r.recs[k].ts.node && op.rec.ts.AtMost(r.recs[k].ts)
    ensures !Admits(Continue(f, r, steps), op)
  {
    if op.source < |r.seen| {
      PurgeableIsBehind(f, r, k, op.source);
      SeenNeverGoesBack(f, r, steps, op.source, op.rec.ts.node);
    }
  }

  /* A run with purges next to the same run without. */

  /** The step in the run without purges. */
  function NextUnpurged(f: nat, r: Replica, step: Step): Replica
    requires |r.seen| > 0
  {
    if step.Drop? then r else Next(f, r, step)
  }

  function ContinueUnpurged(f: nat, r: Replica, steps: seq<Step>): (after: Replica)
    requires |r.seen| > 0
    ensures |after.seen| == |r.seen|
  {
    if steps == [] then r
    else NextUnpurged(f, ContinueUnpurged(f, r, steps[..|steps| - 1]), steps[|steps| - 1])
  }

  /** The purged replica `p` has lost a tombstone that `u` still holds: it holds nothing at the key, or
  an older tombstone that a merge has brought in since. */
  predicate Lags(p: Replica, u: Replica, k: Key) {
    k in u.recs && u.recs[k].Dead?
    && (k in p.recs ==> p.recs[k].Dead? && p.recs[k].ts.Less(u.recs[k].ts))
  }

  /** `u` is `p` but for the lost tombstones, each of which is behind every source. */
  ghost predicate Twins(p: Replica, u: Replica) {
    p.seen == u.seen
    && (forall k :: At(p.recs, k) == At(u.recs, k) || Lags(p, u, k))
    && (forall k, s :: Lags(p, u, k) && 0 <= s < |u.seen| ==>
          u.recs[k].ts.Less(Seen(u.seen[s], u.recs[k].ts.node)))
  }

  /** The record is older than the lost tombstone of its key, and news to the purged replica. */
  predicate Straggler(p: Replica, u: Replica, k: Key, rec: Rec) {
    Lags(p, u, k) && rec.ts.Less(u.recs[k].ts) && !Covers(p.recs, k, rec)
  }

  /** The other replica holds such a record as an entry. Entries are merged in without a check against
  the safe stamp. */
  predicate MergesStraggler(p: Replica, u: Replica, other: Replica, k: Key) {
    k in other.recs && other.recs[k].Live? && Straggler(p, u, k, other.recs[k])
  }

  /** The step brings back something older than a lost tombstone. */
  ghost predicate Straggles(p: Replica, u: Replica, step: Step) {
    match step
    case Write(op) => Admits(u, op) && Straggler(p, u, op.key, op.rec)
    case Drop(_) => false
    case Absorb(other) => |other.seen| == |u.seen| && exists k :: MergesStraggler(p, u, other, k)
  }

  predicate SameEntry(p: Replica, u: Replica, k: Key) {
    (k in p.recs && p.recs[k].Live?) == (k in u.recs && u.recs[k].Live?)
    && (k in p.recs && p.recs[k].Live? ==> p.recs[k] == u.recs[k])
  }

  /** The step shows no difference: a call returns the same, and the entries are the same after it. */
  ghost predicate ShowsNothing(f: nat, p: Replica, u: Replica, step: Step)
    requires |p.seen| > 0 && |u.seen| > 0
  {
    (step.Write? ==> Accepted(p, step.op) == Accepted(u, step.op))
    && forall k :: SameEntry(Next(f, p, step), NextUnpurged(f, u, step), k)
  }

  lemma TwinsShareEntries(p: Replica, u: Replica)
    requires Twins(p, u)
    ensures forall k :: SameEntry(p, u, k)
  {
    forall k ensures SameEntry(p, u, k) {
      assert At(p.recs, k) == At(u.recs, k) || Lags(p, u, k);
    }
  }

  lemma TwinsAfterPurge(f: nat, p: Replica, u: Replica, keep: set<Key>)
    requires |p.seen| > 0 && Twins(p, u)
    ensures Twins(Purge(f, p, keep), u)
    ensures forall k :: Lags(Purge(f, p, keep), u, k) ==> Lags(p, u, k) || (k !in keep && Purgeable(f, p, k) && p.recs[k] == u.recs[k])
  {
    var p' := Purge(f, p, keep);
    assert p'.seen == p.seen;
    forall k ensures At(p'.recs, k) == At(u.recs, k) || Lags(p', u, k) {
      assert At(p.recs, k) == At(u.recs, k) || Lags(p, u, k);
    }
    forall k | Lags(p', u, k) ensures Lags(p, u, k) || (k !in keep && Purgeable(f, p, k) && p.recs[k] == u.recs[k]) {
      assert At(p.recs, k) == At(u.recs, k) || Lags(p, u, k);
    }
    forall k, s | Lags(p', u, k) && 0 <= s < |u.seen| ensures u.recs[k].ts.Less(Seen(u.seen[s], u.recs[k].ts.node)) {
      if !Lags(p, u, k) {
        PurgeableIsBehind(f, p, k, s);
      }
    }
  }

  /** The results of one call agree exactly when the call is not a straggler that gets admitted. */
  lemma PurgeShowsIff(p: Replica, u: Replica, op: Op)
    requires Twins(p, u)
    ensures Accepted(p, op) == Accepted(u, op) <==> !(Admits(u, op) && Straggler(p, u, op.key, op.rec))
  {
    var k := op.key;
    assert At(p.recs, k) == At(u.recs, k) || Lags(p, u, k);
    if Lags(p, u, k) && Admits(u, op) {
      assert u.recs[k].ts.Less(Seen(u.seen[op.source], u.recs[k].ts.node));
    }
  }

  /** What a call that is no straggler leaves at its key. */
  lemma WriteAt(p: Replica, u: Replica, op: Op)
    requires Twins(p, u) && Admits(u, op) && !Straggler(p, u, op.key, op.rec)
    ensures var p', u' := Apply(p, op), Apply(u, op);
            At(p'.recs, op.key) == At(u'.recs, op.key)
            || (Lags(p', u', op.key) && Lags(p, u, op.key) && u'.recs[op.key] == u.recs[op.key])
  {
    PurgeShowsIff(p, u, op);
    assert At(p.recs, op.key) == At(u.recs, op.key) || Lags(p, u, op.key);
  }

  lemma TwinsAfterWrite(p: Replica, u: Replica, op: Op)
    requires Twins(p, u) && !(Admits(u, op) && Straggler(p, u, op.key, op.rec))
    ensures Twins(Apply(p, op), Apply(u, op))
    ensures forall k :: Lags(Apply(p, op), Apply(u, op), k) ==> Lags(p, u, k) && Apply(u, op).recs[k] == u.recs[k]
  {
    if Admits(u, op) {
      var p', u' := Apply(p, op), Apply(u, op);
      WriteAt(p, u, op);
      forall k ensures At(p'.recs, k) == At(u'.recs, k) || (Lags(p', u', k) && Lags(p, u, k) && u'.recs[k] == u.recs[k]) {
        assert At(p.recs, k) == At(u.recs, k) || Lags(p, u, k);
      }
      hide Put;
      StillBehind(p, u, p', u', op);
    }
  }

  lemma StillBehind(p: Replica, u: Replica, p': Replica, u': Replica, op: Op)
    requires Twins(p, u) && u' == Apply(u, op) && p'.seen == u'.seen
    requires forall k :: At(p'.recs, k) == At(u'.recs, k) || (Lags(p', u', k) && Lags(p, u, k) && u'.recs[k] == u.recs[k])
    ensures Twins(p', u')
  {
    forall k, s | Lags(p', u', k) && 0 <= s < |u'.seen| ensures u'.recs[k].ts.Less(Seen(u'.seen[s], u'.recs[k].ts.node)) {
      SeenAfter(u, op, s, u.recs[k].ts.node);
    }
  }

  /** What a merge leaves at a key of twins: the same entry exactly when it is no straggler, and then
  twins again. */
  lemma MergeTwinAt(f: nat, p: Replica, u: Replica, other: Replica, k: Key)
    requires Twins(p, u) && |other.seen| == |u.seen| > 0
    ensures var p', u' := Merge(f, p, other), Merge(f, u, other);
            (SameEntry(p', u', k) <==> !MergesStraggler(p, u, other, k))
            && (!MergesStraggler(p, u, other, k) ==>
                  At(p'.recs, k) == At(u'.recs, k)
                  || (Lags(p', u', k) && Lags(p, u, k) && u'.recs[k] == u.recs[k]))
  {
    assert At(p.recs, k) == At(u.recs, k) || Lags(p, u, k);
    MergeAt(f, p, other, k);
    MergeAt(f, u, other, k);
    var pk, uk := At(Merge(f, p, other).recs, k), At(Merge(f, u, other).recs, k);
    assert Incoming(f, p, other, k) == Incoming(f, u, other, k);
    hide Merge, Before, Twins;
  }

  lemma TwinsAfterMerge(f: nat, p: Replica, u: Replica, other: Replica)
    requires Twins(p, u) && |other.seen| == |u.seen| > 0 && WellFiled(other.seen)
    requires forall k :: !MergesStraggler(p, u, other, k)
    ensures Twins(Merge(f, p, other), Merge(f, u, other))
    ensures forall k :: Lags(Merge(f, p, other), Merge(f, u, other), k) ==>
              Lags(p, u, k) && Merge(f, u, other).recs[k] == u.recs[k]
  {
    var p', u' := Merge(f, p, other), Merge(f, u, other);
    assert p'.seen == u'.seen && |u'.seen| == |u.seen|;
    assert u' == Next(f, u, Absorb(other));
    forall k ensures At(p'.recs, k) == At(u'.recs, k) || (Lags(p', u', k) && Lags(p, u, k) && u'.recs[k] == u.recs[k]) {
      MergeTwinAt(f, p, u, other, k);
      hide Merge, MergesStraggler, Lags;
    }
    hide Merge;
    forall k, s | Lags(p', u', k) && 0 <= s < |u'.seen| ensures u'.recs[k].ts.Less(Seen(u'.seen[s], u'.recs[k].ts.node)) {
      StepKeepsSeen(f, u, Absorb(other), s, u.recs[k].ts.node);
    }
  }

  /** A step of twins shows nothing exactly when nothing straggles, and then they stay twins. */
  lemma StepShowsIff(f: nat, p: Replica, u: Replica, step: Step)
    requires Twins(p, u) && |u.seen| > 0 && (step.Absorb? ==> WellFiled(step.other.seen))
    ensures ShowsNothing(f, p, u, step) <==> !Straggles(p, u, step)
    ensures !Straggles(p, u, step) ==> Twins(Next(f, p, step), NextUnpurged(f, u, step))
  {
    assert |p.seen| == |u.seen|;
    hide Lags, SameEntry, Straggler, MergesStraggler, Accepted, Twins, Apply, Purge, Merge;
    match step
    case Write(op) =>
      PurgeShowsIff(p, u, op);
      if !Straggles(p, u, step) {
        TwinsAfterWrite(p, u, op);
        TwinsShareEntries(Apply(p, op), Apply(u, op));
      }
    case Drop(keep) =>
      TwinsAfterPurge(f, p, u, keep);
      TwinsShareEntries(Purge(f, p, keep), u);
    case Absorb(other) =>
      MergeShowsIff(f, p, u, other);
  }

  lemma MergeShowsIff(f: nat, p: Replica, u: Replica, other: Replica)
    requires Twins(p, u) && |u.seen| > 0 && WellFiled(other.seen)
    ensures ShowsNothing(f, p, u, Absorb(other)) <==> !Straggles(p, u, Absorb(other))
    ensures !Straggles(p, u, Absorb(other)) ==> Twins(Next(f, p, Absorb(other)), NextUnpurged(f, u, Absorb(other)))
  {
    assert |p.seen| == |u.seen|;
    hide Lags, SameEntry, Straggler, MergesStraggler, Twins, Merge;
    if |other.seen| != |u.seen| {
      TwinsShareEntries(p, u);
    } else {
      forall k ensures SameEntry(Merge(f, p, other), Merge(f, u, other), k) <==> !MergesStraggler(p, u, other, k) {
        MergeTwinAt(f, p, u, other, k);
      }
      if k :| MergesStraggler(p, u, other, k) {
        assert !SameEntry(Next(f, p, Absorb(other)), NextUnpurged(f, u, Absorb(other)), k);
      } else {
        TwinsAfterMerge(f, p, u, other);
      }
    }
  }

  /* Whole runs. */

  ghost predicate StragglesAt(f: nat, r: Replica, steps: seq<Step>, i: nat)
    requires |r.seen| > 0 && i < |steps|
  {
    Straggles(Continue(f, r, steps[..i]), ContinueUnpurged(f, r, steps[..i]), steps[i])
  }

  ghost predicate InvisibleAt(f: nat, r: Replica, steps: seq<Step>, i: nat)
    requires |r.seen| > 0 && i < |steps|
  {
    ShowsNothing(f, Continue(f, r, steps[..i]), ContinueUnpurged(f, r, steps[..i]), steps[i])
  }

  lemma {:induction false} TwinsWithoutStragglers(f: nat, r: Replica, steps: seq<Step>, n: nat)
    requires |r.seen| > 0 && MergesFiled(steps) && n <= |steps|
    requires forall i :: 0 <= i < n ==> !StragglesAt(f, r, steps, i)
    ensures Twins(Continue(f, r, steps[..n]), ContinueUnpurged(f, r, steps[..n]))
  {
    if n > 0 {
      TwinsWithoutStragglers(f, r, steps, n - 1);
      assert !StragglesAt(f, r, steps, n - 1);
      assert steps[..n][..n - 1] == steps[..n - 1];
      hide Next, NextUnpurged, Straggles, Twins;
      StepShowsIff(f, Continue(f, r, steps[..n - 1]), ContinueUnpurged(f, r, steps[..n - 1]), steps[n - 1]);
    }
  }

  /** Purging is invisible over a run of calls, purges and merges, in every result and in the entries
  after every step, if and only if no step brings back something older than a lost tombstone: a call
  that is admitted, or a merge with a replica that holds it as an entry. */
  lemma PurgeIsInvisibleIff(f: nat, r: Replica, steps: seq<Step>)
    requires |r.seen| > 0 && MergesFiled(steps)
    ensures (forall i :: 0 <= i < |steps| ==> InvisibleAt(f, r, steps, i))
            <==> (forall i :: 0 <= i < |steps| ==> !StragglesAt(f, r, steps, i))
  {
    if exists i :: 0 <= i < |steps| && StragglesAt(f, r, steps, i) {
      var i := FirstStraggler(f, r, steps);
      VisibleIff(f, r, steps, i);
      assert !InvisibleAt(f, r, steps, i);
    } else {
      forall i | 0 <= i < |steps| ensures InvisibleAt(f, r, steps, i) {
        VisibleIff(f, r, steps, i);
      }
    }
  }

  lemma VisibleIff(f: nat, r: Replica, steps: seq<Step>, i: nat)
    requires |r.seen| > 0 && MergesFiled(steps) && i < |steps|
    requires forall j :: 0 <= j < i ==> !StragglesAt(f, r, steps, j)
    ensures InvisibleAt(f, r, steps, i) <==> !StragglesAt(f, r, steps, i)
  {
    TwinsWithoutStragglers(f, r, steps, i);
    hide Continue, ContinueUnpurged, Straggles, Twins, ShowsNothing;
    StepShowsIff(f, Continue(f, r, steps[..i]), ContinueUnpurged(f, r, steps[..i]), steps[i]);
  }

  lemma {:induction false} FirstStraggler(f: nat, r: Replica, steps: seq<Step>) returns (i: nat)
    requires |r.seen| > 0 && exists i :: 0 <= i < |steps| && StragglesAt(f, r, steps, i)
    ensures i < |steps| && StragglesAt(f, r, steps, i)
    ensures forall j :: 0 <= j < i ==> !StragglesAt(f, r, steps, j)
  {
    i := 0;
    while !StragglesAt(f, r, steps, i)
      invariant i < |steps|
      invariant forall j :: 0 <= j < i ==> !StragglesAt(f, r, steps, j)
      decreases |steps| - i
    {
      hide StragglesAt;
      i := i + 1;
    }
  }

  /* A condition on what is delivered, without looking at the unpurged run. */

  /** The purge at step `j` drops key `k`. */
  ghost predicate DropsAt(f: nat, r: Replica, steps: seq<Step>, j: nat, k: Key)
    requires |r.seen| > 0 && j < |steps|
  {
    steps[j].Drop? && k !in steps[j].keep && Purgeable(f, Continue(f, r, steps[..j]), k)
  }

  ghost function DroppedStamp(f: nat, r: Replica, steps: seq<Step>, j: nat, k: Key): Stamp
    requires |r.seen| > 0 && j < |steps| && DropsAt(f, r, steps, j, k)
  {
    Continue(f, r, steps[..j]).recs[k].ts
  }

  /** The step brings nothing to the key that is older than `d`, except calls of the node of `d`. */
  predicate BringsNothingOlder(step: Step, k: Key, d: Stamp) {
    match step
    case Write(op) => op.key == k ==> op.rec.ts.node == d.node || d.Less(op.rec.ts)
    case Drop(_) => true
    case Absorb(other) => k in other.recs && other.recs[k].Live? ==> d.AtMost(other.recs[k].ts)
  }

  /** After a purge drops a tombstone, nothing older comes for its key. */
  ghost predicate NoStragglers(f: nat, r: Replica, steps: seq<Step>)
    requires |r.seen| > 0
  {
    forall j, i, k :: 0 <= j < i < |steps| && DropsAt(f, r, steps, j, k) ==>
      BringsNothingOlder(steps[i], k, DroppedStamp(f, r, steps, j, k))
  }

  /** Every lost tombstone was dropped by a purge, with the stamp it still has next door. */
  ghost predicate LostByDrop(f: nat, r: Replica, steps: seq<Step>, n: nat)
    requires |r.seen| > 0 && n <= |steps|
  {
    var p, u := Continue(f, r, steps[..n]), ContinueUnpurged(f, r, steps[..n]);
    forall k :: Lags(p, u, k) ==>
      exists j :: 0 <= j < n && DropsAt(f, r, steps, j, k) && DroppedStamp(f, r, steps, j, k) == u.recs[k].ts
  }

  /** A lost tombstone was already lost before the step, or the step is the purge that dropped it. */
  lemma LostBefore(f: nat, p: Replica, u: Replica, step: Step, k: Key)
    requires Twins(p, u) && |u.seen| > 0 && (step.Absorb? ==> WellFiled(step.other.seen)) && !Straggles(p, u, step)
    requires Lags(Next(f, p, step), NextUnpurged(f, u, step), k)
    ensures k in u.recs && NextUnpurged(f, u, step).recs[k] == u.recs[k]
    ensures Lags(p, u, k)
            || (step.Drop? && k !in step.keep && Purgeable(f, p, k) && p.recs[k] == u.recs[k])
  {
    assert |p.seen| == |u.seen|;
    hide Twins, Apply, Purge, Merge, Purgeable, Straggler, MergesStraggler;
    match step
    case Write(op) => TwinsAfterWrite(p, u, op);
    case Drop(keep) => TwinsAfterPurge(f, p, u, keep);
    case Absorb(other) =>
      if |other.seen| == |u.seen| {
        TwinsAfterMerge(f, p, u, other);
      }
  }

  /** A step that brings nothing older does not straggle. */
  lemma NothingOlderIsNoStraggler(f: nat, r: Replica, steps: seq<Step>, n: nat)
    requires |r.seen| > 0 && n < |steps| && NoStragglers(f, r, steps) && LostByDrop(f, r, steps, n)
    requires Twins(Continue(f, r, steps[..n]), ContinueUnpurged(f, r, steps[..n]))
    ensures !StragglesAt(f, r, steps, n)
  {
    var p, u := Continue(f, r, steps[..n]), ContinueUnpurged(f, r, steps[..n]);
    forall k | Lags(p, u, k) ensures BringsNothingOlder(steps[n], k, u.recs[k].ts) {
      var j :| 0 <= j < n && DropsAt(f, r, steps, j, k) && DroppedStamp(f, r, steps, j, k) == u.recs[k].ts;
    }
    hide Continue, ContinueUnpurged, NoStragglers, LostByDrop;
    OlderIsRefused(p, u, steps[n]);
  }

  lemma OlderIsRefused(p: Replica, u: Replica, step: Step)
    requires Twins(p, u) && forall k :: Lags(p, u, k) ==> BringsNothingOlder(step, k, u.recs[k].ts)
    ensures !Straggles(p, u, step)
  {
    if step.Write? && Lags(p, u, step.op.key) && Admits(u, step.op) {
      var k := step.op.key;
      assert u.recs[k].ts.Less(Seen(u.seen[step.op.source], u.recs[k].ts.node));
    }
  }

  lemma {:induction false} NothingStraggles(f: nat, r: Replica, steps: seq<Step>, n: nat)
    requires |r.seen| > 0 && MergesFiled(steps) && n <= |steps| && NoStragglers(f, r, steps)
    ensures Twins(Continue(f, r, steps[..n]), ContinueUnpurged(f, r, steps[..n])) && LostByDrop(f, r, steps, n)
    ensures forall i :: 0 <= i < n ==> !StragglesAt(f, r, steps, i)
  {
    if n > 0 {
      NothingStraggles(f, r, steps, n - 1);
      NothingOlderIsNoStraggler(f, r, steps, n - 1);
      TwinsWithoutStragglers(f, r, steps, n);
      LostByDropStep(f, r, steps, n);
    }
  }

  lemma LostByDropStep(f: nat, r: Replica, steps: seq<Step>, n: nat)
    requires |r.seen| > 0 && MergesFiled(steps) && 0 < n <= |steps| && LostByDrop(f, r, steps, n - 1)
    requires Twins(Continue(f, r, steps[..n - 1]), ContinueUnpurged(f, r, steps[..n - 1])) && !StragglesAt(f, r, steps, n - 1)
    ensures LostByDrop(f, r, steps, n)
  {
    var p, u := Continue(f, r, steps[..n - 1]), ContinueUnpurged(f, r, steps[..n - 1]);
    var p', u' := Continue(f, r, steps[..n]), ContinueUnpurged(f, r, steps[..n]);
    assert steps[..n][..n - 1] == steps[..n - 1];
    assert p' == Next(f, p, steps[n - 1]) && u' == NextUnpurged(f, u, steps[n - 1]);
    forall k | Lags(p', u', k)
      ensures exists j :: 0 <= j < n && DropsAt(f, r, steps, j, k) && DroppedStamp(f, r, steps, j, k) == u'.recs[k].ts
    {
      hide Next, NextUnpurged, Twins, Lags, Purgeable;
      LostBefore(f, p, u, steps[n - 1], k);
      if Lags(p, u, k) {
        var j :| 0 <= j < n - 1 && DropsAt(f, r, steps, j, k) && DroppedStamp(f, r, steps, j, k) == u.recs[k].ts;
      } else {
        assert DropsAt(f, r, steps, n - 1, k) && DroppedStamp(f, r, steps, n - 1, k) == u'.recs[k].ts;
      }
    }
  }

  /** Purging is invisible if after it nothing older comes for the keys it dropped: no call of another
  node, no merge with a replica that still holds an older entry. */
  lemma PurgeIsInvisible(f: nat, r: Replica, steps: seq<Step>)
    requires |r.seen| > 0 && MergesFiled(steps) && NoStragglers(f, r, steps)
    ensures forall i :: 0 <= i < |steps| ==> InvisibleAt(f, r, steps, i)
    ensures forall k :: SameEntry(Continue(f, r, steps), ContinueUnpurged(f, r, steps), k)
  {
    NothingStraggles(f, r, steps, |steps|);
    PurgeIsInvisibleIff(f, r, steps);
    assert steps[..|steps|] == steps;
    TwinsShareEntries(Continue(f, r, steps), ContinueUnpurged(f, r, steps));
  }
}
