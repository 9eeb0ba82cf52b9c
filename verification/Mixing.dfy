/** Runs that mix calls, merges and purges, and why replicas converge through all of them. */
module Mixing {
  import opened Hlc
  import opened Records
  import opened Replicas
  import opened Convergence
  import opened Merging
  import opened Purging

  /** What a step adds to the writes behind a replica; `behind` are those of a replica merged in. */
  ghost function StepWrites(r: Replica, step: Step, behind: set<Row>): set<Row> {
    match step
    case Write(op) => if Admits(r, op) then {Row(op.key, op.rec)} else {}
    case Drop(_) => {}
    case Absorb(_) => behind
  }

  /** All the writes behind a run from the empty set. */
  ghost function RunWrites(f: nat, n: nat, steps: seq<Step>, behind: seq<set<Row>>): set<Row>
    requires n > 0 && |behind| == |steps|
  {
    if steps == [] then {}
    else
      var last := |steps| - 1;
      RunWrites(f, n, steps[..last], behind[..last])
      + StepWrites(ContinueUnpurged(f, Empty(n), steps[..last]), steps[last], behind[last])
  }

  /** Every merge meets a fresh replica that holds the greatest of its own writes. */
  ghost predicate FreshMerges(f: nat, n: nat, steps: seq<Step>, behind: seq<set<Row>>)
    requires n > 0
  {
    |behind| == |steps|
    && forall i :: 0 <= i < |steps| && steps[i].Absorb? ==>
         Fresh(f, ContinueUnpurged(f, Empty(n), steps[..i]), steps[i].other) && HoldsGreatest(steps[i].other.recs, behind[i])
  }

  lemma StepHoldsGreatest(f: nat, r: Replica, writes: set<Row>, step: Step, behind: set<Row>)
    requires |r.seen| > 0 && HoldsGreatest(r.recs, writes)
    requires step.Absorb? ==> Fresh(f, r, step.other) && HoldsGreatest(step.other.recs, behind)
    ensures HoldsGreatest(NextUnpurged(f, r, step).recs, writes + StepWrites(r, step, behind))
  {
    match step
    case Write(op) =>
      PutHoldsGreatest(r.recs, writes, op.key, op.rec);
      assert writes + {} == writes;
      hide HoldsGreatest, Put;
    case Drop(_) => assert writes + {} == writes;
    case Absorb(other) =>
      MergeHoldsGreatest(f, r, other, writes, behind);
      hide HoldsGreatest, Merge;
  }

  /** Over every run of calls and merges, each key holds the greatest of all the writes behind it,
  however they arrived. */
  lemma {:induction false} MixedHoldsGreatest(f: nat, n: nat, steps: seq<Step>, behind: seq<set<Row>>)
    requires n > 0 && FreshMerges(f, n, steps, behind)
    ensures HoldsGreatest(ContinueUnpurged(f, Empty(n), steps).recs, RunWrites(f, n, steps, behind))
  {
    if steps != [] {
      var last := |steps| - 1;
      var before := steps[..last];
      assert FreshMerges(f, n, before, behind[..last]) by {
        forall i | 0 <= i < last && before[i].Absorb?
          ensures Fresh(f, ContinueUnpurged(f, Empty(n), before[..i]), before[i].other) && HoldsGreatest(before[i].other.recs, behind[..last][i])
        {
          assert before[..i] == steps[..i] && steps[i] == before[i];
        }
      }
      MixedHoldsGreatest(f, n, before, behind[..last]);
      hide NextUnpurged, StepWrites, HoldsGreatest, Fresh;
      StepHoldsGreatest(f, ContinueUnpurged(f, Empty(n), before), RunWrites(f, n, before, behind[..last]), steps[last], behind[last]);
    }
  }

  lemma EntryOfBoth(p: Replica, u: Replica, q: Replica, v: Replica, k: Key)
    requires SameEntry(p, u, k) && SameEntry(q, v, k) && u.recs == v.recs
    ensures SameEntry(p, q, k)
  {
  }

  /** Two replicas with the same writes behind them, some received as calls and some in merges, have the
  same entries, although each may have purged tombstones on the way, as long as its purges do not
  show. */
  lemma MixedReplicasConverge(f: nat, n: nat, a: seq<Step>, wa: seq<set<Row>>, m: nat, b: seq<Step>, wb: seq<set<Row>>)
    requires n > 0 && FreshMerges(f, n, a, wa) && MergesFiled(a) && NoStragglers(f, Empty(n), a)
    requires m > 0 && FreshMerges(f, m, b, wb) && MergesFiled(b) && NoStragglers(f, Empty(m), b)
    requires RunWrites(f, n, a, wa) == RunWrites(f, m, b, wb)
    ensures forall k :: SameEntry(Continue(f, Empty(n), a), Continue(f, Empty(m), b), k)
  {
    MixedHoldsGreatest(f, n, a, wa);
    MixedHoldsGreatest(f, m, b, wb);
    GreatestIsUnique(ContinueUnpurged(f, Empty(n), a).recs, ContinueUnpurged(f, Empty(m), b).recs, RunWrites(f, n, a, wa));
    PurgeIsInvisible(f, Empty(n), a);
    PurgeIsInvisible(f, Empty(m), b);
    hide Continue, ContinueUnpurged, RunWrites, FreshMerges, NoStragglers, HoldsGreatest, InvisibleAt, SameEntry;
    forall k ensures SameEntry(Continue(f, Empty(n), a), Continue(f, Empty(m), b), k) {
      EntryOfBoth(Continue(f, Empty(n), a), ContinueUnpurged(f, Empty(n), a), Continue(f, Empty(m), b), ContinueUnpurged(f, Empty(m), b), k);
    }
  }
}
