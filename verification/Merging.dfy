/** Merging replicas: when it is a join, and what `diff` has to do with it. */
module Merging {
  import opened Hlc
  import opened Records
  import opened Replicas
  import opened Convergence

  /** The merge drops the set's own entry although nothing newer replaces it: the other set has
  observed the entry and no longer holds it. */
  predicate LosesOwn(f: nat, r: Replica, other: Replica, k: Key)
    requires |other.seen| > 0
  {
    k in r.recs && r.recs[k].Live?
    && (k in other.recs ==> other.recs[k].Dead? && !Below(r.recs[k], other.recs[k]))
    && Before(f, other.seen, r.recs[k].ts)
  }

  /** The merge skips an incoming delete although it is news: this set has observed it. */
  predicate LosesIncoming(f: nat, r: Replica, other: Replica, k: Key)
    requires |r.seen| > 0
  {
    k in other.recs && other.recs[k].Dead? && !Covers(r.recs, k, other.recs[k])
    && Before(f, r.seen, other.recs[k].ts)
  }

  /** Key by key, merge is the join of the two records exactly when neither of the two is lost. */
  lemma MergeIsJoinIff(f: nat, r: Replica, other: Replica, k: Key)
    requires |r.seen| == |other.seen| > 0
    ensures At(Merge(f, r, other).recs, k) == JoinOpt(At(r.recs, k), At(other.recs, k))
            <==> !LosesOwn(f, r, other, k) && !LosesIncoming(f, r, other, k)
  {
    MergeAt(f, r, other, k);
    hide Before, Merge;
  }

  /** What a merge leaves at a key: the larger of what the two sides bring. An entry that the other side
  does not hold as an entry and has passed is not brought, nor is an incoming tombstone that this side
  has passed. */
  lemma MergeOutcome(f: nat, r: Replica, other: Replica, k: Key)
    requires |r.seen| == |other.seen| > 0
    ensures var own := k in r.recs
                       && !(r.recs[k].Live? && (k in other.recs ==> other.recs[k].Dead?) && PassedBy(f, other.seen, r.recs[k].ts));
            var incoming := k in other.recs && !(other.recs[k].Dead? && PassedBy(f, r.seen, other.recs[k].ts));
            var m := At(Merge(f, r, other).recs, k);
            (m.Some? <==> own || incoming)
            && (m.Some? ==> (own && m.value == r.recs[k]) || (incoming && m.value == other.recs[k]))
            && (own ==> r.recs[k].ts.AtMost(m.value.ts) && (m.value.ts == r.recs[k].ts && r.recs[k].Live? ==> m.value.Live?))
            && (incoming ==> other.recs[k].ts.AtMost(m.value.ts) && (m.value.ts == other.recs[k].ts && other.recs[k].Live? ==> m.value.Live?))
  {
    MergeAt(f, r, other, k);
    if k in r.recs {
      BeforeIff(f, other.seen, r.recs[k].ts);
    }
    if k in other.recs {
      BeforeIff(f, r.seen, other.recs[k].ts);
    }
    hide Before, PassedBy, Merge;
  }

  /** What `diff` reports: what this set knows older, or does not know and has not passed. */
  lemma DiffMeans(f: nat, r: Replica, other: Replica, k: Key)
    requires |r.seen| > 0
    ensures At(Diff(f, r, other), k)
            == if k in other.recs && (if k in r.recs then r.recs[k].ts.Less(other.recs[k].ts) else !PassedBy(f, r.seen, other.recs[k].ts))
               then Some(other.recs[k]) else None
  {
    if k in other.recs {
      BeforeIff(f, r.seen, other.recs[k].ts);
    }
    hide Before, PassedBy;
  }

  /** No record of either replica is behind the other's safe stamps. */
  ghost predicate Fresh(f: nat, r: Replica, other: Replica) {
    |r.seen| == |other.seen| > 0
    && (forall k :: k in r.recs ==> !Before(f, other.seen, r.recs[k].ts))
    && (forall k :: k in other.recs ==> !Before(f, r.seen, other.recs[k].ts))
  }

  lemma FreshMergeIsJoin(f: nat, r: Replica, other: Replica, k: Key)
    requires Fresh(f, r, other)
    ensures At(Merge(f, r, other).recs, k) == JoinOpt(At(r.recs, k), At(other.recs, k))
  {
    MergeIsJoinIff(f, r, other, k);
  }

  /* The stamps. */

  lemma MaxStampsCommutes(a: Stamps, b: Stamps)
    ensures MaxStamps(a, b) == MaxStamps(b, a)
  {
    forall n | n in MaxStamps(a, b) ensures MaxStamps(a, b)[n] == MaxStamps(b, a)[n] {
    }
  }

  function MaxOpt(a: Option<Stamp>, b: Option<Stamp>): Option<Stamp> {
    if b.None? || (a.Some? && b.value.Less(a.value)) then a else b
  }

  lemma MaxStampsAt(a: Stamps, b: Stamps, n: NodeId)
    ensures At(MaxStamps(a, b), n) == MaxOpt(At(a, n), At(b, n))
  {
  }

  lemma MaxStampsAssociates(a: Stamps, b: Stamps, c: Stamps)
    ensures MaxStamps(MaxStamps(a, b), c) == MaxStamps(a, MaxStamps(b, c))
  {
    var left, right := MaxStamps(MaxStamps(a, b), c), MaxStamps(a, MaxStamps(b, c));
    forall n ensures At(left, n) == At(right, n) {
      hide MaxStamps;
      MaxStampsAt(a, b, n);
      MaxStampsAt(MaxStamps(a, b), c, n);
      MaxStampsAt(b, c, n);
      MaxStampsAt(a, MaxStamps(b, c), n);
    }
    hide MaxStamps;
    SameMap(left, right);
  }

  lemma SeenCommutes(a: seq<Stamps>, b: seq<Stamps>)
    requires |a| == |b|
    ensures MergeSeen(a, b) == MergeSeen(b, a)
  {
    forall i | 0 <= i < |a| ensures MergeSeen(a, b)[i] == MergeSeen(b, a)[i] {
      MaxStampsCommutes(a[i], b[i]);
    }
  }

  lemma SeenAssociates(a: seq<Stamps>, b: seq<Stamps>, c: seq<Stamps>)
    requires |a| == |b| == |c|
    ensures MergeSeen(MergeSeen(a, b), c) == MergeSeen(a, MergeSeen(b, c))
  {
    forall i | 0 <= i < |a| ensures MergeSeen(MergeSeen(a, b), c)[i] == MergeSeen(a, MergeSeen(b, c))[i] {
      MaxStampsAssociates(a[i], b[i], c[i]);
    }
  }

  /* The laws. */

  lemma JoinAssociates(a: Option<Rec>, b: Option<Rec>, c: Option<Rec>)
    ensures JoinOpt(JoinOpt(a, b), c) == JoinOpt(a, JoinOpt(b, c))
  {
  }

  lemma FreshCommutes(f: nat, a: Replica, b: Replica)
    requires Fresh(f, a, b)
    ensures Fresh(f, b, a)
  {
    hide Before;
  }

  lemma RecordsCommute(f: nat, a: Replica, b: Replica)
    requires |a.seen| == |b.seen| > 0 && Fresh(f, a, b) && Fresh(f, b, a)
    ensures Merge(f, a, b).recs == Merge(f, b, a).recs
  {
    hide Merge, Fresh;
    var ab, ba := Merge(f, a, b).recs, Merge(f, b, a).recs;
    forall k ensures At(ab, k) == At(ba, k) {
      FreshMergeIsJoin(f, a, b, k);
      FreshMergeIsJoin(f, b, a, k);
    }
    SameMap(ab, ba);
  }

  /** Merging mutually fresh replicas gives the same replica on both sides. */
  lemma MergeCommutes(f: nat, a: Replica, b: Replica)
    requires Fresh(f, a, b)
    ensures Merge(f, a, b) == Merge(f, b, a)
  {
    FreshCommutes(f, a, b);
    RecordsCommute(f, a, b);
    SeenCommutes(a.seen, b.seen);
    hide MergeSeen, MergedRec, Before;
  }

  /** Merging three replicas does not depend on the grouping, when each merge meets fresh replicas. */
  lemma MergeAssociates(f: nat, a: Replica, b: Replica, c: Replica)
    requires Fresh(f, a, b) && Fresh(f, b, c)
    requires Fresh(f, Merge(f, a, b), c) && Fresh(f, a, Merge(f, b, c))
    ensures Merge(f, Merge(f, a, b), c) == Merge(f, a, Merge(f, b, c))
  {
    var ab, bc := Merge(f, a, b), Merge(f, b, c);
    SeenAssociates(a.seen, b.seen, c.seen);
    assert Merge(f, ab, c).seen == Merge(f, a, bc).seen;
    hide Merge, Fresh;
    forall k ensures At(Merge(f, ab, c).recs, k) == At(Merge(f, a, bc).recs, k) {
      FreshMergeIsJoin(f, a, b, k);
      FreshMergeIsJoin(f, b, c, k);
      FreshMergeIsJoin(f, ab, c, k);
      FreshMergeIsJoin(f, a, bc, k);
      JoinAssociates(At(a.recs, k), At(b.recs, k), At(c.recs, k));
      hide JoinOpt;
    }
    SameMap(Merge(f, ab, c).recs, Merge(f, a, bc).recs);
  }

  /** Merging a replica with a copy of itself changes nothing, fresh or not. */
  lemma MergeIsIdempotent(f: nat, r: Replica)
    requires |r.seen| > 0
    ensures Merge(f, r, r) == r
  {
    forall k ensures At(Merge(f, r, r).recs, k) == At(r.recs, k) {
      MergeAt(f, r, r, k);
      hide Before, Merge;
    }
    SameMap(Merge(f, r, r).recs, r.recs);
    forall i | 0 <= i < |r.seen| ensures MergeSeen(r.seen, r.seen)[i] == r.seen[i] {
    }
  }

  /** Exchanging states agrees with exchanging operations: the merge of two fresh replicas holds the
  greatest of all the writes behind either of them. */
  lemma MergeHoldsGreatest(f: nat, a: Replica, b: Replica, wa: set<Row>, wb: set<Row>)
    requires Fresh(f, a, b) && HoldsGreatest(a.recs, wa) && HoldsGreatest(b.recs, wb)
    ensures HoldsGreatest(Merge(f, a, b).recs, wa + wb)
  {
    var m := Merge(f, a, b).recs;
    hide Merge, Fresh, HoldsGreatest;
    forall k ensures At(m, k) == JoinOpt(At(a.recs, k), At(b.recs, k)) {
      FreshMergeIsJoin(f, a, b, k);
    }
    JoinHoldsGreatest(a.recs, b.recs, m, wa, wb);
  }

  lemma JoinHoldsGreatest(a: map<Key, Rec>, b: map<Key, Rec>, m: map<Key, Rec>, wa: set<Row>, wb: set<Row>)
    requires HoldsGreatest(a, wa) && HoldsGreatest(b, wb)
    requires forall k :: At(m, k) == JoinOpt(At(a, k), At(b, k))
    ensures HoldsGreatest(m, wa + wb)
  {
    hide Covers, JoinOpt;
    forall k | k in m ensures Row(k, m[k]) in wa + wb {
      assert At(m, k) == JoinOpt(At(a, k), At(b, k));
      JoinPicks(At(a, k), At(b, k));
    }
    forall w | w in wa + wb ensures Covers(m, w.key, w.rec) {
      assert At(m, w.key) == JoinOpt(At(a, w.key), At(b, w.key));
      JoinCovers(a, b, m, w.key, w.rec);
    }
  }

  lemma JoinPicks(a: Option<Rec>, b: Option<Rec>)
    ensures JoinOpt(a, b) == a || JoinOpt(a, b) == b
  {
  }

  lemma JoinCovers(a: map<Key, Rec>, b: map<Key, Rec>, m: map<Key, Rec>, k: Key, rec: Rec)
    requires At(m, k) == JoinOpt(At(a, k), At(b, k)) && (Covers(a, k, rec) || Covers(b, k, rec))
    ensures Covers(m, k, rec)
  {
  }

  /* Diff. */

  /** `merge` would put the other set's record in place of this set's. */
  predicate Replaces(f: nat, r: Replica, other: Replica, k: Key)
    requires |r.seen| == |other.seen| > 0
  {
    k in other.recs && At(r.recs, k) != At(other.recs, k)
    && At(Merge(f, r, other).recs, k) == At(other.recs, k)
  }

  /** Where `diff` and `merge` part: an insert of an unknown key behind the safe stamp (merge takes
  it), an insert at the stamp of a tombstone (merge takes it), a newer delete behind the safe stamp
  (diff reports it), an older delete of an entry the other set has observed (merge takes it). */
  predicate DiffParts(f: nat, r: Replica, other: Replica, k: Key)
    requires |r.seen| > 0 && |other.seen| > 0
  {
    k in other.recs
    && var rec := other.recs[k];
       if rec.Live? then
         (k !in r.recs && Before(f, r.seen, rec.ts)) || (k in r.recs && r.recs[k] == Dead(rec.ts))
       else
         k in r.recs
         && if Before(f, r.seen, rec.ts) then r.recs[k].ts.Less(rec.ts)
            else r.recs[k].Live? && rec.ts.AtMost(r.recs[k].ts) && Before(f, other.seen, r.recs[k].ts)
  }

  /** `diff` reports exactly the records `merge` would take, except in those four cases. */
  lemma DiffAgreesWithMergeIff(f: nat, r: Replica, other: Replica, k: Key)
    requires |r.seen| == |other.seen| > 0
    ensures (k in Diff(f, r, other) <==> Replaces(f, r, other, k)) <==> !DiffParts(f, r, other, k)
  {
    MergeAt(f, r, other, k);
    hide Before, Merge;
  }

  /** For mutually fresh replicas only the tie remains. */
  lemma FreshDiffAgreesIff(f: nat, r: Replica, other: Replica, k: Key)
    requires Fresh(f, r, other)
    ensures (k in Diff(f, r, other) <==> Replaces(f, r, other, k))
            <==> !(k in r.recs && k in other.recs && other.recs[k].Live? && r.recs[k] == Dead(other.recs[k].ts))
  {
    DiffAgreesWithMergeIff(f, r, other, k);
    hide Diff, Replaces;
  }
}
