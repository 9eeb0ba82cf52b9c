/** The mutable tables of datacake-crdt/src/orswot.rs, each operation proved to be the operation of
the same name on the replica the tables stand for. */
module OrSwot {
  import opened Hlc
  import opened Records
  import opened Replicas

  /** The cached safe stamps are those of the observed stamps, for every node seen at all. */
  ghost predicate SafeFor(f: nat, seen: seq<Stamps>, safe: Stamps) {
    |seen| > 0
    && (forall n :: n in safe ==> safe[n] == SafeStamp(f, seen, n))
    && (forall s, n :: 0 <= s < |seen| && n in seen[s] ==> n in safe)
  }

  /** Recomputing the nodes whose stamps changed is enough. */
  lemma RecomputedIsSafe(f: nat, a: seq<Stamps>, safe: Stamps, b: seq<Stamps>, safe': Stamps, nodes: set<NodeId>)
    requires SafeFor(f, a, safe) && |a| == |b|
    requires forall s, n :: 0 <= s < |a| && n !in nodes ==> At(a[s], n) == At(b[s], n)
    requires safe'.Keys == safe.Keys + nodes
    requires forall n :: n in safe' ==> safe'[n] == if n in nodes then SafeStamp(f, b, n) else safe[n]
    ensures SafeFor(f, b, safe')
  {
    forall n | n in safe' ensures safe'[n] == SafeStamp(f, b, n) {
      if n !in nodes {
        forall s | 0 <= s < |a| ensures Seen(a[s], n) == Seen(b[s], n) {
          assert At(a[s], n) == At(b[s], n);
        }
        MinSeenFrame(a, b, n);
      }
    }
    forall s, n | 0 <= s < |b| && n in b[s] ensures n in safe' {
      assert n in nodes || At(a[s], n) == At(b[s], n);
    }
  }

  /** Observing a stamp changes only what is known of its node. */
  lemma ObservedIsSafe(f: nat, seen: seq<Stamps>, safe: Stamps, source: nat, ts: Stamp, ok: bool)
    requires SafeFor(f, seen, safe) && source < |seen|
    ensures var seen' := if ok then Observe(seen, source, ts) else seen;
            SafeFor(f, seen', safe[ts.node := SafeStamp(f, seen', ts.node)])
  {
    var seen' := if ok then Observe(seen, source, ts) else seen;
    RecomputedIsSafe(f, seen, safe, seen', safe[ts.node := SafeStamp(f, seen', ts.node)], {ts.node});
  }

  class NodeVersions {
    const forgiveness: nat
    var maxStamps: seq<Stamps>
    var safe: Stamps

    ghost predicate Valid()
      reads this
    {
      SafeFor(forgiveness, maxStamps, safe)
    }

    constructor (sources: nat, forgiveness: nat)
      requires sources > 0
      ensures Valid() && maxStamps == Empty(sources).seen && this.forgiveness == forgiveness
    {
      this.forgiveness := forgiveness;
      maxStamps := seq(sources, i => map[]);
      safe := map[];
    }

    method ComputeSafeLastStamp(node: NodeId)
      requires |maxStamps| > 0
      modifies `safe
      ensures safe == old(safe)[node := SafeStamp(forgiveness, maxStamps, node)]
    {
      var min := MinStamp(maxStamps, node);
      safe := safe[node := Stamp(SaturatingSub(min.time, forgiveness), min.counter, min.node)];
    }

    method TryUpdateMaxStamp(source: nat, ts: Stamp) returns (ok: bool)
      requires Valid() && source < |maxStamps|
      modifies this
      ensures Valid()
      ensures ok <==> Seen(old(maxStamps)[source], ts.node).AtMost(ts)
      ensures maxStamps == if ok then Observe(old(maxStamps), source, ts) else old(maxStamps)
    {
      ok := !(ts.node in maxStamps[source] && ts.Less(maxStamps[source][ts.node]));
      if ok {
        maxStamps := Observe(maxStamps, source, ts);
      }
      ComputeSafeLastStamp(ts.node);
      ObservedIsSafe(forgiveness, old(maxStamps), old(safe), source, ts, ok);
    }

    predicate IsTsBeforeLastObservedEvent(ts: Stamp): (before: bool)
      requires Valid()
      reads this
      ensures before == Before(forgiveness, maxStamps, ts)
    {
      var node := ts.node;
      if node in safe then ts.Less(safe[node])
      else
        assert MinSeen(maxStamps, node) == Zero(node);
        false
    }

    method Merge(other: NodeVersions)
      requires Valid() && other != this && |other.maxStamps| == |maxStamps|
      modifies this
      ensures Valid() && maxStamps == MergeSeen(old(maxStamps), other.maxStamps)
    {
      var nodes := MergeStamps(other);
      RecomputeSafe(nodes);
      RecomputedIsSafe(forgiveness, old(maxStamps), old(safe), maxStamps, safe, nodes);
    }

    /** The loop of `purge_old_deletes`. */
    method PartitionTombstones(dead: map<Key, Stamp>) returns (kept: map<Key, Stamp>, purged: map<Key, Stamp>)
      requires Valid()
      ensures kept == Split(forgiveness, maxStamps, dead, false)
      ensures purged == Split(forgiveness, maxStamps, dead, true)
    {
      assert |maxStamps| > 0;
      hide SafeFor, Before;
      assert Split(forgiveness, maxStamps, dead - dead.Keys, true) == map[];
      assert Split(forgiveness, maxStamps, dead - dead.Keys, false) == map[];
      hide Split;
      kept, purged := map[], map[];
      var pending := dead.Keys;
      while pending != {}
        invariant pending <= dead.Keys
        invariant kept == Split(forgiveness, maxStamps, dead - pending, false)
        invariant purged == Split(forgiveness, maxStamps, dead - pending, true)
      {
        var k :| k in pending;
        SplitStep(forgiveness, maxStamps, dead, pending, k, false);
        SplitStep(forgiveness, maxStamps, dead, pending, k, true);
        pending := pending - {k};
        if !IsTsBeforeLastObservedEvent(dead[k]) {
          kept := kept[k := dead[k]];
        } else {
          purged := purged[k := dead[k]];
        }
      }
      assert dead - {} == dead;
    }

    /** The loop over sources: the larger stamp for every node, and the set of nodes met. */
    method MergeStamps(other: NodeVersions) returns (nodes: set<NodeId>)
      requires other != this && |other.maxStamps| == |maxStamps|
      modifies `maxStamps
      ensures maxStamps == MergeSeen(old(maxStamps), other.maxStamps)
      ensures forall s, n :: 0 <= s < |maxStamps| && n !in nodes ==> At(old(maxStamps)[s], n) == At(maxStamps[s], n)
    {
      nodes := {};
      for source := 0 to |other.maxStamps|
        invariant |maxStamps| == |old(maxStamps)|
        invariant forall s :: 0 <= s < source ==> maxStamps[s] == MaxStamps(old(maxStamps)[s], other.maxStamps[s])
        invariant forall s :: source <= s < |maxStamps| ==> maxStamps[s] == old(maxStamps)[s]
        invariant forall s :: 0 <= s < source ==> other.maxStamps[s].Keys <= nodes
      {
        var merged := MergeSource(maxStamps[source], other.maxStamps[source]);
        maxStamps := maxStamps[source := merged];
        nodes := nodes + other.maxStamps[source].Keys;
      }
    }

    /** The loop over the nodes met. */
    method RecomputeSafe(nodes: set<NodeId>)
      requires |maxStamps| > 0
      modifies `safe
      ensures safe.Keys == old(safe).Keys + nodes
      ensures forall n :: n in safe ==>
                safe[n] == if n in nodes then SafeStamp(forgiveness, maxStamps, n) else old(safe)[n]
    {
      var pending := nodes;
      while pending != {}
        invariant pending <= nodes
        invariant safe.Keys == old(safe).Keys + (nodes - pending)
        invariant forall n :: n in safe ==>
                    safe[n] == if n in nodes - pending then SafeStamp(forgiveness, maxStamps, n) else old(safe)[n]
      {
        var node :| node in pending;
        ComputeSafeLastStamp(node);
        pending := pending - {node};
      }
    }
  }

  lemma MinSeenGrows(seen: seq<Stamps>, i: nat, node: NodeId)
    requires 0 < i < |seen|
    ensures MinSeen(seen[..i + 1], node)
            == if Seen(seen[i], node).Less(MinSeen(seen[..i], node)) then Seen(seen[i], node) else MinSeen(seen[..i], node)
  {
    assert seen[..i + 1][..i] == seen[..i];
  }

  /** The iterator of `compute_safe_last_stamp`: the smallest stamp over all sources. */
  method MinStamp(seen: seq<Stamps>, node: NodeId) returns (min: Stamp)
    requires |seen| > 0
    ensures min == MinSeen(seen, node)
  {
    min := Seen(seen[0], node);
    for i := 1 to |seen|
      invariant min == MinSeen(seen[..i], node)
    {
      var stamp := Seen(seen[i], node);
      MinSeenGrows(seen, i, node);
      hide MinSeen, Stamp.Less;
      if stamp.Less(min) {
        min := stamp;
      }
    }
    assert seen[..|seen|] == seen;
  }

  /** One source's part of `NodeVersions::merge`: the larger stamp for every node. */
  method MergeSource(existing: Stamps, incoming: Stamps) returns (merged: Stamps)
    ensures merged == MaxStamps(existing, incoming)
  {
    merged := existing;
    var pending := incoming.Keys;
    while pending != {}
      invariant pending <= incoming.Keys
      invariant merged.Keys == existing.Keys + (incoming.Keys - pending)
      invariant forall n :: n in merged ==>
                  merged[n] == if n in pending then existing[n] else MaxStamps(existing, incoming)[n]
    {
      var node :| node in pending;
      pending := pending - {node};
      if node in merged && incoming[node].Less(merged[node]) {
        continue;
      }
      merged := merged[node := incoming[node]];
    }
  }

  function RecordsOf(entries: map<Key, Stamp>, dead: map<Key, Stamp>): map<Key, Rec> {
    map k | k in entries.Keys + dead.Keys :: if k in entries then Live(entries[k]) else Dead(dead[k])
  }

  /** The tables after an insert that passed its source's check. */
  lemma InsertedRecords(e: map<Key, Stamp>, d: map<Key, Stamp>, k: Key, ts: Stamp)
    requires e.Keys !! d.Keys
    ensures k in d && ts.Less(d[k]) ==>
              Put(RecordsOf(e, d), k, Live(ts)) == RecordsOf(e, d) && Covers(RecordsOf(e, d), k, Live(ts))
    ensures !(k in d && ts.Less(d[k])) ==>
              (Covers(RecordsOf(e, d), k, Live(ts)) <==> k in e && !e[k].Less(ts))
              && Put(RecordsOf(e, d), k, Live(ts))
                 == RecordsOf(if k in e && !e[k].Less(ts) then e else e[k := ts], d - {k})
  {
  }

  /** The tables after a delete that passed its source's check. */
  lemma DeletedRecords(e: map<Key, Stamp>, d: map<Key, Stamp>, k: Key, ts: Stamp)
    requires e.Keys !! d.Keys
    ensures k in e && ts.AtMost(e[k]) ==>
              Put(RecordsOf(e, d), k, Dead(ts)) == RecordsOf(e, d) && Covers(RecordsOf(e, d), k, Dead(ts))
    ensures !(k in e && ts.AtMost(e[k])) ==>
              (Covers(RecordsOf(e, d), k, Dead(ts)) <==> k in d && !d[k].Less(ts))
              && Put(RecordsOf(e, d), k, Dead(ts))
                 == RecordsOf(e - {k}, if k in d && !d[k].Less(ts) then d else d[k := ts])
  {
  }

  /** The tombstones that are, or are not, behind the safe stamp of their node. */
  ghost function Split(f: nat, seen: seq<Stamps>, dead: map<Key, Stamp>, behind: bool): map<Key, Stamp>
    requires |seen| > 0
  {
    map k | k in dead && Before(f, seen, dead[k]) == behind :: dead[k]
  }

  /** A tombstone is on the side of those that every source has passed, or on the other, with its stamp. */
  lemma SplitMeans(f: nat, seen: seq<Stamps>, dead: map<Key, Stamp>, behind: bool, k: Key)
    requires |seen| > 0
    ensures At(Split(f, seen, dead, behind), k)
            == if k in dead && (PassedBy(f, seen, dead[k]) <==> behind) then Some(dead[k]) else None
  {
    if k in dead {
      BeforeIff(f, seen, dead[k]);
    }
    hide Before, PassedBy;
  }

  /** Moving one tombstone from the pending ones to the decided ones. */
  lemma SplitStep(f: nat, seen: seq<Stamps>, dead: map<Key, Stamp>, pending: set<Key>, k: Key, behind: bool)
    requires |seen| > 0 && k in pending && k in dead
    ensures Split(f, seen, dead - (pending - {k}), behind)
            == if Before(f, seen, dead[k]) == behind
               then Split(f, seen, dead - pending, behind)[k := dead[k]]
               else Split(f, seen, dead - pending, behind)
  {
    hide Before;
  }

  lemma PurgedRecords(f: nat, seen: seq<Stamps>, e: map<Key, Stamp>, d: map<Key, Stamp>)
    requires e.Keys !! d.Keys && |seen| > 0
    ensures Purge(f, Replica(RecordsOf(e, d), seen), {}) == Replica(RecordsOf(e, Split(f, seen, d, false)), seen)
    ensures Split(f, seen, d, false).Keys <= d.Keys
  {
    hide Before;
  }

  /** What one table of the other set contributes to the difference. */
  ghost function Wanted(f: nat, r: Replica, table: map<Key, Stamp>): map<Key, Stamp>
    requires |r.seen| > 0
  {
    map k | k in table && Wants(f, r, k, table[k]) :: table[k]
  }

  lemma WantedRecords(f: nat, r: Replica, e: map<Key, Stamp>, d: map<Key, Stamp>, seen: seq<Stamps>)
    requires e.Keys !! d.Keys && |r.seen| > 0
    ensures RecordsOf(Wanted(f, r, e), Wanted(f, r, d)) == Diff(f, r, Replica(RecordsOf(e, d), seen))
  {
    hide Wants;
  }

  /** Lists one table of a set, in any order. */
  method Listing(table: map<Key, Stamp>, deleted: bool) returns (rows: seq<Row>)
    ensures DistinctKeys(rows)
    ensures forall x :: x in rows <==>
              x.key in table && x.rec == if deleted then Dead(table[x.key]) else Live(table[x.key])
  {
    rows := [];
    var pending := table.Keys;
    while pending != {}
      invariant pending <= table.Keys && DistinctKeys(rows)
      invariant forall x :: x in rows <==>
                  x.key in table && x.key !in pending
                  && x.rec == if deleted then Dead(table[x.key]) else Live(table[x.key])
    {
      var k :| k in pending;
      forall i | 0 <= i < |rows| ensures rows[i].key != k {
        assert rows[i] in rows;
      }
      pending := pending - {k};
      rows := rows + [Row(k, if deleted then Dead(table[k]) else Live(table[k]))];
    }
  }

  /** The time-sorted log of a set: its entries, then its tombstones, sorted by timestamp. */
  method BuildLog(entries: map<Key, Stamp>, dead: map<Key, Stamp>) returns (log: seq<Row>)
    requires entries.Keys !! dead.Keys
    ensures SortedByStamp(log) && Lists(log, RecordsOf(entries, dead))
  {
    var inserts := Listing(entries, false);
    var deletes := Listing(dead, true);
    var rows := inserts + deletes;
    forall i, j | 0 <= i < j < |rows| ensures rows[i].key != rows[j].key {
      if i < |inserts| <= j {
        assert rows[i] in inserts && rows[j] in deletes;
      }
    }
    log := SortRows(rows);
    SortKeepsDistinct(rows);
    forall i | 0 <= i < |log|
      ensures log[i].key in RecordsOf(entries, dead) && RecordsOf(entries, dead)[log[i].key] == log[i].rec
    {
      assert log[i] in rows && (log[i] in inserts || log[i] in deletes);
    }
    forall k | k in RecordsOf(entries, dead) ensures Row(k, RecordsOf(entries, dead)[k]) in log {
      var x := Row(k, RecordsOf(entries, dead)[k]);
      assert x in inserts || x in deletes;
      assert x in rows;
    }
  }

  /* Merging: what happens to one key. */

  /** The place of one key in the three tables of a merge in progress: the merged entries, the
  tombstones, and the set's own entries not yet accounted for. */
  datatype Slot = Slot(entry: Option<Stamp>, dead: Option<Stamp>, pending: Option<Stamp>)

  function SlotOf(entries: map<Key, Stamp>, dead: map<Key, Stamp>, pending: map<Key, Stamp>, k: Key): Slot {
    Slot(At(entries, k), At(dead, k), At(pending, k))
  }

  function Later(ts: Stamp, other: Option<Stamp>): Stamp {
    match other
    case Some(t) => if ts.Less(t) then t else ts
    case None => ts
  }

  predicate Outranks(held: Option<Stamp>, ts: Stamp) { held.Some? && ts.Less(held.value) }

  function Restore(table: map<Key, Stamp>, k: Key, held: Option<Stamp>): map<Key, Stamp> {
    match held
    case Some(t) => table[k := t]
    case None => table
  }

  /** Both passes of the merge end an entry like this: a newer tombstone wins, an older one goes. */
  method PlaceEntry(entries0: map<Key, Stamp>, dead0: map<Key, Stamp>, k: Key, ts: Stamp)
    returns (entries: map<Key, Stamp>, dead: map<Key, Stamp>)
    ensures At(dead, k) == if Outranks(At(dead0, k), ts) then At(dead0, k) else None
    ensures At(entries, k) == if Outranks(At(dead0, k), ts) then At(entries0, k) else Some(ts)
    ensures forall k' :: k' != k ==> At(entries, k') == At(entries0, k') && At(dead, k') == At(dead0, k')
  {
    entries, dead := entries0, dead0 - {k};
    if Outranks(At(dead0, k), ts) {
      dead := Restore(dead, k, At(dead0, k));
    } else {
      entries := entries[k := ts];
    }
  }

  /** The effect of one record of the log on its key. */
  function AfterLog(s: Slot, rec: Rec, observed: bool): Slot {
    match rec
    case Dead(ts) =>
      if observed then s else Slot(None, Some(Later(ts, s.dead)), s.pending)
    case Live(ts) =>
      var t := Later(ts, s.pending);
      if Outranks(s.dead, t) then Slot(None, s.dead, None) else Slot(Some(t), None, None)
  }

  /** The effect of the pass over the set's own remaining entries. */
  function AfterLeftover(s: Slot, f: nat, seen: seq<Stamps>): Slot
    requires |seen| > 0
  {
    match s.pending
    case None => s
    case Some(ts) =>
      if Before(f, seen, ts) || Outranks(s.dead, ts) then s.(pending := None) else Slot(Some(ts), None, None)
  }

  /** The slot a key ends in. */
  function Merged(f: nat, e: map<Key, Stamp>, d: map<Key, Stamp>, seen: seq<Stamps>, other: Replica, k: Key): Slot
    requires |seen| > 0 && |other.seen| > 0
  {
    AfterLeftover(LogSlot(f, seen, e, d, other.recs, other.recs.Keys, k), f, other.seen)
  }

  /** The slot of a key, its own entry aside, before and after the leftover pass reaches it. */
  function LeftSlot(f: nat, seen: seq<Stamps>, s: Slot, reached: bool): Slot
    requires |seen| > 0
  {
    if reached then AfterLeftover(s, f, seen) else s.(pending := None)
  }

  /** The slot of a key when the log has been processed for the keys in `done`. */
  function LogSlot(f: nat, seen: seq<Stamps>, e: map<Key, Stamp>, d: map<Key, Stamp>, recs: map<Key, Rec>,
                   done: set<Key>, k: Key): Slot
    requires |seen| > 0
  {
    var s := SlotOf(map[], d, e, k);
    if k in done && k in recs then AfterLog(s, recs[k], Before(f, seen, recs[k].ts)) else s
  }

  /** Both passes together are the merge of the records. */
  lemma MergedKey(f: nat, e: map<Key, Stamp>, d: map<Key, Stamp>, seen: seq<Stamps>, other: Replica, k: Key)
    requires e.Keys !! d.Keys && |seen| > 0 && |other.seen| > 0
    ensures var s := Merged(f, e, d, seen, other, k);
            s.pending.None? && (s.entry.None? || s.dead.None?)
            && MergedRec(f, Replica(RecordsOf(e, d), seen), other, k)
               == (if s.entry.Some? then Some(Live(s.entry.value))
                   else if s.dead.Some? then Some(Dead(s.dead.value)) else None)
  {
    hide Before;
  }

  lemma MergedRecords(f: nat, e: map<Key, Stamp>, d: map<Key, Stamp>, seen: seq<Stamps>, other: Replica,
                      e': map<Key, Stamp>, d': map<Key, Stamp>)
    requires e.Keys !! d.Keys && |seen| == |other.seen| > 0
    requires forall k :: SlotOf(e', d', map[], k) == Merged(f, e, d, seen, other, k)
    ensures e'.Keys !! d'.Keys
    ensures RecordsOf(e', d') == Merge(f, Replica(RecordsOf(e, d), seen), other).recs
  {
    var r := Replica(RecordsOf(e, d), seen);
    hide Before, Merged, MergedRec, Merge;
    forall k ensures (k in e' ==> k !in d') && At(RecordsOf(e', d'), k) == At(Merge(f, r, other).recs, k) {
      assert SlotOf(e', d', map[], k) == Merged(f, e, d, seen, other, k);
      MergedKey(f, e, d, seen, other, k);
      MergeAt(f, r, other, k);
    }
    SameMap(RecordsOf(e', d'), Merge(f, r, other).recs);
  }

  class OrSWotSet {
    var entries: map<Key, Stamp>
    var dead: map<Key, Stamp>
    const versions: NodeVersions

    /** No key is both an entry and a tombstone, and the safe stamps are up to date. */
    ghost predicate Valid()
      reads this, versions
    {
      versions.Valid() && entries.Keys !! dead.Keys
    }

    ghost function Abs(): Replica
      reads this, versions
    {
      Replica(RecordsOf(entries, dead), versions.maxStamps)
    }

    constructor (sources: nat, forgiveness: nat)
      requires sources > 0
      ensures Valid() && fresh(versions) && Abs() == Empty(sources) && versions.forgiveness == forgiveness
    {
      entries := map[];
      dead := map[];
      versions := new NodeVersions(sources, forgiveness);
    }

    method InsertWithSource(source: nat, k: Key, ts: Stamp) returns (hasSet: bool)
      requires Valid() && source < |versions.maxStamps|
      modifies this, versions
      ensures Valid() && Abs() == Apply(old(Abs()), Op(source, k, Live(ts)))
      ensures hasSet == Accepted(old(Abs()), Op(source, k, Live(ts)))
    {
      hide SafeFor, RecordsOf, Put, Covers;
      InsertedRecords(entries, dead, k, ts);
      var ok := versions.TryUpdateMaxStamp(source, ts);
      if !ok {
        return false;
      }
      if k in dead {
        var deleted := dead[k];
        dead := dead - {k};
        if ts.Less(deleted) {
          dead := dead[k := deleted];
          assert dead == old(dead);
          return false;
        }
      }
      assert dead == old(dead) - {k};
      hasSet := k !in entries || entries[k].Less(ts);
      if hasSet {
        entries := entries[k := ts];
      }
    }

    method DeleteWithSource(source: nat, k: Key, ts: Stamp) returns (hasSet: bool)
      requires Valid() && source < |versions.maxStamps|
      modifies this, versions
      ensures Valid() && Abs() == Apply(old(Abs()), Op(source, k, Dead(ts)))
      ensures hasSet == Accepted(old(Abs()), Op(source, k, Dead(ts)))
    {
      hide SafeFor, RecordsOf, Put, Covers;
      DeletedRecords(entries, dead, k, ts);
      var ok := versions.TryUpdateMaxStamp(source, ts);
      if !ok {
        return false;
      }
      if k in entries {
        var existing := entries[k];
        entries := entries - {k};
        if ts.AtMost(existing) {
          entries := entries[k := existing];
          assert entries == old(entries);
          return false;
        }
      }
      assert entries == old(entries) - {k};
      hasSet := k !in dead || dead[k].Less(ts);
      if hasSet {
        dead := dead[k := ts];
      }
    }

    predicate WillApplyOp(k: Key, ts: Stamp): (applies: bool)
      requires Valid()
      reads this, versions
      ensures applies == WillApply(versions.forgiveness, Abs(), k, ts)
    {
      if versions.IsTsBeforeLastObservedEvent(ts) then false
      else if k in entries then entries[k].Less(ts)
      else if k in dead then dead[k].Less(ts)
      else true
    }

    /** Drops every tombstone behind its node's safe stamp, and returns exactly those. */
    method PurgeOldDeletes() returns (purged: map<Key, Stamp>)
      requires Valid()
      modifies `dead
      ensures Valid() && Abs() == Purge(versions.forgiveness, old(Abs()), {})
      ensures dead == Split(versions.forgiveness, versions.maxStamps, old(dead), false)
      ensures purged == Split(versions.forgiveness, versions.maxStamps, old(dead), true)
    {
      PurgedRecords(versions.forgiveness, versions.maxStamps, entries, dead);
      hide SafeFor, Before, RecordsOf, Purge, Split;
      var kept;
      kept, purged := versions.PartitionTombstones(dead);
      dead := kept;
    }

    /** Puts tombstones back without any check; the set stays valid if none of them is an entry. */
    method AddRawTombstones(tombstones: map<Key, Stamp>)
      requires Valid()
      modifies `dead
      ensures dead == old(dead) + tombstones
      ensures tombstones.Keys !! entries.Keys ==> Valid()
    {
      var pending := tombstones.Keys;
      while pending != {}
        invariant pending <= tombstones.Keys
        invariant dead.Keys == old(dead).Keys + (tombstones.Keys - pending)
        invariant forall k :: k in dead ==>
                    dead[k] == if k in tombstones && k !in pending then tombstones[k] else old(dead)[k]
      {
        var k :| k in pending;
        dead := dead[k := tombstones[k]];
        pending := pending - {k};
      }
    }

    /** Merges the other set into this one, whatever the order in which its tables are listed. */
    method MergeWith(other: OrSWotSet)
      requires Valid() && other.Valid() && other != this && other.versions != versions
      requires |versions.maxStamps| == |other.versions.maxStamps|
      requires versions.forgiveness == other.versions.forgiveness
      modifies this, versions
      ensures Valid() && Abs() == Merge(versions.forgiveness, old(Abs()), other.Abs())
    {
      ghost var f, seen, r := versions.forgiveness, versions.maxStamps, other.Abs();
      var log := BuildLog(other.entries, other.dead);
      var merged, tombstones, leftover := MergeLog(log, r.recs);
      merged, tombstones := MergeLeftover(merged, tombstones, leftover, other.versions);
      assert forall k :: SlotOf(merged, tombstones, map[], k) == Merged(f, entries, dead, seen, r, k);
      MergedRecords(f, entries, dead, seen, r, merged, tombstones);
      hide SafeFor, RecordsOf, Merge;
      entries, dead := merged, tombstones;
      versions.Merge(other.versions);
      assert Replicas.Merge(f, old(Abs()), r).seen == MergeSeen(seen, r.seen);
    }

    /** The loop over the other set's records in time order. */
    method MergeLog(log: seq<Row>, ghost recs: map<Key, Rec>)
      returns (merged: map<Key, Stamp>, tombstones: map<Key, Stamp>, pending: map<Key, Stamp>)
      requires Valid() && Lists(log, recs)
      ensures forall k :: SlotOf(merged, tombstones, pending, k)
                          == LogSlot(versions.forgiveness, versions.maxStamps, entries, dead, recs, recs.Keys, k)
    {
      ghost var f, seen := versions.forgiveness, versions.maxStamps;
      assert |seen| > 0;
      hide SafeFor, Before;
      merged, tombstones, pending := map[], dead, entries;
      ghost var done: set<Key> := {};
      for i := 0 to |log|
        invariant done == set j | 0 <= j < i :: log[j].key
        invariant forall k :: SlotOf(merged, tombstones, pending, k)
                              == LogSlot(f, seen, entries, dead, recs, done, k)
      {
        var k, ts := log[i].key, log[i].rec.ts;
        assert k !in done && k in recs && recs[k] == log[i].rec;
        ghost var m, t, p := merged, tombstones, pending;
        assert SlotOf(m, t, p, k) == LogSlot(f, seen, entries, dead, recs, done, k);
        if log[i].rec.Dead? {
          if !versions.IsTsBeforeLastObservedEvent(ts) {
            var held := At(merged, k);
            merged := merged - {k};
            if Outranks(held, ts) {
              merged := Restore(merged, k, held);
            } else {
              tombstones := tombstones[k := Later(ts, At(tombstones, k))];
            }
          }
        } else {
          var newest := Later(ts, At(pending, k));
          pending := pending - {k};
          merged, tombstones := PlaceEntry(merged, tombstones, k, newest);
        }
        assert SlotOf(merged, tombstones, pending, k) == LogSlot(f, seen, entries, dead, recs, done + {k}, k);
        forall k' | k' != k
          ensures SlotOf(merged, tombstones, pending, k') == LogSlot(f, seen, entries, dead, recs, done + {k}, k')
        {
          assert SlotOf(m, t, p, k') == LogSlot(f, seen, entries, dead, recs, done, k');
        }
        done := done + {k};
      }
    }

    /** The loop over the set's own entries the other set does not hold. */
    method MergeLeftover(merged0: map<Key, Stamp>, tombstones0: map<Key, Stamp>, leftover: map<Key, Stamp>,
                         remote: NodeVersions)
      returns (merged: map<Key, Stamp>, tombstones: map<Key, Stamp>)
      requires remote.Valid()
      ensures forall k :: SlotOf(merged, tombstones, map[], k)
                          == AfterLeftover(SlotOf(merged0, tombstones0, leftover, k), remote.forgiveness, remote.maxStamps)
    {
      ghost var f, seen := remote.forgiveness, remote.maxStamps;
      assert |seen| > 0;
      hide SafeFor, Before;
      merged, tombstones := merged0, tombstones0;
      var pending := leftover.Keys;
      while pending != {}
        invariant pending <= leftover.Keys
        invariant forall k :: SlotOf(merged, tombstones, map[], k)
                              == LeftSlot(f, seen, SlotOf(merged0, tombstones0, leftover, k), k !in pending)
      {
        var k :| k in pending;
        var ts := leftover[k];
        ghost var m, t := merged, tombstones;
        assert SlotOf(m, t, map[], k) == LeftSlot(f, seen, SlotOf(merged0, tombstones0, leftover, k), false);
        if !remote.IsTsBeforeLastObservedEvent(ts) {
          merged, tombstones := PlaceEntry(merged, tombstones, k, ts);
        }
        assert SlotOf(merged, tombstones, map[], k)
            == LeftSlot(f, seen, SlotOf(merged0, tombstones0, leftover, k), true);
        forall k' | k' != k
          ensures SlotOf(merged, tombstones, map[], k')
               == LeftSlot(f, seen, SlotOf(merged0, tombstones0, leftover, k'), k' !in pending - {k})
        {
          assert SlotOf(m, t, map[], k')
              == LeftSlot(f, seen, SlotOf(merged0, tombstones0, leftover, k'), k' !in pending);
        }
        pending := pending - {k};
      }
    }

    /** The entries and the tombstones of the other set this set does not know about. */
    method ComputeDiff(other: OrSWotSet) returns (changes: map<Key, Stamp>, removals: map<Key, Stamp>)
      requires Valid() && other.Valid()
      ensures changes.Keys !! removals.Keys
      ensures RecordsOf(changes, removals) == Diff(versions.forgiveness, Abs(), other.Abs())
    {
      WantedRecords(versions.forgiveness, Abs(), other.entries, other.dead, other.versions.maxStamps);
      hide SafeFor, Wants, RecordsOf, Diff;
      changes := Missing(other.entries);
      removals := Missing(other.dead);
    }

    /** `check_self_then_insert_to` for every record of one table of the other set. */
    method Missing(table: map<Key, Stamp>) returns (found: map<Key, Stamp>)
      requires Valid()
      ensures found == Wanted(versions.forgiveness, Abs(), table)
    {
      found := map[];
      var pending := table.Keys;
      while pending != {}
        invariant pending <= table.Keys
        invariant forall k :: k in found <==> k in table && k !in pending
                                              && Wants(versions.forgiveness, Abs(), k, table[k])
        invariant forall k :: k in found ==> found[k] == table[k]
      {
        var k :| k in pending;
        var ts := table[k];
        pending := pending - {k};
        if k in entries {
          if entries[k].Less(ts) {
            found := found[k := ts];
          }
        } else if k in dead {
          if dead[k].Less(ts) {
            found := found[k := ts];
          }
        } else if !versions.IsTsBeforeLastObservedEvent(ts) {
          found := found[k := ts];
        }
      }
    }
  }
}
