/** The handlers of datacake-eventual-consistency/src/keyspace/actor.rs and the loader of group.rs,
step by step, each proved to be the step of the same message on `Keyspaces.Keyspace`. Storage is a
table of metadata rows; what a storage call manages to do is a parameter. */
module KeyspaceActors {
  import opened Hlc
  import opened Records
  import opened Replicas
  import opened Convergence
  import opened OrSwot
  import opened Keyspaces

  function Keys(rows: seq<Row>): set<Key> { set x | x in rows :: x.key }

  class KeyspaceActor {
    const state: OrSWotSet
    var storage: map<Key, Rec>
    var changed: Stamp

    ghost predicate Valid()
      reads this, state, state.versions
    {
      state.Valid()
    }

    ghost function Abs(): Keyspace
      reads this, state, state.versions
    {
      Keyspace(state.Abs(), storage, changed)
    }

    constructor (state: OrSWotSet, storage: map<Key, Rec>, now: Stamp)
      requires state.Valid()
      ensures Valid() && Abs() == Keyspace(state.Abs(), storage, now) && this.state == state
    {
      this.state := state;
      this.storage := storage;
      changed := now;
    }

    method OnSet(source: nat, k: Key, ts: Stamp, stored: bool, now: Stamp) returns (ok: bool)
      requires Valid() && source < |state.versions.maxStamps|
      modifies this, state, state.versions
      ensures Valid()
      ensures Abs() == Step(state.versions.forgiveness, old(Abs()), Single(source, Row(k, Live(ts)), stored, now))
      ensures ok <==> stored || !WillApply(state.versions.forgiveness, old(Abs()).replica, k, ts)
    {
      hide SafeFor, RecordsOf, WillApply, Apply;
      if !state.WillApplyOp(k, ts) {
        return true;
      }
      if !stored {
        return false;
      }
      storage := storage[k := Live(ts)];
      var _ := state.InsertWithSource(source, k, ts);
      changed := now;
      return true;
    }

    method OnDel(source: nat, k: Key, ts: Stamp, stored: bool, now: Stamp) returns (ok: bool)
      requires Valid() && source < |state.versions.maxStamps|
      modifies this, state, state.versions
      ensures Valid()
      ensures Abs() == Step(state.versions.forgiveness, old(Abs()), Single(source, Row(k, Dead(ts)), stored, now))
      ensures ok <==> stored || !WillApply(state.versions.forgiveness, old(Abs()).replica, k, ts)
    {
      hide SafeFor, RecordsOf, WillApply, Apply;
      if !state.WillApplyOp(k, ts) {
        return true;
      }
      if !stored {
        return false;
      }
      storage := storage[k := Dead(ts)];
      var _ := state.DeleteWithSource(source, k, ts);
      changed := now;
      return true;
    }

    /** `on_multi_set` for entries and `on_multi_del` for tombstones: storage fails with the ids it
    had carried out, or not at all. */
    method OnMulti(source: nat, docs: seq<Row>, failure: Option<set<Key>>, now: Stamp) returns (ok: bool)
      requires Valid() && source < |state.versions.maxStamps|
      modifies this, state, state.versions
      ensures Valid() && (ok <==> failure.None?)
      ensures var done := if failure.Some? then failure.value else Keys(docs);
              Abs() == Step(state.versions.forgiveness, old(Abs()), Batch(source, docs, done, now))
    {
      var done := if failure.Some? then failure.value else Keys(docs);
      var valid := SelectApplicable(docs);
      storage := Store(storage, Done(valid, done));
      changed := now;
      ApplyRows(source, SortRows(valid), failure, done);
      return failure.None?;
    }

    method SelectApplicable(docs: seq<Row>) returns (valid: seq<Row>)
      requires Valid()
      ensures |state.Abs().seen| > 0 && valid == Applicable(state.versions.forgiveness, state.Abs(), docs)
      ensures Keys(valid) <= Keys(docs)
    {
      ghost var f, r := state.versions.forgiveness, state.Abs();
      assert |r.seen| > 0;
      hide SafeFor, RecordsOf, WillApply;
      valid := [];
      for i := 0 to |docs|
        invariant valid == Applicable(f, r, docs[..i])
      {
        assert docs[..i + 1][..i] == docs[..i];
        if state.WillApplyOp(docs[i].key, docs[i].rec.ts) {
          valid := valid + [docs[i]];
        }
      }
      assert docs[..|docs|] == docs;
    }

    method ApplyRows(source: nat, rows: seq<Row>, failure: Option<set<Key>>, ghost done: set<Key>)
      requires Valid() && source < |state.versions.maxStamps|
      requires if failure.Some? then done == failure.value else Keys(rows) <= done
      modifies state, state.versions
      ensures Valid() && state.Abs() == Run(old(state.Abs()), OpsOf(source, Done(rows, done)))
    {
      hide SafeFor, RecordsOf, Apply;
      ghost var r := state.Abs();
      for i := 0 to |rows|
        invariant Valid() && |state.versions.maxStamps| == |r.seen|
        invariant state.Abs() == Run(r, OpsOf(source, Done(rows[..i], done)))
      {
        DoneStep(r, source, rows, i, done);
        var row := rows[i];
        assert row in rows && row.key in Keys(rows);
        if failure.None? || row.key in failure.value {
          match row.rec {
            case Live(ts) => var _ := state.InsertWithSource(source, row.key, ts);
            case Dead(ts) => var _ := state.DeleteWithSource(source, row.key, ts);
          }
        }
      }
      assert rows[..|rows|] == rows;
    }

    method OnPurgeTombstones(failure: Option<set<Key>>) returns (ok: bool)
      requires Valid()
      modifies this, state
      ensures Valid() && (ok <==> failure.None?)
      ensures var f, before := state.versions.forgiveness, old(Abs());
              Abs() == Step(f, before, Sweep(if failure.Some? then failure.value else before.replica.recs.Keys))
    {
      ghost var done := if failure.Some? then failure.value else state.Abs().recs.Keys;
      ghost var f, seen := state.versions.forgiveness, state.versions.maxStamps;
      SweptTables(f, seen, state.entries, state.dead, storage, changed, done);
      SweptAll(f, seen, state.entries, state.dead);
      hide SafeFor, RecordsOf, Split, Step, Purge;
      var purged := state.PurgeOldDeletes();
      storage := storage - if failure.Some? then purged.Keys * failure.value else purged.Keys;
      if failure.Some? {
        state.AddRawTombstones(purged - failure.value);
      }
      return failure.None?;
    }
  }

  lemma SweptRecords(f: nat, seen: seq<Stamps>, e: map<Key, Stamp>, d: map<Key, Stamp>, done: set<Key>)
    requires e.Keys !! d.Keys && |seen| > 0
    ensures var r := Replica(RecordsOf(e, d), seen);
            RecordsOf(e, Split(f, seen, d, false) + (Split(f, seen, d, true) - done))
            == Purge(f, r, r.recs.Keys - done).recs
    ensures (Split(f, seen, d, true) - done).Keys !! e.Keys
  {
    hide Before;
    var r := Replica(RecordsOf(e, d), seen);
    var left := RecordsOf(e, Split(f, seen, d, false) + (Split(f, seen, d, true) - done));
    var right := Purge(f, r, r.recs.Keys - done).recs;
    forall k ensures At(left, k) == At(right, k) {
    }
    SameMap(left, right);
  }

  lemma SweptRows(f: nat, seen: seq<Stamps>, e: map<Key, Stamp>, d: map<Key, Stamp>, rows: map<Key, Rec>,
                  changed: Stamp, done: set<Key>)
    requires e.Keys !! d.Keys && |seen| > 0
    ensures Step(f, Keyspace(Replica(RecordsOf(e, d), seen), rows, changed), Sweep(done)).rows
            == rows - Split(f, seen, d, true).Keys * done
  {
    hide Before, Purge;
  }

  /** A sweep of the tables: what storage did not remove is put back. */
  lemma SweptTables(f: nat, seen: seq<Stamps>, e: map<Key, Stamp>, d: map<Key, Stamp>, rows: map<Key, Rec>,
                    changed: Stamp, done: set<Key>)
    requires e.Keys !! d.Keys && |seen| > 0
    ensures var kept, purged := Split(f, seen, d, false), Split(f, seen, d, true);
            Step(f, Keyspace(Replica(RecordsOf(e, d), seen), rows, changed), Sweep(done))
            == Keyspace(Replica(RecordsOf(e, kept + (purged - done)), seen), rows - purged.Keys * done, changed)
            && (purged - done).Keys !! e.Keys
  {
    SweptRecords(f, seen, e, d, done);
    SweptRows(f, seen, e, d, rows, changed, done);
    hide Before, RecordsOf, Split;
  }

  /** When storage removed everything, nothing is put back. */
  lemma SweptAll(f: nat, seen: seq<Stamps>, e: map<Key, Stamp>, d: map<Key, Stamp>)
    requires e.Keys !! d.Keys && |seen| > 0
    ensures var kept, purged := Split(f, seen, d, false), Split(f, seen, d, true);
            kept + (purged - RecordsOf(e, d).Keys) == kept && purged.Keys * RecordsOf(e, d).Keys == purged.Keys
  {
    hide Before;
  }

  lemma DoneStep(r: Replica, source: nat, rows: seq<Row>, i: nat, done: set<Key>)
    requires i < |rows|
    ensures var before, after := Run(r, OpsOf(source, Done(rows[..i], done))), Run(r, OpsOf(source, Done(rows[..i + 1], done)));
            after == if rows[i].key in done then Apply(before, Op(source, rows[i].key, rows[i].rec)) else before
  {
    hide Apply;
    assert rows[..i + 1][..i] == rows[..i];
    if rows[i].key in done {
      var ops := OpsOf(source, Done(rows[..i + 1], done));
      assert ops[..|ops| - 1] == OpsOf(source, Done(rows[..i], done));
    }
  }

  /** `load_states_from_storage` for one keyspace. */
  method LoadState(listing: seq<Row>, sources: nat, forgiveness: nat) returns (state: OrSWotSet)
    requires sources > 0
    ensures fresh(state) && fresh(state.versions) && state.versions.forgiveness == forgiveness
    ensures state.Valid() && state.Abs() == Load(sources, listing)
  {
    hide SafeFor, RecordsOf, Apply;
    state := new OrSWotSet(sources, forgiveness);
    var rows := SortRows(listing);
    var ops := OpsOf(0, rows);
    for i := 0 to |rows|
      invariant fresh(state) && fresh(state.versions) && state.versions.forgiveness == forgiveness
      invariant state.Valid() && |state.Abs().seen| == sources
      invariant state.Abs() == Run(Empty(sources), ops[..i])
    {
      assert ops[..i + 1][..i] == ops[..i];
      assert |Run(Empty(sources), ops[..i + 1]).seen| == sources;
      match rows[i].rec {
        case Live(ts) => var _ := state.InsertWithSource(0, rows[i].key, ts);
        case Dead(ts) => var _ := state.DeleteWithSource(0, rows[i].key, ts);
      }
    }
    assert ops[..|rows|] == ops;
  }
}
