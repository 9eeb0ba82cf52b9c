/** Restarts of the remote node: exactly which ones the poller survives. */
module Rebooting {
  import opened Hlc
  import opened Records
  import opened Replicas
  import opened Keyspaces
  import Clocks
  import opened Polling

  /** An update is lost: the cell holds the tracked stamp, so no poll reports the keyspace, and it holds
  a record that was never synced. */
  ghost predicate Loses(w: World, synced: set<(Name, Row)>) {
    exists n, k :: LosesAt(w, synced, n, k)
  }

  predicate LosesAt(w: World, synced: set<(Name, Row)>, n: Name, k: Key) {
    n in w.spaces && At(w.tracker, n) == Some(w.spaces[n].cell)
    && k in w.spaces[n].ks.replica.recs && (n, Row(k, w.spaces[n].ks.replica.recs[k])) !in synced
  }

  lemma SoundLosesNothing(f: nat, w: World, synced: set<(Name, Row)>)
    requires Sound(f, w, synced)
    ensures !Loses(w, synced)
  {
    forall n, k ensures !LosesAt(w, synced, n, k) {
      if n in w.spaces && n in w.tracker && k in w.spaces[n].ks.replica.recs {
        assert SpaceOk(f, w.clock, w.spaces[n]) && StandsFor(w, n, w.tracker[n], synced);
        assert (n, Row(k, w.spaces[n].ks.replica.recs[k])) in Rows(n, w.spaces[n].ks.replica.recs);
      }
    }
  }

  /* Steps, one at a time. */

  lemma Stay(f: nat, w: World)
    ensures Continues(f, w, [w], []) && SyncedRows([w], []) == {}
  {
  }

  lemma Grow(f: nat, w: World, ws: seq<World>, es: seq<Event>, e: Event, w': World)
    requires Continues(f, w, ws, es) && Goes(f, ws[|es|], e, w') && SafeAt(ws[|es|], e)
    ensures Continues(f, w, ws + [w'], es + [e])
    ensures SyncedRows(ws + [w'], es + [e]) == SyncedRows(ws, es) + SyncedBy(ws[|es|], e)
  {
    var ws', es' := ws + [w'], es + [e];
    assert ws'[..|es'|] == ws && es'[..|es'| - 1] == es;
    hide Goes, SyncedBy, SyncedRows;
    hide SafeAt;
    forall i | 0 <= i < |es'| ensures Goes(f, ws'[i], es'[i], ws'[i + 1]) && SafeAt(ws'[i], es'[i]) {
      if i < |es| {
        assert ws'[i] == ws[i] && ws'[i + 1] == ws[i + 1] && es'[i] == es[i];
      }
    }
  }

  /** Something never synced. */
  lemma {:induction false} NewKey(rows: set<(Name, Row)>) returns (k: Key)
    ensures forall x :: x in rows ==> x.1.key < k
  {
    if rows == {} {
      k := 0;
    } else {
      var x :| x in rows;
      var k' := NewKey(rows - {x});
      k := k' + x.1.key + 1;
    }
  }

  /** Waiting for the right wall clock, the remote can be brought to give any later stamp of its node
  next. */
  lemma {:induction false} Approach(f: nat, w: World, ts: Stamp) returns (ws: seq<World>, es: seq<Event>, clock: Stamp, wall: nat)
    requires w.clock.Less(ts) && w.clock.node == ts.node
    ensures Continues(f, w, ws, es) && SyncedRows(ws, es) == {}
    ensures ws[|es|] == w.(clock := clock) && Clocks.AfterSend(clock, wall) == Clocks.Ok(ts)
    decreases ts.counter
  {
    wall := 4 * ts.time;
    if ts.counter == 0 || w.clock == Previous(ts) {
      SendReaches(w.clock, ts);
      Stay(f, w);
      ws, es, clock := [w], [], w.clock;
      assert w.(clock := clock) == w;
    } else {
      var prev := Previous(ts);
      assert w.clock.Less(prev) && prev.Less(ts);
      SendReaches(prev, ts);
      hide Continues, SyncedRows, Stamp.Less, Clocks.AfterSend;
      var before: nat;
      ws, es, clock, before := Approach(f, w, prev);
      var w' := w.(clock := prev);
      assert Goes(f, ws[|es|], Tick(before), w');
      hide Goes;
      Grow(f, w, ws, es, Tick(before), w');
      ws, es, clock := ws + [w'], es + [Tick(before)], prev;
    }
  }

  function Previous(ts: Stamp): Stamp
    requires ts.counter > 0
  {
    Stamp(ts.time, ts.counter - 1, ts.node)
  }

  lemma SendReaches(clock: Stamp, ts: Stamp)
    requires clock.Less(ts) && clock.node == ts.node && (ts.counter == 0 || clock == Previous(ts))
    ensures Clocks.AfterSend(clock, 4 * ts.time) == Clocks.Ok(ts)
  {
    Clocks.TicksAreQuarters(4 * ts.time);
    assert Clocks.Ticks(4 * ts.time) == ts.time;
    hide Clocks.Ticks;
  }

  /** A keyspace loaded with the given records, at the given stamp. */
  lemma Loaded(f: nat, w: World, n: Name, recs: map<Key, Rec>, ts: Stamp) returns (ws: seq<World>, es: seq<Event>)
    requires w.clock.Less(ts) && w.clock.node == ts.node && n !in w.spaces
    ensures Continues(f, w, ws, es) && SyncedRows(ws, es) == {}
    ensures ws[|es|] == SetSpace(w.(clock := ts), n, Space(Keyspace(Replica(recs, [map[]]), recs, ts), ts, Idle))
  {
    var clock, wall;
    ws, es, clock, wall := Approach(f, w, ts);
    var ks := Keyspace(Replica(recs, [map[]]), recs, ts);
    var w' := SetSpace(w.(clock := ts), n, Space(ks, ts, Idle));
    assert Goes(f, ws[|es|], Spawn(n, ks, wall), w');
    hide Goes, SyncedRows, Continues;
    Grow(f, w, ws, es, Spawn(n, ks, wall), w');
    ws, es := ws + [w'], es + [Spawn(n, ks, wall)];
  }

  /* Unsafe restarts. */

  /** A tracked stamp after the new clock: the remote gives it again. */
  lemma TrackedIsLost(f: nat, w: World, n: Name, synced: set<(Name, Row)>) returns (ws: seq<World>, es: seq<Event>)
    requires w.spaces == map[] && n in w.tracker && w.clock.Less(w.tracker[n]) && w.clock.node == w.tracker[n].node
    ensures Continues(f, w, ws, es) && Loses(ws[|es|], synced + SyncedRows(ws, es))
  {
    var k := NewKey(synced);
    var recs := map[k := Live(w.clock)];
    ws, es := Loaded(f, w, n, recs, w.tracker[n]);
    assert LosesAt(ws[|es|], synced + SyncedRows(ws, es), n, k);
    hide LosesAt, Continues, SyncedRows;
  }

  /** A snapshot whose stamp is after the new clock: the remote gives the stamp again before the sync. */
  lemma FetchedIsLost(f: nat, w: World, n: Name, synced: set<(Name, Row)>) returns (ws: seq<World>, es: seq<Event>)
    requires w.spaces == map[] && n in w.fetches && w.fetches[n].Got?
    requires w.clock.Less(w.fetches[n].ts) && w.clock.node == w.fetches[n].ts.node
    ensures Continues(f, w, ws, es) && Loses(ws[|es|], synced + SyncedRows(ws, es))
  {
    var before := Rows(n, w.fetches[n].recs);
    var k := NewKey(synced + before);
    var recs := map[k := Live(w.clock)];
    ws, es := Loaded(f, w, n, recs, w.fetches[n].ts);
    hide Goes, Continues, SyncedRows, SyncedBy, Loses;
    var last := ws[|es|];
    var w' := SyncsTooLittle(f, last, n, k, synced);
    Grow(f, w, ws, es, Sync(n, true), w');
    ws, es := ws + [w'], es + [Sync(n, true)];
    assert synced + SyncedRows(ws, es) == synced + before;
  }

  /** A run without its last step. */
  lemma Shorten(f: nat, w: World, ws: seq<World>, es: seq<Event>)
    requires Continues(f, w, ws, es) && es != []
    ensures var n := |es| - 1;
            Continues(f, w, ws[..|es|], es[..n]) && Goes(f, ws[n], es[n], ws[n + 1]) && SafeAt(ws[n], es[n])
            && SyncedRows(ws, es) == SyncedRows(ws[..|es|], es[..n]) + SyncedBy(ws[n], es[n])
  {
    hide Goes, SafeAt, SyncedBy;
  }

  lemma {:induction false} Append(f: nat, w: World, ws: seq<World>, es: seq<Event>, ws': seq<World>, es': seq<Event>)
    returns (all: seq<World>, events: seq<Event>)
    requires Continues(f, w, ws, es) && Continues(f, ws[|es|], ws', es')
    ensures Continues(f, w, all, events) && all[|events|] == ws'[|es'|]
    ensures SyncedRows(all, events) == SyncedRows(ws, es) + SyncedRows(ws', es')
    decreases |es'|
  {
    if es' == [] {
      all, events := ws, es;
      assert SyncedRows(ws', es') == {};
    } else {
      var n := |es'| - 1;
      Shorten(f, ws[|es|], ws', es');
      hide Goes, SafeAt, SyncedBy, SyncedRows;
      all, events := Append(f, w, ws, es, ws'[..n + 1], es'[..n]);
      hide Continues;
      Grow(f, w, all, events, es'[n], ws'[n + 1]);
      all, events := all + [ws'[n + 1]], events + [es'[n]];
    }
  }

  lemma EmptyTakes(f: nat, row: Row, now: Stamp)
    ensures var ks := Keyspace(Replica(map[], [map[]]), map[], now);
            WillApply(f, ks.replica, row.key, row.rec.ts)
            && At(Apply(ks.replica, Op(0, row.key, row.rec)).recs, row.key) == Some(row.rec)
  {
    UnseenSourceBlocks(f, [map[]], 0, row.rec.ts);
    hide Before;
  }

  /** An empty keyspace is written to, at the given stamp. */
  lemma Rewritten(f: nat, w: World, n: Name, row: Row, ts: Stamp) returns (ws: seq<World>, es: seq<Event>)
    requires n in w.spaces && w.spaces[n].job.Idle? && w.spaces[n].ks.replica == Replica(map[], [map[]])
    requires w.clock.Less(ts) && w.clock.node == ts.node
    ensures Continues(f, w, ws, es) && SyncedRows(ws, es) == {}
    ensures ws[|es|].tracker == w.tracker && ws[|es|].fetches == w.fetches
    ensures n in ws[|es|].spaces && ws[|es|].spaces[n].cell == ts && At(ws[|es|].spaces[n].ks.replica.recs, row.key) == Some(row.rec)
  {
    var clock, wall;
    ws, es, clock, wall := Approach(f, w, ts);
    var msg, w0 := Single(0, row, true, ts), ws[|es|];
    EmptyTakes(f, row, ts);
    assert Step(f, w.spaces[n].ks, msg).replica == Apply(w.spaces[n].ks.replica, Op(0, row.key, row.rec));
    hide Goes, Continues, SyncedRows, WillApply, Step, Apply;
    var w1, w2, w3, w4 := WriteRuns(f, w0, n, 0, row, wall, ts);
    ws, es := FourMore(f, w, ws, es, [Begin(n, msg), Take(n, wall), Mark(n), Finish(n)], w1, w2, w3, w4);
  }

  lemma FourMore(f: nat, w: World, ws: seq<World>, es: seq<Event>, more: seq<Event>, w1: World, w2: World, w3: World, w4: World)
    returns (ws': seq<World>, es': seq<Event>)
    requires Continues(f, w, ws, es) && |more| == 4 && forall i :: 0 <= i < 4 ==> !more[i].Reboot? && !more[i].Sync?
    requires Goes(f, ws[|es|], more[0], w1) && Goes(f, w1, more[1], w2) && Goes(f, w2, more[2], w3) && Goes(f, w3, more[3], w4)
    ensures Continues(f, w, ws', es') && SyncedRows(ws', es') == SyncedRows(ws, es) && ws'[|es'|] == w4
  {
    hide Goes, SyncedRows;
    Grow(f, w, ws, es, more[0], w1);
    ws', es' := ws + [w1], es + [more[0]];
    hide Continues;
    Grow(f, w, ws', es', more[1], w2);
    ws', es' := ws' + [w2], es' + [more[1]];
    Grow(f, w, ws', es', more[2], w3);
    ws', es' := ws' + [w3], es' + [more[2]];
    Grow(f, w, ws', es', more[3], w4);
    ws', es' := ws' + [w4], es' + [more[3]];
  }

  /** The sync of a snapshot without the key, when the snapshot's stamp is on the cell. */
  lemma SyncsTooLittle(f: nat, w: World, n: Name, k: Key, synced: set<(Name, Row)>) returns (w': World)
    requires n in w.fetches && n in w.spaces && w.fetches[n].Got? && w.fetches[n].ts == w.spaces[n].cell
    requires k in w.spaces[n].ks.replica.recs && forall x :: x in synced + Rows(n, w.fetches[n].recs) ==> x.1.key != k
    ensures Goes(f, w, Sync(n, true), w') && SyncedBy(w, Sync(n, true)) == Rows(n, w.fetches[n].recs)
    ensures Loses(w', synced + Rows(n, w.fetches[n].recs))
  {
    w' := w.(tracker := w.tracker[n := w.spaces[n].cell], fetches := w.fetches - {n});
    assert LosesAt(w', synced + Rows(n, w.fetches[n].recs), n, k);
    hide Rows;
  }

  /** The state is read at an earlier stamp than the one that was read. */
  lemma ReadTooEarly(f: nat, w: World, n: Name, first: Stamp) returns (ws: seq<World>, es: seq<Event>)
    requires w.spaces == map[] && n in w.fetches && w.fetches[n].Stamped? && w.clock.Less(first) && w.clock.node == first.node
    ensures Continues(f, w, ws, es) && SyncedRows(ws, es) == {}
    ensures var w' := ws[|es|];
            w'.clock == first && At(w'.fetches, n) == Some(Got(w.fetches[n].ts, map[]))
            && n in w'.spaces && w'.spaces[n].job.Idle? && w'.spaces[n].ks.replica == Replica(map[], [map[]])
  {
    ws, es := Loaded(f, w, n, map[], first);
    var w1 := ws[|es|];
    var w2 := SetFetch(w1, n, Got(w.fetches[n].ts, map[]));
    assert Goes(f, w1, AskState(n), w2);
    hide Goes, Continues, SyncedRows;
    Grow(f, w, ws, es, AskState(n), w2);
    ws, es := ws + [w2], es + [AskState(n)];
  }

  /** A stamp after the next one, whose state is still to be read: the state is read at an earlier stamp
  and written to before the stamp comes again. */
  lemma StampedIsLost(f: nat, w: World, n: Name, synced: set<(Name, Row)>) returns (ws: seq<World>, es: seq<Event>)
    requires w.spaces == map[] && w.clock.counter == 0 && n in w.fetches && w.fetches[n].Stamped?
    requires w.clock.Less(w.fetches[n].ts) && w.clock.node == w.fetches[n].ts.node && !IsNext(w.clock, w.fetches[n].ts)
    ensures Continues(f, w, ws, es) && Loses(ws[|es|], synced + SyncedRows(ws, es))
  {
    var ts, first := w.fetches[n].ts, Stamp(w.clock.time, 1, w.clock.node);
    assert w.clock.Less(first) && first.Less(ts);
    hide IsNext, Stamp.Less;
    var k := NewKey(synced);
    var ws1, es1 := ReadTooEarly(f, w, n, first);
    var w1 := ws1[|es1|];
    var ws2, es2 := Rewritten(f, w1, n, Row(k, Live(ts)), ts);
    var w2 := ws2[|es2|];
    hide Goes, Continues, SyncedRows, SyncedBy, Loses;
    ws, es := Append(f, w, ws1, es1, ws2, es2);
    assert synced + Rows(n, map[]) == synced;
    var w3 := SyncsTooLittle(f, w2, n, k, synced);
    Grow(f, w, ws, es, Sync(n, true), w3);
    ws, es := ws + [w3], es + [Sync(n, true)];
    assert synced + SyncedRows(ws, es) == synced + Rows(n, map[]);
  }

  /* Exactly which restarts are safe. */

  lemma HeldNodes(f: nat, w: World, synced: set<(Name, Row)>)
    requires Sound(f, w, synced)
    ensures forall n :: n in w.tracker ==> w.tracker[n].node == w.clock.node
    ensures forall n :: n in w.fetches && !w.fetches[n].Asked? ==> w.fetches[n].ts.node == w.clock.node
  {
    forall n | n in w.tracker ensures w.tracker[n].node == w.clock.node {
      assert StandsFor(w, n, w.tracker[n], synced);
    }
    forall n | n in w.fetches && !w.fetches[n].Asked? ensures w.fetches[n].ts.node == w.clock.node {
      assert FetchOk(w, n, w.fetches[n]);
    }
  }

  /** Some continuation of any other restart loses an update. */
  lemma UnsafeRestartLoses(f: nat, w: World, wall: nat, synced: set<(Name, Row)>)
    requires Sound(f, w, synced) && !Safe(w, NewClock(w, wall))
    ensures exists ws, es :: Continues(f, Next(f, w, Reboot(wall)), ws, es) && Loses(ws[|es|], synced + SyncedRows(ws, es))
  {
    var w' := Next(f, w, Reboot(wall));
    var ws, es;
    HeldNodes(f, w, synced);
    hide Loses, SyncedRows, Sound;
    if n :| n in w.tracker && !w.tracker[n].AtMost(w'.clock) {
      ws, es := TrackedIsLost(f, w', n, synced);
    } else {
      var n :| n in w.fetches && !FetchSafe(w'.clock, w.fetches[n]);
      if w.fetches[n].Got? {
        ws, es := FetchedIsLost(f, w', n, synced);
      } else {
        ws, es := StampedIsLost(f, w', n, synced);
      }
    }
  }

  /** A restart is survived, whatever happens after it, if and only if it is safe: no stamp that the
  poller has tracked or fetched is after the new clock, but for the next one with its state still
  unread. How far the remote's own clock had run ahead does not matter. */
  lemma RestartSurvivedIff(f: nat, w: World, wall: nat, synced: set<(Name, Row)>)
    requires Sound(f, w, synced)
    ensures (forall ws, es :: Continues(f, Next(f, w, Reboot(wall)), ws, es) ==> !Loses(ws[|es|], synced + SyncedRows(ws, es)))
            <==> Safe(w, NewClock(w, wall))
  {
    var w' := Next(f, w, Reboot(wall));
    if Safe(w, NewClock(w, wall)) {
      RestartKeepsSound(f, w, wall, synced);
      forall ws, es | Continues(f, w', ws, es) ensures !Loses(ws[|es|], synced + SyncedRows(ws, es)) {
        hide Next, Sound, Safe, Loses, SyncedRows;
        ContinuesSound(f, w', synced, ws, es);
        SoundLosesNothing(f, ws[|es|], synced + SyncedRows(ws, es));
      }
    } else {
      UnsafeRestartLoses(f, w, wall, synced);
    }
  }
}
