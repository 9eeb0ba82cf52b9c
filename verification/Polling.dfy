/** The repair poller of datacake-eventual-consistency/src/replication/poller.rs and the replication
service it talks to, as a protocol between one local node and one remote node.

The remote's keyspace actors handle one message at a time, but a poll reads the change stamps
without going through the actors, so it may see a stamp in the middle of a message. The two reads of
`GetState` are messages, so they fall between others, and others may fall between them. */
module Polling {
  import opened Hlc
  import opened Records
  import opened Replicas
  import opened Keyspaces
  import opened Clocks

  type Name = string

  type Tracked = map<Name, Stamp>

  /** The keyspaces a poll reports: known on one side only, or with different stamps. */
  function Differing(ours: Tracked, theirs: Tracked): set<Name> {
    set n | n in ours.Keys + theirs.Keys && At(ours, n) != At(theirs, n)
  }

  /* The remote node. */

  /** What an actor is doing: a message it has begun, one for which it has asked the clock for a
  change stamp, and one whose stamp it has stored. */
  datatype Job = Idle | Working(msg: Msg) | Timed(msg: Msg) | Marked(msg: Msg)

  /** The actor's state, and the cell that a poll reads. */
  datatype Space = Space(ks: Keyspace, cell: Stamp, job: Job)

  /** The message ends in a new change stamp. */
  predicate Stamps(f: nat, ks: Keyspace, msg: Msg)
    requires |ks.replica.seen| > 0
  {
    match msg
    case Single(_, row, stored, _) => WillApply(f, ks.replica, row.key, row.rec.ts) && stored
    case Batch(_, _, _, _) => true
    case Sweep(_) => false
  }

  /* The local node. */

  /** A keyspace being fetched: asked for, its stamp read, its state read too. */
  datatype Fetch = Asked | Stamped(ts: Stamp) | Got(ts: Stamp, recs: map<Key, Rec>)

  datatype World = World(
    clock: Stamp, spaces: map<Name, Space>,
    tracker: Tracked, polled: Tracked, fetches: map<Name, Fetch>)

  datatype Event =
    // The remote's clock issues a stamp for something else, or receives one.
    | Tick(wall: nat)
    | Hear(heard: Stamp, wall: nat)
    // The remote process starts again, with a clock from the wall and no keyspaces yet.
    | Reboot(wall: nat)
    // A keyspace is created empty, or loaded from storage.
    | Spawn(name: Name, ks: Keyspace, wall: nat)
    // The life of a message.
    | Begin(name: Name, msg: Msg)
    | Take(name: Name, wall: nat)
    | Mark(name: Name)
    | Finish(name: Name)
    // A repair cycle: the poll reads the cells one by one and is compared with the tracker, the
    // stamp and then the state are fetched, and the difference is synced or not.
    | Read(name: Name)
    | Compare
    | AskStamp(name: Name)
    | AskState(name: Name)
    | GiveUp(name: Name)
    | Sync(name: Name, ok: bool)
    // The remote leaves the cluster.
    | Leave

  predicate Possible(f: nat, w: World, e: Event) {
    match e
    case Tick(wall) => AfterSend(w.clock, wall).Ok?
    case Hear(msg, wall) => AfterRecv(w.clock, msg, wall).Ok?
    case Reboot(_) => true
    case Spawn(name, ks, wall) =>
      name !in w.spaces && |ks.replica.seen| > 0 && AfterSend(w.clock, wall) == Ok(ks.changed)
    case Begin(name, msg) => name in w.spaces && w.spaces[name].job.Idle?
    case Take(name, wall) =>
      name in w.spaces && |w.spaces[name].ks.replica.seen| > 0
      && var job := w.spaces[name].job;
         job.Working? && Stamps(f, w.spaces[name].ks, job.msg) && AfterSend(w.clock, wall) == Ok(job.msg.now)
    case Mark(name) => name in w.spaces && w.spaces[name].job.Timed? && !w.spaces[name].job.msg.Sweep?
    case Finish(name) =>
      name in w.spaces && |w.spaces[name].ks.replica.seen| > 0
      && var job := w.spaces[name].job;
         job.Marked? || (job.Working? && !Stamps(f, w.spaces[name].ks, job.msg))
    case Read(name) => name in w.spaces
    case Compare => w.fetches == map[]
    case AskStamp(name) =>
      name in w.spaces && w.spaces[name].job.Idle? && name in w.fetches && w.fetches[name].Asked?
    case AskState(name) =>
      name in w.spaces && w.spaces[name].job.Idle? && name in w.fetches && w.fetches[name].Stamped?
    case GiveUp(name) => name in w.fetches
    case Sync(name, _) => name in w.fetches && w.fetches[name].Got?
    case Leave => true
  }

  /** `HLCTimestamp::now(0, node)`. */
  function NewClock(w: World, wall: nat): Stamp { Stamp(Ticks(wall), 0, w.clock.node) }

  /** The very next stamp of the clock's node. */
  predicate IsNext(clock: Stamp, ts: Stamp) {
    ts.time == clock.time && ts.counter == clock.counter + 1 && ts.node == clock.node
  }

  predicate FetchSafe(clock: Stamp, fetch: Fetch) {
    match fetch
    case Asked => true
    case Stamped(ts) => ts.AtMost(clock) || IsNext(clock, ts)
    case Got(ts, _) => ts.AtMost(clock)
  }

  /** A restart is safe for the poller: no stamp it has tracked or fetched is after the new clock. A
  stamp whose state is still to be read may be the very next one. */
  ghost predicate Safe(w: World, clock: Stamp) {
    (forall n :: n in w.tracker ==> w.tracker[n].AtMost(clock))
    && (forall n :: n in w.fetches ==> FetchSafe(clock, w.fetches[n]))
  }

  ghost predicate SafeAt(w: World, e: Event) { e.Reboot? ==> Safe(w, NewClock(w, e.wall)) }

  function SetSpace(w: World, name: Name, s: Space): World { w.(spaces := w.spaces[name := s]) }

  function SetFetch(w: World, name: Name, fetch: Fetch): World { w.(fetches := w.fetches[name := fetch]) }

  function Next(f: nat, w: World, e: Event): World
    requires Possible(f, w, e)
  {
    match e
    case Tick(wall) => w.(clock := AfterSend(w.clock, wall).value)
    case Hear(msg, wall) => w.(clock := AfterRecv(w.clock, msg, wall).value)
    case Reboot(wall) => w.(clock := NewClock(w, wall), spaces := map[])
    case Spawn(name, ks, wall) => SetSpace(w.(clock := ks.changed), name, Space(ks, ks.changed, Idle))
    case Begin(name, msg) => SetSpace(w, name, w.spaces[name].(job := Working(msg)))
    case Take(name, wall) =>
      var msg := w.spaces[name].job.msg;
      SetSpace(w.(clock := msg.now), name, w.spaces[name].(job := Timed(msg)))
    case Mark(name) =>
      var msg := w.spaces[name].job.msg;
      SetSpace(w, name, w.spaces[name].(cell := msg.now, job := Marked(msg)))
    case Finish(name) =>
      var s := w.spaces[name];
      SetSpace(w, name, Space(Step(f, s.ks, s.job.msg), s.cell, Idle))
    case Read(name) => w.(polled := w.polled[name := w.spaces[name].cell])
    case Compare => w.(fetches := map n | n in Differing(w.tracker, w.polled) :: Asked, polled := map[])
    case AskStamp(name) => SetFetch(w, name, Stamped(w.spaces[name].cell))
    case AskState(name) => SetFetch(w, name, Got(w.fetches[name].ts, w.spaces[name].ks.replica.recs))
    case GiveUp(name) => w.(fetches := w.fetches - {name})
    case Sync(name, ok) =>
      w.(tracker := if ok then w.tracker[name := w.fetches[name].ts] else w.tracker, fetches := w.fetches - {name})
    case Leave => w.(tracker := map[])
  }

  function Boot(clock: Stamp): World { World(clock, map[], map[], map[], map[]) }

  /** A run from a remote with no keyspaces and a local node that has tracked nothing. */
  ghost predicate Trace(f: nat, ws: seq<World>, es: seq<Event>) {
    |ws| == |es| + 1
    && ws[0] == Boot(ws[0].clock)
    && forall i :: 0 <= i < |es| ==> Possible(f, ws[i], es[i]) && ws[i + 1] == Next(f, ws[i], es[i])
  }

  /** Steps from a world, with every restart safe. */
  ghost predicate Continues(f: nat, w: World, ws: seq<World>, es: seq<Event>) {
    |ws| == |es| + 1 && ws[0] == w
    && forall i :: 0 <= i < |es| ==> Goes(f, ws[i], es[i], ws[i + 1]) && SafeAt(ws[i], es[i])
  }

  predicate Goes(f: nat, w: World, e: Event, w': World) { Possible(f, w, e) && w' == Next(f, w, e) }

  ghost predicate AllSafe(ws: seq<World>, es: seq<Event>) {
    |ws| == |es| + 1 && forall i :: 0 <= i < |es| ==> SafeAt(ws[i], es[i])
  }

  /** The record was in a state that was fetched from the remote's keyspace and then synced with
  success. */
  ghost predicate Synced(ws: seq<World>, es: seq<Event>, name: Name, row: Row) {
    exists i :: 0 <= i < |es| && i < |ws| && es[i] == Sync(name, true) && (name, row) in Fetched(ws[i], name)
  }

  /** The records of a keyspace's fetched state. */
  function Fetched(w: World, name: Name): set<(Name, Row)> {
    if name in w.fetches && w.fetches[name].Got? then Rows(name, w.fetches[name].recs) else {}
  }

  function Rows(name: Name, recs: map<Key, Rec>): set<(Name, Row)> { set k | k in recs :: (name, Row(k, recs[k])) }

  /** All the records synced so far. */
  ghost function SyncedRows(ws: seq<World>, es: seq<Event>): set<(Name, Row)>
    requires |ws| == |es| + 1
  {
    if es == [] then {} else SyncedRows(ws[..|es|], es[..|es| - 1]) + SyncedBy(ws[|es| - 1], es[|es| - 1])
  }

  function SyncedBy(w: World, e: Event): set<(Name, Row)> {
    if e.Sync? && e.ok then Fetched(w, e.name) else {}
  }

  /* What every step keeps. */

  ghost predicate Within(a: map<Key, Rec>, b: map<Key, Rec>) { forall k :: k in a ==> k in b && a[k] == b[k] }

  /** A stamp of the clock's node that the clock has reached. */
  predicate UpTo(ts: Stamp, clock: Stamp) { ts.AtMost(clock) && ts.node == clock.node }

  /** A cell's stamp and the actor's agree except while a message is storing a newer one; nothing is
  ahead of the clock. */
  predicate SpaceOk(f: nat, clock: Stamp, s: Space) {
    |s.ks.replica.seen| > 0 && UpTo(s.ks.changed, clock)
    && match s.job
       case Idle => s.cell == s.ks.changed
       case Working(_) => s.cell == s.ks.changed
       case Timed(msg) => s.cell == s.ks.changed && Stamps(f, s.ks, msg) && s.cell.Less(msg.now) && UpTo(msg.now, clock)
       case Marked(msg) => Stamps(f, s.ks, msg) && s.cell == msg.now && s.ks.changed.Less(msg.now) && UpTo(msg.now, clock)
  }

  ghost predicate SpacesOk(f: nat, w: World) { forall n :: n in w.spaces ==> SpaceOk(f, w.clock, w.spaces[n]) }

  /** A stamp that was the keyspace's at some time. */
  predicate NotAhead(w: World, n: Name, ts: Stamp) {
    UpTo(ts, w.clock) && (n in w.spaces ==> ts.AtMost(w.spaces[n].ks.changed))
  }

  /** After a safe restart it may also be the next stamp, until the keyspace is there again. */
  predicate HardlyAhead(w: World, n: Name, ts: Stamp) {
    NotAhead(w, n, ts) || (n !in w.spaces && IsNext(w.clock, ts))
  }

  predicate Current(w: World, n: Name, ts: Stamp) { n in w.spaces && w.spaces[n].ks.changed == ts }

  /** If the stamp is still the keyspace's, the keyspace holds nothing but these records. */
  ghost predicate StandsFor(w: World, n: Name, ts: Stamp, rows: set<(Name, Row)>) {
    NotAhead(w, n, ts) && (Current(w, n, ts) ==> Rows(n, w.spaces[n].ks.replica.recs) <= rows)
  }

  ghost predicate FetchOk(w: World, n: Name, fetch: Fetch) {
    match fetch
    case Asked => true
    case Stamped(ts) => HardlyAhead(w, n, ts)
    case Got(ts, recs) => StandsFor(w, n, ts, Rows(n, recs))
  }

  ghost predicate Sound(f: nat, w: World, synced: set<(Name, Row)>) {
    SpacesOk(f, w)
    && (forall n :: n in w.tracker ==> StandsFor(w, n, w.tracker[n], synced))
    && (forall n :: n in w.fetches ==> FetchOk(w, n, w.fetches[n]))
  }

  /** How the remote moves: a keyspace takes a later stamp, or only loses records, or is new and has
  a stamp later than any before. */
  ghost predicate Moves(w: World, w': World) {
    UpTo(w.clock, w'.clock)
    && forall n :: n in w'.spaces ==> SpaceMoves(w, w'.spaces[n].ks, n)
  }

  ghost predicate SpaceMoves(w: World, ks': Keyspace, n: Name) {
    if n in w.spaces then
      var ks := w.spaces[n].ks;
      ks.changed.Less(ks'.changed) || (ks.changed == ks'.changed && Within(ks'.replica.recs, ks.replica.recs))
    else w.clock.Less(ks'.changed) && ks'.changed.node == w.clock.node
  }

  /** A message without a new stamp adds nothing; any other takes its stamp from the clock. */
  lemma MessageMoves(f: nat, ks: Keyspace, msg: Msg)
    requires |ks.replica.seen| > 0
    ensures Stamps(f, ks, msg) ==> Step(f, ks, msg).changed == msg.now
    ensures !Stamps(f, ks, msg) ==>
              Step(f, ks, msg).changed == ks.changed && Within(Step(f, ks, msg).replica.recs, ks.replica.recs)
  {
    hide WillApply, Applicable, Done, SortRows, Purgeable;
  }

  lemma MoveKeepsMeaning(w: World, w': World, n: Name, ts: Stamp, rows: set<(Name, Row)>)
    requires Moves(w, w') && NotAhead(w, n, ts)
    ensures NotAhead(w', n, ts)
    ensures StandsFor(w, n, ts, rows) ==> StandsFor(w', n, ts, rows)
  {
    if n in w'.spaces {
      assert SpaceMoves(w, w'.spaces[n].ks, n);
    }
  }

  lemma MoveKeepsHardlyAhead(f: nat, w: World, w': World, n: Name, ts: Stamp)
    requires Moves(w, w') && SpacesOk(f, w') && HardlyAhead(w, n, ts)
    ensures HardlyAhead(w', n, ts)
  {
    if n in w'.spaces {
      assert SpaceMoves(w, w'.spaces[n].ks, n) && SpaceOk(f, w'.clock, w'.spaces[n]);
    }
    hide SpacesOk;
  }

  lemma MoveKeepsSound(f: nat, w: World, w': World, synced: set<(Name, Row)>)
    requires Sound(f, w, synced) && Moves(w, w') && SpacesOk(f, w') && w'.tracker == w.tracker && w'.fetches == w.fetches
    ensures Sound(f, w', synced)
  {
    hide SpacesOk, Moves, HardlyAhead;
    forall n | n in w.tracker ensures StandsFor(w', n, w.tracker[n], synced) {
      MoveKeepsMeaning(w, w', n, w.tracker[n], synced);
    }
    forall n | n in w.fetches ensures FetchOk(w', n, w.fetches[n]) {
      match w.fetches[n]
      case Asked =>
      case Stamped(ts) => MoveKeepsHardlyAhead(f, w, w', n, ts);
      case Got(ts, recs) => MoveKeepsMeaning(w, w', n, ts, Rows(n, recs));
    }
  }

  predicate IsRemote(e: Event) {
    e.Tick? || e.Hear? || e.Spawn? || e.Begin? || e.Take? || e.Mark? || e.Finish?
  }

  predicate IsLocal(e: Event) { !IsRemote(e) && !e.Reboot? }

  lemma FinishMoves(f: nat, clock: Stamp, s: Space)
    requires SpaceOk(f, clock, s) && (s.job.Marked? || (s.job.Working? && !Stamps(f, s.ks, s.job.msg)))
    ensures var ks' := Step(f, s.ks, s.job.msg);
            SpaceOk(f, clock, Space(ks', s.cell, Idle))
            && (s.ks.changed.Less(ks'.changed)
                || (s.ks.changed == ks'.changed && Within(ks'.replica.recs, s.ks.replica.recs)))
  {
    MessageMoves(f, s.ks, s.job.msg);
    hide Stamps, Step, Within;
  }

  /** A message begins, takes its stamp from the clock, or stores it. */
  lemma MessageGoesOn(f: nat, clock: Stamp, clock': Stamp, s: Space, s': Space)
    requires SpaceOk(f, clock, s) && UpTo(clock, clock') && s'.ks == s.ks
    requires match s'.job
             case Idle => false
             case Working(_) => s.job.Idle? && s'.cell == s.cell
             case Timed(msg) => s.job == Working(msg) && Stamps(f, s.ks, msg) && s'.cell == s.cell && clock.Less(clock') && clock' == msg.now
             case Marked(msg) => s.job == Timed(msg) && s'.cell == msg.now
    ensures SpaceOk(f, clock', s')
  {
    hide Stamps;
  }

  lemma LaterClock(f: nat, c: Stamp, c': Stamp, s: Space)
    requires SpaceOk(f, c, s) && UpTo(c, c')
    ensures SpaceOk(f, c', s)
  {
    hide Stamps;
  }

  /** A later clock, and at most one keyspace changed. */
  lemma OneSpaceMoves(f: nat, w: World, w': World, name: Name)
    requires SpacesOk(f, w) && UpTo(w.clock, w'.clock)
    requires forall n :: n in w'.spaces && n != name ==> n in w.spaces && w'.spaces[n] == w.spaces[n]
    requires name in w'.spaces ==> SpaceOk(f, w'.clock, w'.spaces[name]) && SpaceMoves(w, w'.spaces[name].ks, name)
    ensures SpacesOk(f, w') && Moves(w, w')
  {
    hide UpTo, SpaceOk;
    forall n | n in w'.spaces && n != name ensures SpaceOk(f, w'.clock, w'.spaces[n]) {
      LaterClock(f, w.clock, w'.clock, w.spaces[n]);
    }
  }

  lemma SpaceStays(f: nat, w: World, clock: Stamp, name: Name)
    requires SpacesOk(f, w) && UpTo(w.clock, clock)
    ensures name in w.spaces ==> SpaceOk(f, clock, w.spaces[name]) && SpaceMoves(w, w.spaces[name].ks, name)
  {
    if name in w.spaces {
      LaterClock(f, w.clock, clock, w.spaces[name]);
    }
  }

  predicate IsClock(e: Event) { e.Tick? || e.Hear? }

  lemma ClockMoves(f: nat, w: World, e: Event)
    requires SpacesOk(f, w) && Possible(f, w, e) && IsClock(e)
    ensures SpacesOk(f, Next(f, w, e)) && Moves(w, Next(f, w, e))
  {
    match e {
      case Tick(wall) => SendIsLeast(w.clock, wall);
      case Hear(heard, wall) => RecvIsLeast(w.clock, heard, wall);
    }
    SpaceStays(f, w, Next(f, w, e).clock, "");
    OneSpaceMoves(f, w, Next(f, w, e), "");
  }

  lemma ChangedSpace(f: nat, w: World, e: Event)
    requires SpacesOk(f, w) && Possible(f, w, e) && IsRemote(e) && !IsClock(e)
    ensures var w' := Next(f, w, e);
            UpTo(w.clock, w'.clock) && w'.spaces.Keys == w.spaces.Keys + {e.name}
            && SpaceOk(f, w'.clock, w'.spaces[e.name]) && SpaceMoves(w, w'.spaces[e.name].ks, e.name)
  {
    var w' := Next(f, w, e);
    assert e.name in w.spaces ==> SpaceOk(f, w.clock, w.spaces[e.name]);
    hide SpacesOk;
    match e {
      case Spawn(_, _, wall) => SendIsLeast(w.clock, wall);
      case Take(name, wall) =>
        SendIsLeast(w.clock, wall);
        MessageGoesOn(f, w.clock, w'.clock, w.spaces[name], w'.spaces[name]);
      case Finish(name) => FinishMoves(f, w.clock, w.spaces[name]);
      case Begin(name, msg) => MessageGoesOn(f, w.clock, w.clock, w.spaces[name], w'.spaces[name]);
      case Mark(name) => MessageGoesOn(f, w.clock, w.clock, w.spaces[name], w'.spaces[name]);
    }
    hide Stamps, Step, AfterSend;
  }

  lemma OthersStay(f: nat, w: World, e: Event)
    requires Possible(f, w, e) && IsRemote(e) && !IsClock(e)
    ensures var w' := Next(f, w, e);
            forall n :: n in w'.spaces && n != e.name ==> n in w.spaces && w'.spaces[n] == w.spaces[n]
  {
  }

  lemma SpaceMovesOn(f: nat, w: World, e: Event)
    requires SpacesOk(f, w) && Possible(f, w, e) && IsRemote(e) && !IsClock(e)
    ensures SpacesOk(f, Next(f, w, e)) && Moves(w, Next(f, w, e))
  {
    hide Possible, Next, SpaceOk, SpacesOk, SpaceMoves, Moves;
    ChangedSpace(f, w, e);
    OthersStay(f, w, e);
    OneSpaceMoves(f, w, Next(f, w, e), e.name);
  }

  /** As long as the remote runs, its stamps only move forward, whatever the wall clock shows. */
  lemma RemoteMoves(f: nat, w: World, e: Event)
    requires SpacesOk(f, w) && Possible(f, w, e) && IsRemote(e)
    ensures SpacesOk(f, Next(f, w, e)) && Moves(w, Next(f, w, e))
  {
    hide Possible, Next, SpacesOk, Moves;
    if IsClock(e) {
      ClockMoves(f, w, e);
    } else {
      SpaceMovesOn(f, w, e);
    }
  }

  lemma LocalKeepsSpaces(f: nat, w: World, e: Event)
    requires Possible(f, w, e) && IsLocal(e)
    ensures Next(f, w, e).spaces == w.spaces && Next(f, w, e).clock == w.clock
  {
  }

  lemma SameMeaning(w: World, w': World, n: Name)
    requires w'.spaces == w.spaces && w'.clock == w.clock
    ensures forall ts, rows :: StandsFor(w, n, ts, rows) <==> StandsFor(w', n, ts, rows)
    ensures forall fetch :: FetchOk(w, n, fetch) <==> FetchOk(w', n, fetch)
  {
  }

  lemma LocalKeepsTracked(f: nat, w: World, e: Event, synced: set<(Name, Row)>, n: Name)
    requires Sound(f, w, synced) && Possible(f, w, e) && IsLocal(e)
    ensures n in Next(f, w, e).tracker ==> StandsFor(w, n, Next(f, w, e).tracker[n], synced + SyncedBy(w, e))
  {
    assert n in w.tracker ==> StandsFor(w, n, w.tracker[n], synced);
    assert n in w.fetches ==> FetchOk(w, n, w.fetches[n]);
    hide Sound, NotAhead;
  }

  lemma LocalKeepsFetch(f: nat, w: World, e: Event, synced: set<(Name, Row)>, n: Name)
    requires Sound(f, w, synced) && Possible(f, w, e) && IsLocal(e)
    ensures n in Next(f, w, e).fetches ==> FetchOk(w, n, Next(f, w, e).fetches[n])
  {
    assert n in w.spaces ==> SpaceOk(f, w.clock, w.spaces[n]);
    assert n in w.fetches ==> FetchOk(w, n, w.fetches[n]);
    hide Sound, Stamps, Rows;
  }

  lemma LocalKeepsSound(f: nat, w: World, e: Event, synced: set<(Name, Row)>)
    requires Sound(f, w, synced) && Possible(f, w, e) && IsLocal(e)
    ensures Sound(f, Next(f, w, e), synced + SyncedBy(w, e))
  {
    LocalKeepsSpaces(f, w, e);
    hide Possible, Next, StandsFor, FetchOk, SyncedBy, SpaceOk;
    forall n ensures n in Next(f, w, e).tracker ==> StandsFor(Next(f, w, e), n, Next(f, w, e).tracker[n], synced + SyncedBy(w, e)) {
      SameMeaning(w, Next(f, w, e), n);
      LocalKeepsTracked(f, w, e, synced, n);
    }
    forall n ensures n in Next(f, w, e).fetches ==> FetchOk(Next(f, w, e), n, Next(f, w, e).fetches[n]) {
      SameMeaning(w, Next(f, w, e), n);
      LocalKeepsFetch(f, w, e, synced, n);
    }
  }

  lemma RemoteLeavesLocal(f: nat, w: World, e: Event)
    requires Possible(f, w, e) && IsRemote(e)
    ensures Next(f, w, e).tracker == w.tracker && Next(f, w, e).fetches == w.fetches && SyncedBy(w, e) == {}
  {
  }

  /** A safe restart keeps the meaning of what the poller holds. */
  lemma RestartKeepsSound(f: nat, w: World, wall: nat, synced: set<(Name, Row)>)
    requires Sound(f, w, synced) && Safe(w, NewClock(w, wall))
    ensures Sound(f, Next(f, w, Reboot(wall)), synced)
  {
    var w' := Next(f, w, Reboot(wall));
    forall n | n in w.fetches ensures FetchOk(w', n, w.fetches[n]) {
      assert FetchOk(w, n, w.fetches[n]) && FetchSafe(w'.clock, w.fetches[n]);
    }
    forall n | n in w.tracker ensures StandsFor(w', n, w.tracker[n], synced) {
      assert StandsFor(w, n, w.tracker[n], synced);
    }
  }

  lemma StepKeepsSound(f: nat, w: World, e: Event, synced: set<(Name, Row)>)
    requires Sound(f, w, synced) && Possible(f, w, e) && SafeAt(w, e)
    ensures Sound(f, Next(f, w, e), synced + SyncedBy(w, e))
  {
    if IsRemote(e) {
      hide Possible, Next, StandsFor, FetchOk, SpacesOk, SyncedBy;
      RemoteMoves(f, w, e);
      RemoteLeavesLocal(f, w, e);
      MoveKeepsSound(f, w, Next(f, w, e), synced);
      assert synced + SyncedBy(w, e) == synced;
    } else if e.Reboot? {
      RestartKeepsSound(f, w, e.wall, synced);
      assert synced + SyncedBy(w, e) == synced;
    } else {
      hide Possible, Next, Sound, SyncedBy;
      LocalKeepsSound(f, w, e, synced);
    }
  }

  /* Whole runs. */

  lemma {:induction false} ContinuesSound(f: nat, w: World, synced: set<(Name, Row)>, ws: seq<World>, es: seq<Event>)
    requires Sound(f, w, synced) && Continues(f, w, ws, es)
    ensures Sound(f, ws[|es|], synced + SyncedRows(ws, es))
  {
    if es == [] {
      assert synced + SyncedRows(ws, es) == synced;
    } else {
      var n := |es| - 1;
      var before := synced + SyncedRows(ws[..n + 1], es[..n]);
      assert Goes(f, ws[n], es[n], ws[n + 1]) && SafeAt(ws[n], es[n]);
      assert synced + SyncedRows(ws, es) == before + SyncedBy(ws[n], es[n]);
      assert Possible(f, ws[n], es[n]) && ws[n + 1] == Next(f, ws[n], es[n]);
      hide Possible, Next, Sound, SafeAt, Goes, SyncedRows, SyncedBy;
      assert Continues(f, w, ws[..n + 1], es[..n]);
      ContinuesSound(f, w, synced, ws[..n + 1], es[..n]);
      StepKeepsSound(f, ws[n], es[n], before);
    }
  }

  lemma RunIsSound(f: nat, ws: seq<World>, es: seq<Event>)
    requires Trace(f, ws, es) && AllSafe(ws, es)
    ensures Sound(f, ws[|es|], SyncedRows(ws, es))
  {
    assert Sound(f, ws[0], {});
    hide Possible, Next, Sound, SafeAt;
    assert Continues(f, ws[0], ws, es);
    ContinuesSound(f, ws[0], {}, ws, es);
    assert {} + SyncedRows(ws, es) == SyncedRows(ws, es);
  }

  lemma {:induction false} SyncedRowsAreSynced(ws: seq<World>, es: seq<Event>, name: Name, row: Row)
    requires |ws| == |es| + 1 && (name, row) in SyncedRows(ws, es)
    ensures Synced(ws, es, name, row)
  {
    var n := |es| - 1;
    if (name, row) in SyncedBy(ws[n], es[n]) {
      assert es[n] == Sync(name, true);
    } else {
      SyncedRowsAreSynced(ws[..n + 1], es[..n], name, row);
      var i :| 0 <= i < n && es[..n][i] == Sync(name, true) && (name, row) in Fetched(ws[..n + 1][i], name);
      assert es[i] == Sync(name, true) && (name, row) in Fetched(ws[i], name);
    }
  }

  /** No lost update: in every run, whenever the cell of a keyspace holds the tracked stamp, everything
  the keyspace held after its last complete message was in a snapshot whose sync succeeded. Between
  messages that is everything it holds; and a poll in the middle of one is not misled either. The
  remote may be restarted whenever that is safe for what the poller holds. */
  lemma NoLostUpdate(f: nat, ws: seq<World>, es: seq<Event>, name: Name, k: Key)
    requires Trace(f, ws, es) && AllSafe(ws, es)
    requires var w := ws[|es|];
             name in w.spaces && At(w.tracker, name) == Some(w.spaces[name].cell)
             && k in w.spaces[name].ks.replica.recs
    ensures Synced(ws, es, name, Row(k, ws[|es|].spaces[name].ks.replica.recs[k]))
  {
    var w, synced := ws[|es|], SyncedRows(ws, es);
    RunIsSound(f, ws, es);
    assert SpaceOk(f, w.clock, w.spaces[name]) && StandsFor(w, name, w.tracker[name], synced);
    assert (name, Row(k, w.spaces[name].ks.replica.recs[k])) in Rows(name, w.spaces[name].ks.replica.recs);
    SyncedRowsAreSynced(ws, es, name, Row(k, w.spaces[name].ks.replica.recs[k]));
  }

  function Cells(w: World): Tracked { map n | n in w.spaces :: w.spaces[n].cell }

  /** So a poll reports every keyspace that holds something never synced. */
  lemma PollReportsUnsynced(f: nat, ws: seq<World>, es: seq<Event>, name: Name, k: Key)
    requires Trace(f, ws, es) && AllSafe(ws, es)
    requires name in ws[|es|].spaces && k in ws[|es|].spaces[name].ks.replica.recs
    requires !Synced(ws, es, name, Row(k, ws[|es|].spaces[name].ks.replica.recs[k]))
    ensures name in Differing(ws[|es|].tracker, Cells(ws[|es|]))
  {
    if At(ws[|es|].tracker, name) == Some(ws[|es|].spaces[name].cell) {
      NoLostUpdate(f, ws, es, name, k);
    }
  }

  lemma PollAsks(f: nat, w: World, name: Name) returns (w1: World, w2: World)
    requires name in w.spaces && w.fetches == map[] && At(w.tracker, name) != Some(w.spaces[name].cell)
    ensures Goes(f, w, Read(name), w1) && Goes(f, w1, Compare, w2)
    ensures w2.spaces == w.spaces && w2.clock == w.clock && At(w2.fetches, name) == Some(Asked)
  {
    w1 := Next(f, w, Read(name));
    assert name in Differing(w1.tracker, w1.polled);
    w2 := Next(f, w1, Compare);
  }

  lemma FetchGets(f: nat, w: World, name: Name) returns (w1: World, w2: World)
    requires name in w.spaces && w.spaces[name].job.Idle? && At(w.fetches, name) == Some(Asked)
    ensures Goes(f, w, AskStamp(name), w1) && Goes(f, w1, AskState(name), w2)
    ensures w2.spaces == w.spaces && w2.clock == w.clock
            && At(w2.fetches, name) == Some(Got(w.spaces[name].cell, w.spaces[name].ks.replica.recs))
  {
    w1 := Next(f, w, AskStamp(name));
    w2 := Next(f, w1, AskState(name));
  }

  /** A reported keyspace can be caught up with: a cycle during which it handles no message leaves it
  tracked at its own stamp, so that the next poll does not report it. */
  lemma QuietCycleCatchesUp(f: nat, w: World, name: Name) returns (ws: seq<World>)
    requires name in w.spaces && w.spaces[name].job.Idle? && w.fetches == map[]
    requires At(w.tracker, name) != Some(w.spaces[name].cell)
    ensures |ws| == 5
    ensures Goes(f, w, Read(name), ws[0]) && Goes(f, ws[0], Compare, ws[1])
    ensures Goes(f, ws[1], AskStamp(name), ws[2]) && Goes(f, ws[2], AskState(name), ws[3])
    ensures Goes(f, ws[3], Sync(name, true), ws[4])
    ensures name !in Differing(ws[4].tracker, Cells(ws[4]))
  {
    var w1, w2 := PollAsks(f, w, name);
    hide Goes;
    var w3, w4 := FetchGets(f, w2, name);
    var w5 := SyncTracks(f, w4, name);
    ws := [w1, w2, w3, w4, w5];
  }

  lemma SyncTracks(f: nat, w: World, name: Name) returns (w': World)
    requires name in w.spaces && name in w.fetches && w.fetches[name].Got? && w.fetches[name].ts == w.spaces[name].cell
    ensures Goes(f, w, Sync(name, true), w') && name !in Differing(w'.tracker, Cells(w'))
    ensures w'.spaces == w.spaces && w'.clock == w.clock && At(w'.tracker, name) == Some(w.spaces[name].cell)
  {
    w' := Next(f, w, Sync(name, true));
  }

  /** After a poll exactly the keyspaces known on one side only, or with another stamp, are asked for. */
  lemma PollAsksFor(f: nat, w: World, n: Name)
    requires Possible(f, w, Compare)
    ensures At(Next(f, w, Compare).fetches, n)
            == if (n in w.tracker && n !in w.polled) || (n !in w.tracker && n in w.polled)
                  || (n in w.tracker && n in w.polled && w.tracker[n] != w.polled[n])
               then Some(Asked) else None
  {
  }

  /** A tracked stamp changes only by a successful sync of its keyspace, to the stamp read before the
  snapshot, or by the remote leaving. Failures and everything else leave it alone. */
  lemma TrackedChangesOnlyBySync(f: nat, w: World, e: Event, n: Name)
    requires Possible(f, w, e)
    ensures At(Next(f, w, e).tracker, n)
            == if e.Leave? then None else if e == Sync(n, true) then Some(w.fetches[n].ts) else At(w.tracker, n)
  {
    hide Stamps, Step, AfterSend, AfterRecv;
  }

  /** What is read: the poll reads the cell, the stamp request the cell of an idle actor, the state request
  all its records. */
  lemma ReadsMean(f: nat, w: World, n: Name)
    ensures Possible(f, w, Read(n)) ==> At(Next(f, w, Read(n)).polled, n) == Some(w.spaces[n].cell)
    ensures Possible(f, w, AskStamp(n)) ==> At(Next(f, w, AskStamp(n)).fetches, n) == Some(Stamped(w.spaces[n].cell))
    ensures Possible(f, w, AskState(n)) ==>
              At(Next(f, w, AskState(n)).fetches, n) == Some(Got(w.fetches[n].ts, w.spaces[n].ks.replica.recs))
    ensures Possible(f, w, AskStamp(n)) || Possible(f, w, AskState(n)) ==> w.spaces[n].job.Idle?
  {
  }

  /** A restarted remote's clock: the wall reading rounded down to 4 ms, with counter zero. */
  lemma NewClockMeans(w: World, wall: nat)
    ensures 4 * NewClock(w, wall).time == wall / 4 * 4 && NewClock(w, wall).counter == 0 && NewClock(w, wall).node == w.clock.node
  {
    TicksAreQuarters(wall);
  }

  /* What the protocol depends on. */

  lemma WriteBegins(f: nat, w: World, name: Name, msg: Msg, wall: nat) returns (w1: World, w2: World)
    requires name in w.spaces && w.spaces[name].job.Idle? && |w.spaces[name].ks.replica.seen| > 0 && msg.Single?
    requires Stamps(f, w.spaces[name].ks, msg) && AfterSend(w.clock, wall) == Ok(msg.now)
    ensures Goes(f, w, Begin(name, msg), w1) && Goes(f, w1, Take(name, wall), w2)
    ensures w2 == SetSpace(w.(clock := msg.now), name, w.spaces[name].(job := Timed(msg)))
  {
    hide Stamps, AfterSend;
    w1 := Next(f, w, Begin(name, msg));
    w2 := Next(f, w1, Take(name, wall));
  }

  lemma WriteEnds(f: nat, w: World, name: Name, msg: Msg) returns (w1: World, w2: World)
    requires name in w.spaces && w.spaces[name].job == Timed(msg) && |w.spaces[name].ks.replica.seen| > 0 && msg.Single?
    ensures Goes(f, w, Mark(name), w1) && Goes(f, w1, Finish(name), w2)
    ensures w2 == SetSpace(w, name, Space(Step(f, w.spaces[name].ks, msg), msg.now, Idle))
  {
    hide Stamps, Step;
    w1 := Next(f, w, Mark(name));
    w2 := Next(f, w1, Finish(name));
  }

  /** A write that storage carries out, from beginning to end. */
  lemma WriteRuns(f: nat, w: World, name: Name, source: nat, row: Row, wall: nat, now: Stamp)
    returns (w1: World, w2: World, w3: World, w4: World)
    requires name in w.spaces && w.spaces[name].job.Idle? && |w.spaces[name].ks.replica.seen| > 0
    requires WillApply(f, w.spaces[name].ks.replica, row.key, row.rec.ts) && AfterSend(w.clock, wall) == Ok(now)
    ensures Goes(f, w, Begin(name, Single(source, row, true, now)), w1) && Goes(f, w1, Take(name, wall), w2)
    ensures Goes(f, w2, Mark(name), w3) && Goes(f, w3, Finish(name), w4)
    ensures w4 == w.(clock := now,
                     spaces := w.spaces[name := Space(Step(f, w.spaces[name].ks, Single(source, row, true, now)), now, Idle)])
  {
    var msg := Single(source, row, true, now);
    assert Stamps(f, w.spaces[name].ks, msg);
    hide Goes, Stamps, Step, AfterSend, WillApply;
    w1, w2 := WriteBegins(f, w, name, msg, wall);
    w3, w4 := WriteEnds(f, w2, name, msg);
  }

  /** The order of the two reads matters. Had the state been read before an accepted write and the
  stamp after it, the cycle would end with the stamp tracked, no poll would report the keyspace, and
  the write is not in the snapshot. */
  lemma StateFirstLoses(f: nat, w: World, name: Name, source: nat, row: Row, wall: nat, now: Stamp)
    returns (w1: World, w2: World, w3: World, w4: World)
    requires name in w.spaces && w.spaces[name].job.Idle? && |w.spaces[name].ks.replica.seen| > 0
    requires WillApply(f, w.spaces[name].ks.replica, row.key, row.rec.ts) && AfterSend(w.clock, wall) == Ok(now)
    requires Accepted(w.spaces[name].ks.replica, Op(source, row.key, row.rec))
    ensures Goes(f, w, Begin(name, Single(source, row, true, now)), w1) && Goes(f, w1, Take(name, wall), w2)
    ensures Goes(f, w2, Mark(name), w3) && Goes(f, w3, Finish(name), w4)
    ensures name in w4.spaces && name !in Differing(w.tracker[name := w4.spaces[name].cell], Cells(w4))
    ensures At(w4.spaces[name].ks.replica.recs, row.key) == Some(row.rec)
    ensures (name, row) !in Rows(name, w.spaces[name].ks.replica.recs)
  {
    var ks := w.spaces[name].ks;
    assert Step(f, ks, Single(source, row, true, now)).replica == Apply(ks.replica, Op(source, row.key, row.rec));
    assert At(Apply(ks.replica, Op(source, row.key, row.rec)).recs, row.key) == Some(row.rec);
    assert At(ks.replica.recs, row.key) != Some(row.rec);
    hide Goes, WillApply, Step, AfterSend, Apply;
    w1, w2, w3, w4 := WriteRuns(f, w, name, source, row, wall, now);
  }

  /** A run in which nothing was synced. */
  ghost predicate Quiet(f: nat, ws: seq<World>, es: seq<Event>) {
    Trace(f, ws, es) && forall n, row :: !Synced(ws, es, n, row)
  }

  lemma StaysQuiet(f: nat, ws: seq<World>, es: seq<Event>, e: Event, w: World)
    requires |ws| == |es| + 1 && Quiet(f, ws, es) && Goes(f, ws[|es|], e, w)
    requires e.Sync? ==> Fetched(ws[|es|], e.name) == {}
    ensures Quiet(f, ws + [w], es + [e])
  {
    var ws', es' := ws + [w], es + [e];
    hide Possible, Next, Fetched;
    forall i | 0 <= i < |es'| ensures Possible(f, ws'[i], es'[i]) && ws'[i + 1] == Next(f, ws'[i], es'[i]) {
      assert i < |es| ==> ws'[i] == ws[i] && ws'[i + 1] == ws[i + 1] && es'[i] == es[i];
    }
    forall n, row, i | 0 <= i < |es'| && es'[i] == Sync(n, true) ensures (n, row) !in Fetched(ws'[i], n) {
      if i < |es| {
        assert ws'[i] == ws[i] && es'[i] == es[i] && !Synced(ws, es, n, row);
      }
    }
  }

  function Tock(wall: nat, counter: Count): Stamp { Stamp(Ticks(wall), counter, 0) }

  /** The remote starts a keyspace when its clock stands at the wall clock. */
  lemma SpawnRuns(f: nat, w: World, replica: Replica, rows: map<Key, Rec>, wall: nat) returns (w': World)
    requires w.clock == Tock(wall, 0) && w.spaces == map[] && |replica.seen| > 0
    ensures var ks := Keyspace(replica, rows, Tock(wall, 1));
            Goes(f, w, Spawn("", ks, wall), w') && w' == w.(clock := ks.changed, spaces := map["" := Space(ks, ks.changed, Idle)])
  {
    var ks := Keyspace(replica, rows, Tock(wall, 1));
    assert AfterSend(w.clock, wall) == Ok(Tock(wall, 1));
    hide AfterSend, Ticks;
    w' := Next(f, w, Spawn("", ks, wall));
  }

  /** A new keyspace, polled and synced while it is empty. */
  lemma TrackedEmpty(f: nat, wall: nat) returns (ws: seq<World>, es: seq<Event>)
    ensures |ws| == |es| + 1 && Quiet(f, ws, es)
    ensures var w := ws[|es|];
            w.clock == Tock(wall, 1) && At(w.tracker, "") == Some(Tock(wall, 1))
            && w.spaces == map["" := Space(Keyspace(Empty(2), map[], Tock(wall, 1)), Tock(wall, 1), Idle)]
  {
    var w0, ks := Boot(Tock(wall, 0)), Keyspace(Empty(2), map[], Tock(wall, 1));
    ws, es := [w0], [];
    assert Quiet(f, ws, es);
    hide Quiet, Tock;
    var w1 := SpawnRuns(f, w0, Empty(2), map[], wall);
    hide Goes;
    StaysQuiet(f, ws, es, Spawn("", ks, wall), w1);
    ws, es := ws + [w1], es + [Spawn("", ks, wall)];
    var w2, w3 := PollAsks(f, w1, "");
    StaysQuiet(f, ws, es, Read(""), w2);
    ws, es := ws + [w2], es + [Read("")];
    StaysQuiet(f, ws, es, Compare, w3);
    ws, es := ws + [w3], es + [Compare];
    var w4, w5 := FetchGets(f, w3, "");
    StaysQuiet(f, ws, es, AskStamp(""), w4);
    ws, es := ws + [w4], es + [AskStamp("")];
    StaysQuiet(f, ws, es, AskState(""), w5);
    ws, es := ws + [w5], es + [AskState("")];
    var w6 := SyncTracks(f, w5, "");
    assert Fetched(w5, "") == {};
    StaysQuiet(f, ws, es, Sync("", true), w6);
    ws, es := ws + [w6], es + [Sync("", true)];
  }

  /** The restart matters as well. If the remote's wall clock has not caught up with a tracked stamp, it
  may give that stamp again: a document that was stored in between is loaded, was never synced,
  and no poll reports it. */
  lemma EarlierClockLoses(f: nat, wall: nat, row: Row) returns (ws: seq<World>, es: seq<Event>)
    ensures Trace(f, ws, es)
    ensures var w := ws[|es|];
            "" in w.spaces && w.spaces[""].job.Idle? && At(w.tracker, "") == Some(w.spaces[""].cell)
            && At(w.spaces[""].ks.replica.recs, row.key) == Some(row.rec) && !Synced(ws, es, "", row)
  {
    ws, es := TrackedEmpty(f, wall);
    var w, now, row1 := ws[|es|], Tock(wall, 2), [row];
    var ks := w.spaces[""].ks;
    UnseenSourceBlocks(f, ks.replica.seen, 0, row.rec.ts);
    assert AfterSend(w.clock, wall) == Ok(now);
    LoadRebuilds(2, row1, map[row.key := row.rec]);
    var loaded := Load(2, row1);
    assert |loaded.seen| > 0;
    hide Quiet, Goes, Before, AfterSend, Load, Tock;
    var msg := Single(0, row, true, now);
    var w1, w2, w3, w4 := WriteRuns(f, w, "", 0, row, wall, now);
    StaysQuiet(f, ws, es, Begin("", msg), w1);
    ws, es := ws + [w1], es + [Begin("", msg)];
    StaysQuiet(f, ws, es, Take("", wall), w2);
    ws, es := ws + [w2], es + [Take("", wall)];
    StaysQuiet(f, ws, es, Mark(""), w3);
    ws, es := ws + [w3], es + [Mark("")];
    StaysQuiet(f, ws, es, Finish(""), w4);
    ws, es := ws + [w4], es + [Finish("")];
    ws, es := RestartedEarly(f, wall, row, ws, es, loaded);
  }

  lemma RestartedEarly(f: nat, wall: nat, row: Row, ws0: seq<World>, es0: seq<Event>, loaded: Replica)
    returns (ws: seq<World>, es: seq<Event>)
    requires |ws0| == |es0| + 1 && Quiet(f, ws0, es0) && |loaded.seen| > 0 && loaded.recs == map[row.key := row.rec]
    requires At(ws0[|es0|].tracker, "") == Some(Tock(wall, 1)) && ws0[|es0|].clock.node == 0
    ensures |ws| == |es| + 1 && Quiet(f, ws, es)
    ensures At(ws[|es|].tracker, "") == Some(Tock(wall, 1))
    ensures At(ws[|es|].spaces, "") == Some(Space(Keyspace(loaded, loaded.recs, Tock(wall, 1)), Tock(wall, 1), Idle))
  {
    var w := ws0[|es0|];
    var w1 := w.(clock := Tock(wall, 0), spaces := map[]);
    assert Goes(f, w, Reboot(wall), w1);
    var w2 := SpawnRuns(f, w1, loaded, loaded.recs, wall);
    hide Quiet, Goes, Tock;
    StaysQuiet(f, ws0, es0, Reboot(wall), w1);
    ws, es := ws0 + [w1], es0 + [Reboot(wall)];
    var spawn := Spawn("", Keyspace(loaded, loaded.recs, Tock(wall, 1)), wall);
    StaysQuiet(f, ws, es, spawn, w2);
    ws, es := ws + [w2], es + [spawn];
  }

  /* The tracker. */

  /** A keyspace's counters in `KeyspaceTimestamps::diff`: the stamp first met, how many sides it is
  on, and whether the stamps differed. */
  datatype Tally = Tally(ts: Stamp, sides: nat, differs: bool)

  function Tallied(processed: map<Name, Tally>, n: Name, ts: Stamp): map<Name, Tally> {
    processed[n := if n in processed
                   then Tally(processed[n].ts, processed[n].sides + 1, processed[n].differs || processed[n].ts != ts)
                   else Tally(ts, 1, false)]
  }

  /** `KeyspaceTimestamps::diff` reports exactly the keyspaces that are known on one side only or have
  different stamps. */
  method DiffStamps(ours: Tracked, theirs: Tracked) returns (names: set<Name>)
    ensures names == Differing(ours, theirs)
    ensures forall n :: n in names <==>
              (n in ours && n !in theirs) || (n !in ours && n in theirs) || (n in ours && n in theirs && ours[n] != theirs[n])
  {
    var processed: map<Name, Tally> := map[];
    var todo := ours.Keys;
    while todo != {}
      invariant todo <= ours.Keys && processed.Keys == ours.Keys - todo
      invariant forall n :: n in processed ==> processed[n] == Tally(ours[n], 1, false)
      decreases todo
    {
      var n :| n in todo;
      processed := Tallied(processed, n, ours[n]);
      todo := todo - {n};
    }
    todo := theirs.Keys;
    while todo != {}
      invariant todo <= theirs.Keys && CountedAll(ours, theirs, todo, processed)
      decreases todo
    {
      var n :| n in todo;
      CountOne(ours, theirs, todo, processed, n);
      hide CountedAll, Tallied;
      processed := Tallied(processed, n, theirs[n]);
      todo := todo - {n};
    }
    names := set n | n in processed && (processed[n].differs || processed[n].sides != 2);
  }

  ghost predicate CountedAll(ours: Tracked, theirs: Tracked, todo: set<Name>, processed: map<Name, Tally>) {
    processed.Keys == ours.Keys + (theirs.Keys - todo)
    && forall n :: n in processed ==> processed[n] == Counted(ours, theirs, todo, n)
  }

  lemma CountOne(ours: Tracked, theirs: Tracked, todo: set<Name>, processed: map<Name, Tally>, n: Name)
    requires todo <= theirs.Keys && n in todo && CountedAll(ours, theirs, todo, processed)
    ensures CountedAll(ours, theirs, todo - {n}, Tallied(processed, n, theirs[n]))
  {
  }

  /** The counters of a name once `theirs` has been gone through except for `todo`. */
  function Counted(ours: Tracked, theirs: Tracked, todo: set<Name>, n: Name): Tally
    requires n in ours || n in theirs
  {
    if n !in ours then Tally(theirs[n], 1, false)
    else if n in theirs && n !in todo then Tally(ours[n], 2, ours[n] != theirs[n])
    else Tally(ours[n], 1, false)
  }

  /** One keyspace's changes, the stamp read with them, and whether the sync succeeded. */
  datatype Change = Change(keyspace: Name, last: Stamp, ok: bool)

  /** The stamp of the last successful change of each keyspace, where there is one. */
  function Tracking(tracked: Tracked, changes: seq<Change>): Tracked {
    if changes == [] then tracked
    else
      var c := changes[|changes| - 1];
      var before := Tracking(tracked, changes[..|changes| - 1]);
      if c.ok then before[c.keyspace := c.last] else before
  }

  class KeyspaceTracker {
    var inner: map<NodeId, Tracked>

    constructor ()
      ensures inner == map[]
    {
      inner := map[];
    }

    function Of(node: NodeId): Tracked
      reads this
    {
      if node in inner then inner[node] else map[]
    }

    method RemoveNode(node: NodeId)
      modifies this
      ensures inner == old(inner) - {node} && Of(node) == map[]
    {
      inner := inner - {node};
    }

    method GetDiff(node: NodeId, other: Tracked) returns (names: set<Name>)
      modifies this
      ensures names == Differing(old(Of(node)), other)
      ensures inner == old(inner)[node := old(Of(node))]
    {
      if node !in inner {
        inner := inner[node := map[]];
      }
      names := DiffStamps(inner[node], other);
    }

    method SetKeyspace(node: NodeId, keyspace: Name, ts: Stamp)
      modifies this
      ensures inner == old(inner)[node := old(Of(node))[keyspace := ts]]
    {
      if node !in inner {
        inner := inner[node := map[]];
      }
      inner := inner[node := inner[node][keyspace := ts]];
    }

    /** The loop over one member's changes: a failed sync leaves the tracked stamp as it was, and no
    other member is touched. */
    method RecordChanges(node: NodeId, changes: seq<Change>)
      modifies this
      ensures Of(node) == Tracking(old(Of(node)), changes)
      ensures forall n :: n != node ==> At(inner, n) == At(old(inner), n)
    {
      for i := 0 to |changes|
        invariant Of(node) == Tracking(old(Of(node)), changes[..i])
        invariant forall n :: n != node ==> At(inner, n) == At(old(inner), n)
      {
        assert changes[..i + 1][..i] == changes[..i];
        if changes[i].ok {
          SetKeyspace(node, changes[i].keyspace, changes[i].last);
        }
      }
      assert changes[..|changes|] == changes;
    }
  }

  /** A keyspace's tracked stamp moves only to one read with a snapshot whose sync succeeded. */
  lemma {:induction false} TrackingIsLastSuccess(tracked: Tracked, changes: seq<Change>, n: Name)
    ensures if exists i :: 0 <= i < |changes| && changes[i].keyspace == n && changes[i].ok
            then exists i :: 0 <= i < |changes| && changes[i].keyspace == n && changes[i].ok
                   && At(Tracking(tracked, changes), n) == Some(changes[i].last)
                   && forall j :: i < j < |changes| && changes[j].keyspace == n ==> !changes[j].ok
            else At(Tracking(tracked, changes), n) == At(tracked, n)
  {
    if changes != [] {
      var l := |changes| - 1;
      TrackingIsLastSuccess(tracked, changes[..l], n);
      if changes[l].keyspace == n && changes[l].ok {
        assert At(Tracking(tracked, changes), n) == Some(changes[l].last);
      } else if exists i :: 0 <= i < l && changes[..l][i].keyspace == n && changes[..l][i].ok {
        var i :| 0 <= i < l && changes[..l][i].keyspace == n && changes[..l][i].ok
                 && At(Tracking(tracked, changes[..l]), n) == Some(changes[..l][i].last)
                 && forall j :: i < j < l && changes[..l][j].keyspace == n ==> !changes[..l][j].ok;
        assert changes[i].keyspace == n && changes[i].ok && At(Tracking(tracked, changes), n) == Some(changes[i].last);
        forall j | i < j < |changes| && changes[j].keyspace == n ensures !changes[j].ok {
          assert j < l ==> changes[..l][j] == changes[j];
        }
      } else {
        forall i | 0 <= i < |changes| && changes[i].keyspace == n ensures !changes[i].ok {
          assert i < l ==> changes[..l][i] == changes[i];
        }
      }
    }
  }
}
