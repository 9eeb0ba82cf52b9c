/** The hybrid logical clock: `send` and `recv` of datacake-crdt/src/timestamp.rs, the clock task of
datacake-node/src/clock.rs, and whole clusters of clocks. Wall clock readings are inputs, in
milliseconds since the Datacake epoch, and may go backwards unless a lemma says otherwise. */
module Clocks {
  import opened Hlc
  import opened Records

  datatype ClockError = DuplicatedNode | ClockDrift | Overflow
  datatype Outcome<T> = Ok(value: T) | Err(error: ClockError)

  /** 4100 seconds, in units of 4 ms. */
  const MAX_CLOCK_DRIFT := 1_025_000

  /** `get_datacake_timestamp`: whole seconds and the fraction rounded down to 4 ms. */
  function Ticks(wall: nat): nat { wall / 1000 * 250 + wall % 1000 / 4 }

  lemma TicksAreQuarters(wall: nat)
    ensures Ticks(wall) == wall / 4
  {
    var s, m := wall / 1000, wall % 1000;
    assert wall == (s * 250 + m / 4) * 4 + m % 4;
  }

  function Bump(c: Count): Outcome<Count> { if c == 0xFFFF then Err(Overflow) else Ok(c + 1) }

  /** The clock after a `send`, which is also the stamp issued. */
  function AfterSend(clock: Stamp, wall: nat): Outcome<Stamp> {
    var ts := Ticks(wall);
    var time := Max(clock.time, ts);
    if SaturatingSub(time, ts) > MAX_CLOCK_DRIFT then Err(ClockDrift)
    else
      match if clock.time == time then Bump(clock.counter) else Ok(0)
      case Err(e) => Err(e)
      case Ok(c) => Ok(Stamp(time, c, clock.node))
  }

  /** The clock after a `recv`. */
  function AfterRecv(clock: Stamp, msg: Stamp, wall: nat): Outcome<Stamp> {
    var ts := Ticks(wall);
    var time := Max(Max(clock.time, ts), msg.time);
    if clock.node == msg.node then Err(DuplicatedNode)
    else if SaturatingSub(msg.time, ts) > MAX_CLOCK_DRIFT then Err(ClockDrift)
    else if SaturatingSub(time, ts) > MAX_CLOCK_DRIFT then Err(ClockDrift)
    else
      match if time == clock.time && time == msg.time then Bump(Max(clock.counter, msg.counter))
            else if time == clock.time then Bump(clock.counter)
            else if time == msg.time then Bump(msg.counter)
            else Ok(0)
      case Err(e) => Err(e)
      case Ok(c) => Ok(Stamp(time, c, clock.node))
  }

  class HlcClock {
    var value: Stamp

    constructor (value: Stamp)
      ensures this.value == value
    {
      this.value := value;
    }

    /** A failing send leaves the clock unchanged. */
    method Send(wall: nat) returns (r: Outcome<Stamp>)
      modifies this
      ensures r == AfterSend(old(value), wall)
      ensures value == if r.Ok? then r.value else old(value)
    {
      var ts := Ticks(wall);
      var time := Max(value.time, ts);
      if SaturatingSub(time, ts) > MAX_CLOCK_DRIFT {
        return Err(ClockDrift);
      }
      var counter := 0;
      if value.time == time {
        if value.counter == 0xFFFF {
          return Err(Overflow);
        }
        counter := value.counter + 1;
      }
      value := Stamp(time, counter, value.node);
      return Ok(value);
    }

    /** A failing receive leaves the clock unchanged; a successful one returns the new time under the
    sender's node id. */
    method Recv(msg: Stamp, wall: nat) returns (r: Outcome<Stamp>)
      modifies this
      ensures match AfterRecv(old(value), msg, wall)
              case Ok(t) => value == t && r == Ok(Stamp(t.time, t.counter, msg.node))
              case Err(e) => value == old(value) && r == Err(e)
    {
      if value.node == msg.node {
        return Err(DuplicatedNode);
      }
      var ts := Ticks(wall);
      if SaturatingSub(msg.time, ts) > MAX_CLOCK_DRIFT {
        return Err(ClockDrift);
      }
      var time := Max(Max(value.time, ts), msg.time);
      if SaturatingSub(time, ts) > MAX_CLOCK_DRIFT {
        return Err(ClockDrift);
      }
      var counter := Ok(0);
      if time == value.time && time == msg.time {
        counter := Bump(Max(value.counter, msg.counter));
      } else if time == value.time {
        counter := Bump(value.counter);
      } else if time == msg.time {
        counter := Bump(msg.counter);
      }
      if counter.Err? {
        return Err(counter.error);
      }
      value := Stamp(time, counter.value, value.node);
      return Ok(Stamp(time, counter.value, msg.node));
    }
  }

  /** `send` issues the least stamp of its node that is later than the clock and not before the wall
  clock, within the allowed drift; and exactly when it fails. */
  lemma SendIsLeast(clock: Stamp, wall: nat)
    ensures AfterSend(clock, wall).Err? <==>
              clock.time > Ticks(wall) + MAX_CLOCK_DRIFT
              || (clock.time >= Ticks(wall) && clock.counter == 0xFFFF)
    ensures AfterSend(clock, wall).Ok? ==>
              var t := AfterSend(clock, wall).value;
              t.node == clock.node && clock.Less(t) && Ticks(wall) <= t.time <= Ticks(wall) + MAX_CLOCK_DRIFT
              && forall u: Stamp :: u.node == clock.node && clock.Less(u) && Ticks(wall) <= u.time ==> t.AtMost(u)
  {
  }

  /** Later by time or by counter, whatever the node ids. */
  predicate Ahead(a: Stamp, b: Stamp) { b.time < a.time || (b.time == a.time && b.counter < a.counter) }

  /** `recv` moves the clock to the least time and counter that are ahead of the clock and of the
  message and not before the wall clock, within the allowed drift; and exactly when it fails. */
  lemma RecvIsLeast(clock: Stamp, msg: Stamp, wall: nat)
    ensures AfterRecv(clock, msg, wall).Err? <==>
              clock.node == msg.node
              || clock.time > Ticks(wall) + MAX_CLOCK_DRIFT || msg.time > Ticks(wall) + MAX_CLOCK_DRIFT
              || (clock.time >= Max(msg.time, Ticks(wall)) && clock.counter == 0xFFFF)
              || (msg.time >= Max(clock.time, Ticks(wall)) && msg.counter == 0xFFFF)
    ensures AfterRecv(clock, msg, wall).Ok? ==>
              var t := AfterRecv(clock, msg, wall).value;
              t.node == clock.node && Ahead(t, clock) && Ahead(t, msg)
              && Ticks(wall) <= t.time <= Ticks(wall) + MAX_CLOCK_DRIFT
              && forall u: Stamp :: Ahead(u, clock) && Ahead(u, msg) && Ticks(wall) <= u.time ==> !Ahead(t, u)
  {
  }

  /** `send` in milliseconds, with the reading rounded down to 4 ms: which error comes when, and the stamp
  otherwise, never more than 4100 s ahead of the reading. */
  lemma SendMeans(clock: Stamp, wall: nat)
    ensures var now, at := wall / 4 * 4, 4 * clock.time;
            (AfterSend(clock, wall) == Err(ClockDrift) <==> at > now + 4_100_000)
            && (AfterSend(clock, wall) == Err(Overflow) <==> now <= at <= now + 4_100_000 && clock.counter == 65535)
            && AfterSend(clock, wall) != Err(DuplicatedNode)
            && (AfterSend(clock, wall).Ok? ==>
                  var t := AfterSend(clock, wall).value;
                  t.node == clock.node && now <= 4 * t.time <= now + 4_100_000
                  && (if at < now then 4 * t.time == now && t.counter == 0 else t.time == clock.time && t.counter == clock.counter + 1))
  {
    TicksAreQuarters(wall);
  }

  /** `recv` in milliseconds: which error comes when, and the clock otherwise. */
  lemma RecvMeans(clock: Stamp, msg: Stamp, wall: nat)
    ensures var now, at, sent := wall / 4 * 4, 4 * clock.time, 4 * msg.time;
            (AfterRecv(clock, msg, wall) == Err(DuplicatedNode) <==> clock.node == msg.node)
            && (AfterRecv(clock, msg, wall) == Err(ClockDrift) <==>
                  clock.node != msg.node && (at > now + 4_100_000 || sent > now + 4_100_000))
            && (AfterRecv(clock, msg, wall) == Err(Overflow) <==>
                  clock.node != msg.node && at <= now + 4_100_000 && sent <= now + 4_100_000
                  && ((at >= sent && at >= now && clock.counter == 65535) || (sent >= at && sent >= now && msg.counter == 65535)))
            && (AfterRecv(clock, msg, wall).Ok? ==>
                  var t := AfterRecv(clock, msg, wall).value;
                  t.node == clock.node && now <= 4 * t.time <= now + 4_100_000
                  && (if at < now && sent < now then 4 * t.time == now && t.counter == 0
                      else if sent < at then t.time == clock.time && t.counter == clock.counter + 1
                      else if at < sent then t.time == msg.time && t.counter == msg.counter + 1
                      else t.time == clock.time && t.counter == (if clock.counter < msg.counter then msg.counter else clock.counter) + 1))
  {
    TicksAreQuarters(wall);
  }

  /* Clusters. */

  /** A stamp issued by `send`, with the issues that happened before it: earlier ones of its node, and
  those a message accepted by its node carried, with everything before them. */
  datatype Issue = Issue(stamp: Stamp, past: set<nat>)

  datatype Event =
    | SendAt(node: NodeId, wall: nat)
    | RecvAt(node: NodeId, issue: nat, wall: nat)

  datatype Cluster = Cluster(clocks: map<NodeId, Stamp>, known: map<NodeId, set<nat>>, issued: seq<Issue>)

  ghost predicate Start(c: Cluster) {
    c.issued == [] && c.known.Keys == c.clocks.Keys
    && (forall n :: n in c.clocks ==> c.clocks[n].node == n && c.known[n] == {})
  }

  function After(c: Cluster, e: Event): Cluster {
    if e.node !in c.clocks || e.node !in c.known then c
    else
      match e
      case SendAt(n, wall) =>
        (match AfterSend(c.clocks[n], wall)
         case Err(_) => c
         case Ok(t) =>
           Cluster(c.clocks[n := t], c.known[n := c.known[n] + {|c.issued|}], c.issued + [Issue(t, c.known[n])]))
      case RecvAt(n, i, wall) =>
        if i >= |c.issued| then c
        else
          match AfterRecv(c.clocks[n], c.issued[i].stamp, wall)
          case Err(_) => c
          case Ok(t) => Cluster(c.clocks[n := t], c.known[n := c.known[n] + c.issued[i].past + {i}], c.issued)
  }

  function AfterAll(c: Cluster, events: seq<Event>): Cluster {
    if events == [] then c else After(AfterAll(c, events[..|events| - 1]), events[|events| - 1])
  }

  /** What a node knows of is not later than its clock, and includes what happened before it. */
  ghost predicate KnownIsPast(clock: Stamp, known: set<nat>, issued: seq<Issue>) {
    forall i :: i in known ==> i < |issued| && issued[i].stamp.AtMost(clock) && issued[i].past <= known
  }

  /** What happened before the issue at `j` has an earlier stamp, and includes what happened before. */
  ghost predicate PastIsEarlier(issued: seq<Issue>, j: nat)
    requires j < |issued|
  {
    forall i :: i in issued[j].past ==>
      i < j && issued[i].stamp.Less(issued[j].stamp) && issued[i].past <= issued[j].past
  }

  /** The issues of one node each happened before the next. */
  ghost predicate OwnIsPast(issued: seq<Issue>, j: nat)
    requires j < |issued|
  {
    forall i :: 0 <= i < j && issued[i].stamp.node == issued[j].stamp.node ==> i in issued[j].past
  }

  ghost predicate Causal(c: Cluster) {
    c.known.Keys == c.clocks.Keys
    && (forall n :: n in c.clocks ==> c.clocks[n].node == n && KnownIsPast(c.clocks[n], c.known[n], c.issued))
    && (forall j :: 0 <= j < |c.issued| ==> PastIsEarlier(c.issued, j) && OwnIsPast(c.issued, j))
    && (forall j :: 0 <= j < |c.issued| ==>
          c.issued[j].stamp.node in c.known && j in c.known[c.issued[j].stamp.node])
  }

  /** More issues, and a clock that is later, change nothing about what is known. */
  lemma KnownStaysPast(clock: Stamp, known: set<nat>, issued: seq<Issue>, clock': Stamp, more: seq<Issue>)
    requires KnownIsPast(clock, known, issued) && clock.AtMost(clock')
    ensures KnownIsPast(clock', known, issued + more)
  {
    forall i | i in known
      ensures i < |issued| && (issued + more)[i].stamp.AtMost(clock') && (issued + more)[i].past <= known
    {
    }
  }

  lemma IssuesStay(issued: seq<Issue>, more: seq<Issue>, j: nat)
    requires j < |issued| && PastIsEarlier(issued, j) && OwnIsPast(issued, j)
    ensures PastIsEarlier(issued + more, j) && OwnIsPast(issued + more, j)
  {
  }

  lemma SendKeepsCausal(c: Cluster, n: NodeId, wall: nat)
    requires Causal(c)
    ensures Causal(After(c, SendAt(n, wall)))
  {
    if n in c.clocks && AfterSend(c.clocks[n], wall).Ok? {
      var t, c' := AfterSend(c.clocks[n], wall).value, After(c, SendAt(n, wall));
      SendIsLeast(c.clocks[n], wall);
      var last := |c.issued|;
      assert c' == Cluster(c.clocks[n := t], c.known[n := c.known[n] + {last}], c.issued + [Issue(t, c.known[n])]);
      hide AfterSend, After;
      forall m | m in c'.clocks ensures KnownIsPast(c'.clocks[m], c'.known[m], c'.issued) {
        KnownStaysPast(c.clocks[m], c.known[m], c.issued, c'.clocks[m], [Issue(t, c.known[n])]);
      }
      forall j | 0 <= j < last ensures PastIsEarlier(c'.issued, j) && OwnIsPast(c'.issued, j) {
        IssuesStay(c.issued, [Issue(t, c.known[n])], j);
      }
      assert PastIsEarlier(c'.issued, last);
      forall i | 0 <= i < last && c'.issued[i].stamp.node == n ensures i in c.known[n] {
        assert c'.issued[i] == c.issued[i];
      }
      forall j | 0 <= j < |c'.issued|
        ensures c'.issued[j].stamp.node in c'.known && j in c'.known[c'.issued[j].stamp.node]
      {
        if j < last {
          assert c'.issued[j] == c.issued[j];
        }
      }
    }
  }

  lemma RecvKeepsCausal(c: Cluster, n: NodeId, k: nat, wall: nat)
    requires Causal(c)
    ensures Causal(After(c, RecvAt(n, k, wall)))
  {
    if n in c.clocks && k < |c.issued| && AfterRecv(c.clocks[n], c.issued[k].stamp, wall).Ok? {
      var t, c' := AfterRecv(c.clocks[n], c.issued[k].stamp, wall).value, After(c, RecvAt(n, k, wall));
      RecvIsLeast(c.clocks[n], c.issued[k].stamp, wall);
      assert c' == Cluster(c.clocks[n := t], c.known[n := c.known[n] + c.issued[k].past + {k}], c.issued);
      hide AfterRecv, After;
      KnownStaysPast(c.clocks[n], c.known[n], c.issued, t, []);
      assert c.issued + [] == c.issued;
      assert PastIsEarlier(c.issued, k);
    }
  }

  lemma {:induction false} RunKeepsCausal(c: Cluster, events: seq<Event>)
    requires Start(c)
    ensures Causal(AfterAll(c, events))
  {
    if events != [] {
      var before := AfterAll(c, events[..|events| - 1]);
      RunKeepsCausal(c, events[..|events| - 1]);
      hide Causal;
      match events[|events| - 1]
      case SendAt(n, wall) => SendKeepsCausal(before, n, wall);
      case RecvAt(n, i, wall) => RecvKeepsCausal(before, n, i, wall);
    }
  }

  /** Over every run of a cluster with unique node ids, whatever the wall clocks do: issued stamps
  strictly increase on each node, are globally unique, and respect happens-before. */
  lemma ClusterIsCausal(c: Cluster, events: seq<Event>, i: nat, j: nat)
    requires Start(c)
    requires i < |AfterAll(c, events).issued| && j < |AfterAll(c, events).issued| && i != j
    ensures var issued := AfterAll(c, events).issued;
            issued[i].stamp != issued[j].stamp
            && (i < j && issued[i].stamp.node == issued[j].stamp.node ==>
                  i in issued[j].past && issued[i].stamp.Less(issued[j].stamp))
            && (i in issued[j].past ==> issued[i].stamp.Less(issued[j].stamp))
            && (i in issued[j].past ==> issued[i].past <= issued[j].past)
  {
    RunKeepsCausal(c, events);
    hide AfterAll;
    var issued := AfterAll(c, events).issued;
    assert PastIsEarlier(issued, i) && PastIsEarlier(issued, j) && OwnIsPast(issued, i) && OwnIsPast(issued, j);
  }

  lemma StepRemembers(c: Cluster, e: Event)
    requires c.known.Keys == c.clocks.Keys
    ensures var c' := After(c, e);
            c'.clocks.Keys == c.clocks.Keys == c'.known.Keys && c.issued <= c'.issued
            && forall n :: n in c.known ==> c.known[n] <= c'.known[n]
  {
    hide AfterSend, AfterRecv;
  }

  /** What a node knows of it never forgets, and what was issued stays. */
  lemma {:induction false} RunRemembers(c: Cluster, events: seq<Event>, m: nat)
    requires Start(c) && m <= |events|
    ensures var before, after := AfterAll(c, events[..m]), AfterAll(c, events);
            after.clocks.Keys == c.clocks.Keys == after.known.Keys && before.known.Keys == c.clocks.Keys && before.issued <= after.issued
            && forall n :: n in before.known ==> before.known[n] <= after.known[n]
  {
    if events == [] {
      assert events[..m] == [];
    } else if m == |events| {
      RunRemembers(c, events[..|events| - 1], |events| - 1);
      StepRemembers(AfterAll(c, events[..|events| - 1]), events[|events| - 1]);
      assert events[..m] == events;
      hide After;
    } else {
      var last := |events| - 1;
      assert events[..last][..m] == events[..m];
      RunRemembers(c, events[..last], m);
      StepRemembers(AfterAll(c, events[..last]), events[last]);
      hide After;
    }
  }

  /** Whatever a node sends after it has accepted a stamp comes after that stamp, and after everything
  before it. */
  lemma HeardBeforeSent(c: Cluster, events: seq<Event>, a: nat, b: nat, n: NodeId, i: nat, w: nat, w': nat)
    requires Start(c) && n in c.clocks && a < b < |events| && events[a] == RecvAt(n, i, w) && events[b] == SendAt(n, w')
    requires var c1 := AfterAll(c, events[..a]);
             n in c1.clocks && i < |c1.issued| && AfterRecv(c1.clocks[n], c1.issued[i].stamp, w).Ok?
    requires var c2 := AfterAll(c, events[..b]);
             n in c2.clocks && AfterSend(c2.clocks[n], w').Ok?
    ensures var heard, sent := AfterAll(c, events[..a]).issued[i], AfterSend(AfterAll(c, events[..b]).clocks[n], w').value;
            var issued := AfterAll(c, events[..b + 1]).issued;
            issued != [] && issued[|issued| - 1].stamp == sent
            && i in issued[|issued| - 1].past && heard.past <= issued[|issued| - 1].past && heard.stamp.Less(sent)
  {
    var c1, c2, c3 := AfterAll(c, events[..a]), AfterAll(c, events[..b]), AfterAll(c, events[..b + 1]);
    assert c3 == After(c2, SendAt(n, w')) by { assert events[..b + 1][..b] == events[..b]; }
    hide AfterAll, AfterSend, AfterRecv;
    HeardIsKnown(c, events, a, b, n, i, w);
    RunRemembers(c, events[..b], b);
    assert c3.issued == c2.issued + [Issue(AfterSend(c2.clocks[n], w').value, c2.known[n])];
    hide After;
    RunKeepsCausal(c, events[..b + 1]);
    var j := |c2.issued|;
    assert c3.issued[i] == c1.issued[i];
    assert PastIsEarlier(c3.issued, j);
  }

  lemma HeardIsKnown(c: Cluster, events: seq<Event>, a: nat, b: nat, n: NodeId, i: nat, w: nat)
    requires Start(c) && n in c.clocks && a < b <= |events| && events[a] == RecvAt(n, i, w)
    requires var c1 := AfterAll(c, events[..a]);
             n in c1.clocks && i < |c1.issued| && AfterRecv(c1.clocks[n], c1.issued[i].stamp, w).Ok?
    ensures var c1, c2 := AfterAll(c, events[..a]), AfterAll(c, events[..b]);
            n in c2.known && i in c2.known[n] && i < |c2.issued| && c2.issued[i] == c1.issued[i]
  {
    var c1, heard, c2 := AfterAll(c, events[..a]), AfterAll(c, events[..a + 1]), AfterAll(c, events[..b]);
    assert heard == After(c1, RecvAt(n, i, w)) by { assert events[..a + 1][..a] == events[..a]; }
    hide AfterAll, AfterRecv;
    assert events[..b][..a + 1] == events[..a + 1] && events[..b][..a] == events[..a] && events[..a][..a] == events[..a];
    RunRemembers(c, events[..a], a);
    assert i in heard.known[n];
    hide After;
    RunRemembers(c, events[..b], a + 1);
    RunRemembers(c, events[..b], a);
  }

  /* The clock task. */

  const CLOCK_BACKPRESSURE_LIMIT := 0xFFFF - 10

  /** A request for a stamp or a remote stamp to register, the wall reading when it is handled, and
  the wall reading when the loop is ready for the next one, after the sleep if there is one. */
  datatype Request =
    | Get(wall: nat, ready: nat)
    | Register(ts: Stamp, wall: nat, ready: nat)

  /** The clock loop runs on, or its `expect` fires. */
  datatype Task = Running(clock: Stamp, replies: seq<Stamp>) | Panicked

  function Handle(clock: Stamp, r: Request): Outcome<Stamp> {
    match r
    case Get(wall, _) => AfterSend(clock, wall)
    case Register(ts, wall, _) =>
      if AfterRecv(clock, ts, wall).Ok? then AfterRecv(clock, ts, wall) else Ok(clock)
  }

  function RunTask(clock: Stamp, requests: seq<Request>): Task {
    if requests == [] then Running(clock, [])
    else
      match RunTask(clock, requests[..|requests| - 1])
      case Panicked => Panicked
      case Running(c, replies) =>
        match Handle(c, requests[|requests| - 1])
        case Err(_) => Panicked
        case Ok(t) => Running(t, if requests[|requests| - 1].Get? then replies + [t] else replies)
  }

  /** The event loop. */
  method RunClock(start: Stamp, requests: seq<Request>) returns (replies: seq<Stamp>, panicked: bool)
    ensures panicked <==> RunTask(start, requests).Panicked?
    ensures !panicked ==> RunTask(start, requests).replies == replies
  {
    var clock := new HlcClock(start);
    replies := [];
    for i := 0 to |requests|
      invariant RunTask(start, requests[..i]) == Running(clock.value, replies)
    {
      assert requests[..i + 1][..i] == requests[..i];
      match requests[i] {
        case Get(wall, _) =>
          var r := clock.Send(wall);
          if r.Err? {
            PanicsForGood(start, requests, i + 1);
            return [], true;
          }
          replies := replies + [r.value];
        case Register(ts, wall, _) =>
          var _ := clock.Recv(ts, wall);
      }
    }
    assert requests[..|requests|] == requests;
    return replies, false;
  }

  lemma {:induction false} PanicsForGood(clock: Stamp, requests: seq<Request>, n: nat)
    requires n <= |requests| && RunTask(clock, requests[..n]).Panicked?
    ensures RunTask(clock, requests).Panicked?
  {
    if n < |requests| {
      assert requests[..|requests| - 1][..n] == requests[..n];
      PanicsForGood(clock, requests[..|requests| - 1], n);
    } else {
      assert requests[..n] == requests;
    }
  }

  function Gets(requests: seq<Request>): nat {
    if requests == [] then 0 else Gets(requests[..|requests| - 1]) + if requests[|requests| - 1].Get? then 1 else 0
  }

  /** One reply for every request for a stamp, each later than the one before and than the clock at the
  start, none later than the clock. */
  lemma {:induction false} RepliesIncrease(clock: Stamp, requests: seq<Request>)
    requires RunTask(clock, requests).Running?
    ensures var Running(c, replies) := RunTask(clock, requests);
            |replies| == Gets(requests) && clock.AtMost(c) && c.node == clock.node
            && (forall i :: 0 <= i < |replies| ==> clock.Less(replies[i]) && replies[i].AtMost(c) && replies[i].node == clock.node)
            && forall i, j :: 0 <= i < j < |replies| ==> replies[i].Less(replies[j])
  {
    if requests != [] {
      var last := |requests| - 1;
      RepliesIncrease(clock, requests[..last]);
      var c := RunTask(clock, requests[..last]).clock;
      match requests[last] {
        case Get(wall, _) => SendIsLeast(c, wall);
        case Register(ts, wall, _) => RecvIsLeast(c, ts, wall);
      }
      hide AfterSend, AfterRecv;
    }
  }

  /** Handling the request at `i` does not go back behind the reading before it, registers only
  stamps older than its own reading, and ends after it: by a millisecond if the loop slept. */
  ghost predicate TimelyAt(clock: Stamp, started: nat, requests: seq<Request>, i: nat)
    requires i < |requests|
  {
    var r := requests[i];
    (if i == 0 then started else requests[i - 1].ready) <= r.wall <= r.ready
    && (r.Register? ==> r.ts.time < Ticks(r.wall))
    && (match RunTask(clock, requests[..i + 1])
        case Panicked => true
        case Running(c, _) => c.counter >= 65525 ==> r.wall + 1 <= r.ready)
  }

  /** The clock is not ahead of the wall, and near the limit every count has cost a millisecond. */
  ghost predicate Paced(clock: Stamp, wall: nat) {
    4 * clock.time <= wall
    && clock.counter <= CLOCK_BACKPRESSURE_LIMIT + 3
    && (clock.counter >= CLOCK_BACKPRESSURE_LIMIT ==>
          4 * clock.time + (clock.counter - CLOCK_BACKPRESSURE_LIMIT + 1) <= wall)
  }

  lemma HandleStaysPaced(clock: Stamp, now: nat, r: Request)
    requires Paced(clock, now) && now <= r.wall <= r.ready
    requires r.Register? ==> r.ts.time < Ticks(r.wall)
    requires Handle(clock, r).Ok? && Handle(clock, r).value.counter >= CLOCK_BACKPRESSURE_LIMIT ==> r.wall + 1 <= r.ready
    ensures Handle(clock, r).Ok? && Paced(Handle(clock, r).value, r.ready)
  {
    TicksAreQuarters(r.wall);
    assert Ticks(r.wall) >= clock.time;
    assert r.wall < 4 * Ticks(r.wall) + 4;
  }

  /** With a wall clock that never goes back, sleeps that take a millisecond and registered stamps
  older than the wall clock, the counter stays at or below 65528 and the clock loop never panics. */
  lemma {:induction false} BackpressureWorks(start: Stamp, started: nat, requests: seq<Request>)
    requires start.counter == 0 && 4 * start.time <= started
    requires forall i :: 0 <= i < |requests| ==> TimelyAt(start, started, requests, i)
    ensures RunTask(start, requests).Running?
    ensures RunTask(start, requests).clock.counter <= 65528
    ensures Paced(RunTask(start, requests).clock, if requests == [] then started else requests[|requests| - 1].ready)
  {
    if requests != [] {
      var last := |requests| - 1;
      var before := requests[..last];
      forall i | 0 <= i < last ensures TimelyAt(start, started, before, i) {
        assert TimelyAt(start, started, requests, i) && before[..i + 1] == requests[..i + 1];
      }
      BackpressureWorks(start, started, before);
      assert TimelyAt(start, started, requests, last) && requests[..last + 1] == requests;
      var now := if last == 0 then started else requests[last - 1].ready;
      HandleStaysPaced(RunTask(start, before).clock, now, requests[last]);
    }
  }

  /** The request is one the clock cannot answer: its time is too far ahead of the wall clock, or it is
  not behind and its counter is used up. */
  ghost predicate PanicsAt(clock: Stamp, requests: seq<Request>, i: nat)
    requires i < |requests|
  {
    requests[i].Get?
    && match RunTask(clock, requests[..i])
       case Panicked => false
       case Running(c, _) =>
         var now := Ticks(requests[i].wall);
         c.time > now + MAX_CLOCK_DRIFT || (c.time >= now && c.counter == 0xFFFF)
  }

  /** The loop panics if and only if it comes to such a request. */
  lemma {:induction false} PanicsIff(clock: Stamp, requests: seq<Request>)
    ensures RunTask(clock, requests).Panicked? <==> exists i :: 0 <= i < |requests| && PanicsAt(clock, requests, i)
  {
    if requests != [] {
      var last := |requests| - 1;
      var before := requests[..last];
      PanicsIff(clock, before);
      forall i | 0 <= i < last ensures PanicsAt(clock, before, i) <==> PanicsAt(clock, requests, i) {
        assert before[..i] == requests[..i];
      }
      assert PanicsAt(clock, requests, last) <==> RunTask(clock, before).Running? && RunTask(clock, requests).Panicked? by {
        if RunTask(clock, before).Running? {
          SendIsLeast(RunTask(clock, before).clock, requests[last].wall);
        }
      }
      hide PanicsAt, Handle;
    }
  }

  /** While the wall clock does not pass the clock, and is not too far behind it, a burst of requests
  makes the loop panic exactly when it is longer than the counter has room for. */
  lemma {:induction false} BurstPanicsIff(clock: Stamp, burst: seq<Request>)
    requires forall i :: 0 <= i < |burst| ==>
               burst[i].Get? && Ticks(burst[i].wall) <= clock.time <= Ticks(burst[i].wall) + MAX_CLOCK_DRIFT
    ensures RunTask(clock, burst).Panicked? <==> |burst| > 0xFFFF - clock.counter
    ensures RunTask(clock, burst).Running? ==>
              RunTask(clock, burst).clock == Stamp(clock.time, clock.counter + |burst|, clock.node)
  {
    if burst != [] {
      BurstPanicsIff(clock, burst[..|burst| - 1]);
      hide Ticks;
    }
  }

  lemma {:induction false} PanicsAfter(clock: Stamp, first: seq<Request>, rest: seq<Request>)
    requires RunTask(clock, first).Running?
    ensures var c := RunTask(clock, first).clock;
            RunTask(clock, first + rest).Panicked? <==> RunTask(c, rest).Panicked?
    ensures RunTask(clock, first + rest).Running? ==>
              RunTask(clock, first + rest).clock == RunTask(RunTask(clock, first).clock, rest).clock
  {
    if rest == [] {
      assert first + rest == first;
    } else {
      var all := first + rest;
      assert all[..|all| - 1] == first + rest[..|rest| - 1];
      PanicsAfter(clock, first, rest[..|rest| - 1]);
      hide Handle;
    }
  }

  /** So a stamp registered ahead of the wall clock, within the drift, and not behind the clock makes the
  loop panic exactly when enough requests come before the wall clock has passed it. */
  lemma AheadRegistrationPanicsIff(clock: Stamp, ts: Stamp, wall: nat, ready: nat, burst: seq<Request>)
    requires clock.node != ts.node && clock.time <= ts.time
    requires Ticks(wall) <= ts.time <= Ticks(wall) + MAX_CLOCK_DRIFT
    requires forall i :: 0 <= i < |burst| ==>
               burst[i].Get? && Ticks(burst[i].wall) <= ts.time <= Ticks(burst[i].wall) + MAX_CLOCK_DRIFT
    requires AfterRecv(clock, ts, wall).Ok?
    ensures var counter := if clock.time == ts.time then Max(clock.counter, ts.counter) else ts.counter;
            RunTask(clock, [Register(ts, wall, ready)] + burst).Panicked? <==> |burst| >= 0xFFFF - counter
  {
    var first := [Register(ts, wall, ready)];
    var counter := if clock.time == ts.time then Max(clock.counter, ts.counter) else ts.counter;
    var after := Stamp(ts.time, counter + 1, clock.node);
    assert AfterRecv(clock, ts, wall) == Ok(after);
    assert first[..0] == [] && RunTask(clock, first) == Running(after, []);
    hide Ticks, AfterRecv, AfterSend, Max;
    BurstPanicsIff(after, burst);
    PanicsAfter(clock, first, burst);
  }

  /** One second ahead with its counter nearly used up: one request is enough. */
  lemma OneRequestPanics(clock: Stamp, ts: Stamp, wall: nat)
    requires clock == Stamp(0, 0, 0) && ts == Stamp(250, 0xFFFE, 1) && wall == 0
    ensures RunTask(clock, [Register(ts, wall, wall)] + [Get(wall, wall)]).Panicked?
  {
    var burst := [Get(wall, wall)];
    assert Ticks(wall) == 0 && AfterRecv(clock, ts, wall).Ok?;
    hide *;
    assert burst[0].Get? && burst[0].wall == wall;
    AheadRegistrationPanicsIff(clock, ts, wall, wall, burst);
  }
}
