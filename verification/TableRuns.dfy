/**
 * Runs of the whole client table of common/net/ws_server.c: timer callbacks, frames, broadcasts and
 * clients that come and go, and what they mean for one client.
 */
module TableRuns {
  import opened Bytes
  import opened ClientTable
  import opened Keepalive

  datatype TableEvent =
    | Timer(time: nat, sendOk: int -> bool)
    | FrameFrom(time: nat, fd: int, frame: Frame)
    | Sent(time: nat, sendOk: int -> bool)
    | Opened(time: nat, fd: int)
    | Verified(time: nat, fd: int)
    | Closed(time: nat, fd: int)

  /** Descriptors are not negative, and the watched one is not handed out again. */
  predicate Fits(e: TableEvent, watched: int) {
    match e
    case FrameFrom(_, fd, _) => fd >= 0
    case Opened(_, fd) => fd >= 0 && fd != watched
    case Verified(_, fd) => fd >= 0
    case Closed(_, fd) => fd >= 0
    case _ => true
  }

  /** What an event is for one client. */
  function SeenBy(e: TableEvent, watched: int): Event {
    match e
    case Timer(time, sendOk) => Event(time, Callback(sendOk(watched)))
    case FrameFrom(time, fd, frame) => Event(time, if fd == watched then Received(frame) else Elsewhere(true))
    case Sent(time, sendOk) => Event(time, Elsewhere(sendOk(watched)))
    case Opened(time, _) => Event(time, Elsewhere(true))
    case Verified(time, fd) => Event(time, if fd == watched then HandshakeDone else Elsewhere(true))
    case Closed(time, fd) => Event(time, Elsewhere(fd != watched))
  }

  function AllSeenBy(es: seq<TableEvent>, watched: int): (events: seq<Event>)
    ensures |events| == |es|
  {
    seq(|es|, i requires 0 <= i < |es| => SeenBy(es[i], watched))
  }

  function TimingOf(table: Table): Timing {
    Timing(table.pingInterval, table.pongTimeout)
  }

  /** One event; the operating system hands out only descriptors that are not in use. */
  method Perform(table: Table, e: TableEvent, watched: int)
    requires table.Valid() && watched >= 0 && Fits(e, watched)
    modifies table.clients
    ensures table.Valid()
    ensures table.Find(watched) == Next(TimingOf(table), old(table.Find(watched)), SeenBy(e, watched))
  {
    hide AfterTick, AfterFrame, Lookup, Distinct;
    match e
    case Timer(time, sendOk) => table.PingTimer(Tick(time), sendOk);
    case FrameFrom(time, fd, frame) => table.HandleFrame(fd, frame, Tick(time));
    case Sent(_, sendOk) => var _ := table.Broadcast(sendOk);
    case Opened(time, fd) =>
      if !table.InUse(fd) {
        var _ := table.AddClient(fd, Tick(time));
      }
    case Verified(_, fd) => table.MarkVerified(fd);
    case Closed(_, fd) => table.DropClient(fd);
  }

  /** Over any run of the table, each client fares as the model of a single client says. */
  method RunTable(table: Table, es: seq<TableEvent>, watched: int)
    requires table.Valid() && watched >= 0 && forall i :: 0 <= i < |es| ==> Fits(es[i], watched)
    modifies table.clients
    ensures table.Valid() && |Descriptors(table.clients[..])| <= table.clients.Length
    ensures table.Find(watched) == Run(TimingOf(table), old(table.Find(watched)), AllSeenBy(es, watched))
  {
    hide Next, SeenBy, Distinct, Lookup;
    ghost var before := table.Find(watched);
    var i := 0;
    while i < |es|
      invariant 0 <= i <= |es| && table.Valid()
      invariant table.Find(watched) == Run(TimingOf(table), before, AllSeenBy(es, watched)[..i])
    {
      Perform(table, es[i], watched);
      ghost var seen := AllSeenBy(es, watched);
      assert seen[..i + 1][..i] == seen[..i];
      i := i + 1;
    }
    assert AllSeenBy(es, watched)[..i] == AllSeenBy(es, watched);
    DescriptorsFit(table.clients[..]);
  }

  /** A client that sends nothing from start on is not in the table once the bound has passed. */
  method RunWithSilentClient(table: Table, es: seq<TableEvent>, watched: int, ghost start: nat, ghost now: nat)
    requires table.Valid() && watched >= 0 && forall i :: 0 <= i < |es| ==> Fits(es[i], watched)
    requires table.Find(watched).Some? ==> table.Find(watched).value.lastSeen == Tick(start)
    requires Sensible(TimingOf(table))
    requires Silent(AllSeenBy(es, watched)) && Regular(TimingOf(table), start, AllSeenBy(es, watched))
    requires now <= LastCallback(start, AllSeenBy(es, watched)) + table.pingInterval
    requires now >= start + Max(3 * table.pingInterval, table.pongTimeout + table.pingInterval)
    modifies table.clients
    ensures table.Valid() && table.Find(watched) == None
  {
    ghost var before := table.Find(watched);
    if before.Some? {
      SilentClientIsDropped(TimingOf(table), start, before.value, AllSeenBy(es, watched), now);
    }
    NobodyStaysNobody(TimingOf(table), AllSeenBy(es, watched));
    RunTable(table, es, watched);
  }

  lemma {:induction false} NobodyStaysNobody(t: Timing, events: seq<Event>)
    ensures Run(t, None, events) == None
    decreases |events|
  {
    if |events| > 0 {
      NobodyStaysNobody(t, events[..|events| - 1]);
    }
  }

  lemma AnsweringClientSurvives(t: Timing, c: Client, events: seq<Event>)
    requires !c.awaitingPong && AnswersPings(t, c, events) && Undisturbed(events)
    ensures Run(t, Some(c), events).Some?
  {
    var m := LatestCallback(events, |events|);
    assert events[..|events|] == events;
    if m < 0 {
      NothingHappensBetween(t, c, events, 0, |events|);
    } else {
      AnsweringClientStays(t, c, events, m);
      NothingHappensBetween(t, c, events, m + 1, |events|);
    }
  }

  /** A client that answers each ping before the next callback is in the table at the end of any run. */
  method RunWithAnsweringClient(table: Table, es: seq<TableEvent>, watched: int)
    requires table.Valid() && watched >= 0 && forall i :: 0 <= i < |es| ==> Fits(es[i], watched)
    requires table.Find(watched).Some? && !table.Find(watched).value.awaitingPong
    requires AnswersPings(TimingOf(table), table.Find(watched).value, AllSeenBy(es, watched))
    requires Undisturbed(AllSeenBy(es, watched))
    modifies table.clients
    ensures table.Valid() && table.Find(watched).Some?
  {
    AnsweringClientSurvives(TimingOf(table), table.Find(watched).value, AllSeenBy(es, watched));
    RunTable(table, es, watched);
  }
}
