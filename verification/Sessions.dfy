/**
 * The secure frames of one client on the server's table, in common/net/ws_server.c: the table keeps
 * the replay counter that the envelope is opened under.
 */
module Sessions {
  import opened Bytes
  import opened ClientTable
  import opened SecureFrame
  import TableRuns
  import Channel
  import Keepalive

  /** A frame as it comes from the network, at the server with encryption on. */
  datatype Incoming = Ping | Pong | Data(payload: seq<byte>) | Binary(payload: seq<byte>)

  datatype SessionEvent =
    | Arrives(time: nat, frame: Incoming)
    | Meanwhile(event: TableRuns.TableEvent)

  /** What the channel sees of a frame. */
  function ArrivalOf(frame: Incoming): Channel.Arrival {
    match frame
    case Ping => Channel.Arrival(Channel.Control, [])
    case Pong => Channel.Arrival(Channel.Control, [])
    case Data(payload) => Channel.Arrival(Channel.Other, payload)
    case Binary(payload) => Channel.Arrival(Channel.Binary, payload)
  }

  function ArrivalsOf(events: seq<SessionEvent>): seq<Channel.Arrival> {
    if |events| == 0 then []
    else
      var last := events[|events| - 1];
      ArrivalsOf(events[..|events| - 1]) + if last.Arrives? then [ArrivalOf(last.frame)] else []
  }

  /** Anything but frames and handshakes of the watched client itself. */
  predicate IsForeign(e: TableRuns.TableEvent, watched: int) {
    TableRuns.Fits(e, watched) && !(e.FrameFrom? && e.fd == watched) && !(e.Verified? && e.fd == watched)
  }

  /** One after the other the payloads open, each under the counter of the one before, to these counters. */
  ghost predicate OpenInTurn(aead: Aead, key: seq<byte>, payloads: seq<seq<byte>>, counters: seq<uint64>) {
    && |counters| <= |payloads|
    && forall i :: 0 <= i < |counters| ==> OpensTo(aead, key, payloads[i], LastOf(counters[..i]), counters[i])
  }

  predicate OpensTo(aead: Aead, key: seq<byte>, payload: seq<byte>, last: uint64, counter: uint64) {
    var got := Open(aead, key, payload, last);
    got.Opened? && got.counter == counter
  }

  function LastOf(counters: seq<uint64>): uint64 {
    if |counters| == 0 then 0 else counters[|counters| - 1]
  }

  /**
   * What a frame does to the client's entry. A binary frame from a verified client is opened under the
   * counter in the entry: its counter takes the place of that one, or the client is removed. No other
   * frame touches the counter.
   */
  ghost predicate Takes(aead: Aead, key: seq<byte>, before: Option<Client>, frame: Incoming,
                        after: Option<Client>, accepted: Option<uint64>)
  {
    if before == None then after == None && accepted == None
    else if !frame.Binary? || !before.value.verified then
      && accepted == None && after.Some?
      && after.value.verified == before.value.verified && after.value.lastCounter == before.value.lastCounter
    else match Open(aead, key, frame.payload, before.value.lastCounter)
      case Refused(_) => accepted == None && after == None
      case Opened(_, counter) =>
        accepted == Some(counter) && after.Some? && after.value.verified && after.value.lastCounter == counter
  }

  method TakeFrame(table: Table, aead: Aead, key: seq<byte>, fd: int, frame: Incoming, now: uint32)
    returns (accepted: Option<uint64>)
    requires table.Valid() && fd >= 0
    modifies table.clients
    ensures table.Valid()
    ensures forall g :: g != fd ==> table.Find(g) == old(table.Find(g))
    ensures Takes(aead, key, old(table.Find(fd)), frame, table.Find(fd), accepted)
  {
    hide Open, AfterFrame, Lookup, Distinct;
    var i := table.FindClient(fd);
    if i == table.clients.Length {
      return None;
    }
    var client := table.clients[i];
    match frame {
      case Ping =>
        accepted := None;
        table.HandleFrame(fd, ClientTable.Ping, now);
      case Pong =>
        accepted := None;
        table.HandleFrame(fd, ClientTable.Pong, now);
      case Data(_) =>
        accepted := None;
        table.HandleFrame(fd, Plain, now);
      case Binary(payload) =>
        var got := Open(aead, key, payload, client.lastCounter);
        var counter := if got.Opened? then Some(got.counter) else None;
        accepted := if client.verified then counter else None;
        table.HandleFrame(fd, Sealed(counter), now);
    }
  }

  ghost predicate Increasing(counters: seq<uint64>) {
    && (forall i :: 0 <= i < |counters| ==> 0 < counters[i])
    && (forall i, j :: 0 <= i < j < |counters| ==> counters[i] < counters[j])
  }

  /** A client that is still in the table: all its binary frames were opened, the last one to its counter. */
  ghost predicate InStep(c: Option<Client>, payloads: seq<seq<byte>>, accepted: seq<uint64>) {
    c.Some? ==> c.value.verified && c.value.lastCounter == LastOf(accepted) && |accepted| == |payloads|
  }

  /** The connection of the channel's runs that has seen the same frames. */
  ghost predicate IsConnection(c: Option<Client>, e: Channel.Setup, arrived: seq<Channel.Arrival>) {
    c.Some? ==> Channel.Replay(e, arrived).up && Channel.Replay(e, arrived).last == c.value.lastCounter
  }

  /** Everything that is known about a client after the frames that have arrived. */
  ghost predicate Tracks(e: Channel.Setup, c: Option<Client>, arrived: seq<Channel.Arrival>, accepted: seq<uint64>) {
    && Increasing(accepted)
    && OpenInTurn(e.aead, e.key, Channel.BinaryOf(arrived), accepted)
    && InStep(c, Channel.BinaryOf(arrived), accepted)
    && IsConnection(c, e, arrived)
  }

  lemma LastTaken(counters: seq<uint64>, counter: uint64)
    requires Increasing(counters) && LastOf(counters) < counter
    ensures Increasing(counters + [counter]) && LastOf(counters + [counter]) == counter
  {
  }

  lemma AcceptOne(aead: Aead, key: seq<byte>, payloads: seq<seq<byte>>, counters: seq<uint64>, payload: seq<byte>,
                  counter: uint64)
    requires OpenInTurn(aead, key, payloads, counters) && |counters| == |payloads|
    requires OpensTo(aead, key, payload, LastOf(counters), counter)
    ensures OpenInTurn(aead, key, payloads + [payload], counters + [counter])
  {
    hide OpensTo, LastOf;
    var more := counters + [counter];
    forall i | 0 <= i < |more|
      ensures OpensTo(aead, key, (payloads + [payload])[i], LastOf(more[..i]), more[i])
    {
      if i < |counters| {
        assert more[..i] == counters[..i] && more[i] == counters[i] && (payloads + [payload])[i] == payloads[i];
      } else {
        assert more[..i] == counters;
      }
    }
  }

  lemma OpenedIsNew(aead: Aead, key: seq<byte>, payload: seq<byte>, last: uint64)
    ensures Open(aead, key, payload, last).Opened? ==> Open(aead, key, payload, last).counter > last
  {
  }

  lemma ArrivalsStep(events: seq<SessionEvent>, n: nat)
    requires n < |events|
    ensures ArrivalsOf(events[..n + 1])
         == ArrivalsOf(events[..n]) + if events[n].Arrives? then [ArrivalOf(events[n].frame)] else []
  {
    assert events[..n + 1][..n] == events[..n];
  }

  lemma ChannelStep(e: Channel.Setup, arrived: seq<Channel.Arrival>, a: Channel.Arrival)
    requires !e.atClient
    ensures Channel.BinaryOf(arrived + [a])
         == Channel.BinaryOf(arrived) + if a.kind.Binary? then [a.payload] else []
    ensures var c, d := Channel.Replay(e, arrived), Channel.Replay(e, arrived + [a]);
            if !a.kind.Binary? then d.up == c.up && d.last == c.last
            else match Open(e.aead, e.key, a.payload, c.last)
              case Opened(_, counter) => d.up == c.up && d.last == counter
              case Refused(_) => !d.up
  {
    hide Open;
    assert (arrived + [a])[..|arrived|] == arrived;
  }

  /** A frame keeps what is known about its sender. */
  lemma FrameKeepsTrack(e: Channel.Setup, before: Option<Client>, arrived: seq<Channel.Arrival>, accepted: seq<uint64>,
                        frame: Incoming, after: Option<Client>, counter: Option<uint64>)
    requires !e.atClient && Tracks(e, before, arrived, accepted)
    requires Takes(e.aead, e.key, before, frame, after, counter)
    ensures Tracks(e, after, arrived + [ArrivalOf(frame)], accepted + if counter.Some? then [counter.value] else [])
  {
    hide Open, OpenInTurn, Increasing, Channel.Replay, Channel.BinaryOf, LastOf;
    var payloads := Channel.BinaryOf(arrived);
    ChannelStep(e, arrived, ArrivalOf(frame));
    StillInTurn(e.aead, e.key, payloads, accepted);
    if counter.Some? {
      OpenedIsNew(e.aead, e.key, frame.payload, before.value.lastCounter);
      LastTaken(accepted, counter.value);
      AcceptOne(e.aead, e.key, payloads, accepted, frame.payload, counter.value);
    } else {
      assert payloads + [] == payloads && accepted + [] == accepted;
    }
  }

  /**
   * Any run after a client's handshake: the counters accepted from it strictly increase from 0, each
   * frame opens under the counter of the one before, and while the client stays in the table its entry
   * holds the last of them. A binary frame that does not open removes it.
   */
  method RunSession(table: Table, aead: Aead, key: seq<byte>, watched: int, events: seq<SessionEvent>)
    returns (accepted: seq<uint64>)
    requires table.Valid() && watched >= 0
    requires forall i :: 0 <= i < |events| && events[i].Meanwhile? ==> IsForeign(events[i].event, watched)
    requires table.Find(watched).Some?
    requires table.Find(watched).value.verified && table.Find(watched).value.lastCounter == 0
    modifies table.clients
    ensures table.Valid() && Increasing(accepted)
    ensures var arrived := ArrivalsOf(events);
            && OpenInTurn(aead, key, Channel.BinaryOf(arrived), accepted)
            && InStep(table.Find(watched), Channel.BinaryOf(arrived), accepted)
            && IsConnection(table.Find(watched), Channel.Setup(aead, key, false), arrived)
  {
    ghost var e := Channel.Setup(aead, key, false);
    accepted := [];
    SessionStarts(e, table.Find(watched));
    var n := 0;
    while n < |events|
      invariant 0 <= n <= |events| && table.Valid()
      invariant Tracks(e, table.Find(watched), ArrivalsOf(events[..n]), accepted)
    {
      hide Takes, Tracks, ArrivalsOf, Distinct, Lookup, TableRuns.SeenBy;
      ArrivalsStep(events, n);
      ghost var before := table.Find(watched);
      match events[n] {
        case Arrives(time, frame) =>
          var counter := TakeFrame(table, aead, key, watched, frame, Keepalive.Tick(time));
          FrameKeepsTrack(e, before, ArrivalsOf(events[..n]), accepted, frame, table.Find(watched), counter);
          accepted := accepted + if counter.Some? then [counter.value] else [];
        case Meanwhile(event) =>
          TableRuns.Perform(table, event, watched);
          OthersKeepTrack(e, TableRuns.TimingOf(table), before, event, watched, ArrivalsOf(events[..n]), accepted);
      }
      n := n + 1;
    }
    assert events[..n] == events;
  }

  lemma OthersKeepTrack(e: Channel.Setup, t: Keepalive.Timing, c: Option<Client>, event: TableRuns.TableEvent,
                        watched: int, arrived: seq<Channel.Arrival>, accepted: seq<uint64>)
    requires Tracks(e, c, arrived, accepted) && IsForeign(event, watched)
    ensures Tracks(e, Keepalive.Next(t, c, TableRuns.SeenBy(event, watched)), arrived + [], accepted)
  {
    hide OpenInTurn, Increasing, Channel.Replay, Channel.BinaryOf, LastOf;
    assert arrived + [] == arrived;
  }

  lemma SessionStarts(e: Channel.Setup, c: Option<Client>)
    requires c.Some? && c.value.verified && c.value.lastCounter == 0
    ensures Tracks(e, c, ArrivalsOf([]), [])
  {
  }

  /** Frames that nobody opens change nothing. */
  lemma StillInTurn(aead: Aead, key: seq<byte>, payloads: seq<seq<byte>>, counters: seq<uint64>)
    requires OpenInTurn(aead, key, payloads, counters)
    ensures forall payload :: OpenInTurn(aead, key, payloads + [payload], counters)
  {
    hide OpensTo;
    assert forall payload, i :: 0 <= i < |payloads| ==> (payloads + [payload])[i] == payloads[i];
  }
}
