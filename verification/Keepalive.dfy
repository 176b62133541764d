/**
 * Runs of the client table of common/net/ws_server.c over unbounded time, followed for one client.
 *
 * The timer callback comes at most one ping interval apart; ticks wrap at 32 bits.
 */
module Keepalive {
  import opened Bytes
  import opened ClientTable

  datatype Timing = Timing(pingInterval: uint32, pongTimeout: uint32)

  /** Something that happens to one client at a time counted in ticks without wrapping. */
  datatype What =
    | Callback(sendOk: bool)
    | Received(frame: Frame)
    | HandshakeDone
    | Elsewhere(survives: bool)

  datatype Event = Event(time: nat, what: What)

  function Tick(time: nat): uint32 {
    time % TWO32
  }

  /** The effect of an event on the client's entry, as the table's methods have it. */
  function Next(t: Timing, c: Option<Client>, e: Event): Option<Client> {
    if c == None then None
    else match e.what
      case Callback(sendOk) => AfterTick(c.value, Tick(e.time), t.pingInterval, t.pongTimeout, sendOk)
      case Received(frame) => AfterFrame(c.value, frame, Tick(e.time))
      case HandshakeDone => Some(c.value.(verified := true, lastCounter := 0))
      case Elsewhere(survives) => if survives then c else None
  }

  function Run(t: Timing, c: Option<Client>, events: seq<Event>): Option<Client> {
    if |events| == 0 then c
    else Next(t, Run(t, c, events[..|events| - 1]), events[|events| - 1])
  }

  // ---------- A silent client ----------

  /** The time of the last callback, or the start time if there was none. */
  function LastCallback(start: nat, events: seq<Event>): nat {
    if |events| == 0 then start
    else if events[|events| - 1].what.Callback? then events[|events| - 1].time
    else LastCallback(start, events[..|events| - 1])
  }

  /** Every event comes at most one ping interval after the callback before it. */
  ghost predicate Regular(t: Timing, start: nat, events: seq<Event>) {
    forall n :: 0 <= n < |events| ==>
      LastCallback(start, events[..n]) <= events[n].time <= LastCallback(start, events[..n]) + t.pingInterval
  }

  ghost predicate Silent(events: seq<Event>) {
    forall n :: 0 <= n < |events| ==> !events[n].what.Received?
  }

  function Max(a: int, b: int): int {
    if a < b then b else a
  }

  /** The limits are small against the tick counter's range. */
  predicate Sensible(t: Timing) {
    t.pingInterval > 0 && 3 * t.pingInterval < TWO32 && t.pongTimeout + t.pingInterval < TWO32
  }

  /** What a table entry says about how long ago the last callback can have been. */
  ghost predicate Waiting(t: Timing, start: nat, callback: nat, c: Client) {
    && c.lastSeen == Tick(start)
    && start <= callback
    && (if c.awaitingPong then callback - start < Max(2 * t.pingInterval, t.pongTimeout)
        else callback - start < t.pingInterval)
  }

  lemma CallbackKeepsWaiting(t: Timing, start: nat, callback: nat, c: Client, e: Event)
    requires Sensible(t) && Waiting(t, start, callback, c)
    requires e.what.Callback? && callback <= e.time <= callback + t.pingInterval
    ensures Next(t, Some(c), e).Some? ==> Waiting(t, start, e.time, Next(t, Some(c), e).value)
  {
    assert Elapsed(Tick(e.time), c.lastSeen) == e.time - start;
  }

  lemma {:induction false} SilentRunWaits(t: Timing, start: nat, c: Client, events: seq<Event>)
    requires Sensible(t) && c.lastSeen == Tick(start)
    requires Silent(events) && Regular(t, start, events)
    ensures Run(t, Some(c), events).Some? ==>
      Waiting(t, start, LastCallback(start, events), Run(t, Some(c), events).value)
    decreases |events|
  {
    if |events| > 0 {
      var n := |events| - 1;
      forall m | 0 <= m < n
        ensures events[..n][..m] == events[..m]
      {
      }
      SilentRunWaits(t, start, c, events[..n]);
      if Run(t, Some(c), events[..n]).Some? && events[n].what.Callback? {
        CallbackKeepsWaiting(t, start, LastCallback(start, events[..n]), Run(t, Some(c), events[..n]).value, events[n]);
      }
    }
  }

  /**
   * A client that has been silent since start is out of the table before
   * start + max(3 * interval, timeout + interval), whatever else happens meanwhile.
   */
  lemma SilentClientIsDropped(t: Timing, start: nat, c: Client, events: seq<Event>, now: nat)
    requires Sensible(t) && c.lastSeen == Tick(start)
    requires Silent(events) && Regular(t, start, events)
    requires now <= LastCallback(start, events) + t.pingInterval
    requires now >= start + Max(3 * t.pingInterval, t.pongTimeout + t.pingInterval)
    ensures Run(t, Some(c), events) == None
  {
    SilentRunWaits(t, start, c, events);
  }

  // ---------- A client that answers ----------

  ghost predicate IsPong(e: Event) {
    e.what == Received(Pong)
  }

  ghost predicate NoCallback(events: seq<Event>, from: nat, end: nat)
    requires end <= |events|
  {
    forall k :: from <= k < end ==> !events[k].what.Callback?
  }

  /** After each callback that pinged it, the client's answer arrives before the next one. */
  ghost predicate AnswersPings(t: Timing, c: Client, events: seq<Event>) {
    forall m, n :: 0 <= m < n < |events| && events[m].what.Callback? && events[n].what.Callback?
      && NoCallback(events, m + 1, n)
      && Run(t, Some(c), events[..m + 1]).Some? && Run(t, Some(c), events[..m + 1]).value.awaitingPong
      ==> exists k :: m < k < n && IsPong(events[k])
  }

  /** Sends to the client succeed and nothing else removes it. */
  ghost predicate Undisturbed(events: seq<Event>) {
    forall n :: 0 <= n < |events| ==>
      match events[n].what
      case Callback(sendOk) => sendOk
      case Received(frame) => frame != Sealed(None)
      case HandshakeDone => true
      case Elsewhere(survives) => survives
  }

  ghost predicate Quiet(c: Option<Client>) {
    c.Some? && !c.value.awaitingPong
  }

  lemma RunStep(t: Timing, c: Option<Client>, events: seq<Event>, n: nat)
    requires n < |events|
    ensures Run(t, c, events[..n + 1]) == Next(t, Run(t, c, events[..n]), events[n])
  {
    assert events[..n + 1][..n] == events[..n];
  }

  /** Between callbacks a client stays in the table, and one that owes no answer keeps owing none. */
  lemma {:induction false} NothingHappensBetween(t: Timing, c: Client, events: seq<Event>, from: nat, end: nat)
    requires from <= end <= |events| && NoCallback(events, from, end) && Undisturbed(events)
    requires Run(t, Some(c), events[..from]).Some?
    ensures Run(t, Some(c), events[..end]).Some?
    ensures Quiet(Run(t, Some(c), events[..from])) ==> Quiet(Run(t, Some(c), events[..end]))
    decreases end
  {
    if from < end {
      NothingHappensBetween(t, c, events, from, end - 1);
      RunStep(t, Some(c), events, end - 1);
    }
  }

  lemma {:induction false} LatestCallback(events: seq<Event>, n: nat) returns (m: int)
    requires n <= |events|
    ensures -1 <= m < n && NoCallback(events, m + 1, n)
    ensures m >= 0 ==> events[m].what.Callback?
  {
    if n == 0 {
      m := -1;
    } else if events[n - 1].what.Callback? {
      m := n - 1;
    } else {
      m := LatestCallback(events, n - 1);
    }
  }

  /** At every callback an answering client owes no answer, so the timer never drops it. */
  lemma {:induction false} AnsweringClientStays(t: Timing, c: Client, events: seq<Event>, n: nat)
    requires !c.awaitingPong && AnswersPings(t, c, events) && Undisturbed(events)
    requires n < |events| && events[n].what.Callback?
    ensures Quiet(Run(t, Some(c), events[..n])) && Run(t, Some(c), events[..n + 1]).Some?
    decreases n
  {
    var m := LatestCallback(events, n);
    if m < 0 {
      NothingHappensBetween(t, c, events, 0, n);
    } else {
      AnsweringClientStays(t, c, events, m);
      NothingHappensBetween(t, c, events, m + 1, n);
      if Run(t, Some(c), events[..m + 1]).value.awaitingPong {
        var k :| m < k < n && IsPong(events[k]);
        NothingHappensBetween(t, c, events, m + 1, k);
        RunStep(t, Some(c), events, k);
        NothingHappensBetween(t, c, events, k + 1, n);
      }
    }
    RunStep(t, Some(c), events, n);
  }
}
