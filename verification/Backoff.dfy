/** Doubling delays with a ceiling, and the reconnection delays of common/net/ws_client.c. */
module Backoff {
  import opened Bytes
  import opened BitStrings

  function Min(a: nat, b: nat): nat {
    if a < b then a else b
  }

  function Max(a: nat, b: nat): nat {
    if a < b then b else a
  }

  /** The first delay doubled n times, but no more than the ceiling. */
  function Doubled(first: nat, ceiling: nat, n: nat): nat {
    Min(ceiling, first * Pow2(n))
  }

  /** One doubling step, cut at the ceiling. */
  lemma DoublingStep(first: nat, ceiling: nat, n: nat)
    ensures Doubled(first, ceiling, n + 1) == Min(ceiling, 2 * Doubled(first, ceiling, n))
  {
    assert first * Pow2(n + 1) == 2 * (first * Pow2(n));
  }

  datatype Event = Connected | Disconnected(running: bool)

  /** How many waits were started before event i since the last connection. */
  function Streak(events: seq<Event>, i: nat): nat
    requires i <= |events|
  {
    if i == 0 || events[i - 1].Connected? then 0
    else Streak(events, i - 1) + if events[i - 1].running then 1 else 0
  }

  class Reconnector {
    var delayMs: uint32
    const minMs: uint32
    const maxMs: uint32
    /** Waits started since the last connection. */
    ghost var streak: nat

    ghost predicate Valid()
      reads this
    {
      0 < minMs <= maxMs && delayMs == Doubled(minMs, maxMs, streak)
    }

    constructor (configuredMin: uint32, configuredMax: uint32)
      ensures Valid() && streak == 0
      ensures minMs == if configuredMin != 0 then configuredMin else 2000
      ensures maxMs == Max(minMs, if configuredMax != 0 then configuredMax else 60000)
    {
      var min: uint32 := if configuredMin != 0 then configuredMin else 2000;
      var max: uint32 := if configuredMax != 0 then configuredMax else 60000;
      if min > max {
        max := min;
      }
      minMs, maxMs, delayMs, streak := min, max, min, 0;
      new;
      assert minMs * Pow2(0) == minMs;
    }

    method OnConnected()
      requires Valid()
      modifies this
      ensures Valid() && streak == 0
    {
      delayMs, streak := minMs, 0;
      assert minMs * Pow2(0) == minMs;
    }

    /** The wait that is started, if the client is still wanted. */
    method OnDisconnected(running: bool) returns (wait: Option<uint32>)
      requires Valid()
      modifies this
      ensures Valid()
      ensures wait == if running then Some(Doubled(minMs, maxMs, old(streak))) else None
      ensures streak == old(streak) + if running then 1 else 0
    {
      if !running {
        return None;
      }
      var delay := delayMs;
      if delay > maxMs {
        delay := maxMs;
      }
      wait := Some(delay);
      DoublingStep(minMs, maxMs, streak);
      if delayMs < maxMs {
        var next: uint64 := delayMs * 2;
        delayMs := if next > maxMs then maxMs else next;
      }
      streak := streak + 1;
    }

    /** Over any run, each wait is the least delay doubled once for each earlier wait of its streak. */
    method Run(events: seq<Event>) returns (waits: seq<Option<uint32>>)
      requires Valid() && streak == 0
      modifies this
      ensures Valid() && |waits| == |events|
      ensures forall i :: 0 <= i < |events| ==>
        waits[i] == if events[i] == Disconnected(true) then Some(Doubled(minMs, maxMs, Streak(events, i))) else None
    {
      hide Doubled;
      waits := [];
      var i := 0;
      while i < |events|
        invariant Valid() && 0 <= i <= |events| && |waits| == i
        invariant streak == Streak(events, i)
        invariant forall k :: 0 <= k < i ==>
          waits[k] == if events[k] == Disconnected(true) then Some(Doubled(minMs, maxMs, Streak(events, k))) else None
      {
        var wait: Option<uint32> := None;
        match events[i] {
          case Connected => OnConnected();
          case Disconnected(running) => wait := OnDisconnected(running);
        }
        waits := waits + [wait];
        i := i + 1;
      }
    }
  }
}
