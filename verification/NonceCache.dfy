/** The handshake replay cache of common/net/ws_server.c. */
module NonceCache {
  import opened Bytes

  datatype Entry = Entry(valid: bool, timestamp: uint32, nonce: seq<byte>)

  const EMPTY := Entry(false, 0, [])

  // ---------- One scan and one store, as functions on the slots ----------

  /** Tick subtraction wraps. */
  function Age(now: uint32, timestamp: uint32): uint32 {
    (now - timestamp) % TWO32
  }

  /** A lifetime of zero ticks means that entries never expire. */
  predicate Expired(e: Entry, now: uint32, ttl: uint32) {
    e.valid && ttl > 0 && Age(now, e.timestamp) > ttl
  }

  predicate Matches(e: Entry, nonce: seq<byte>, now: uint32, ttl: uint32) {
    e.valid && !Expired(e, now, ttl) && e.nonce == nonce
  }

  predicate IsDuplicate(cache: seq<Entry>, nonce: seq<byte>, now: uint32, ttl: uint32) {
    exists i :: 0 <= i < |cache| && Matches(cache[i], nonce, now, ttl)
  }

  /** The position of the first match, or the number of slots. */
  function FirstMatch(cache: seq<Entry>, nonce: seq<byte>, now: uint32, ttl: uint32): (i: nat)
    ensures i <= |cache|
    ensures i < |cache| ==> Matches(cache[i], nonce, now, ttl)
    ensures forall j :: 0 <= j < i ==> !Matches(cache[j], nonce, now, ttl)
  {
    if |cache| == 0 || Matches(cache[0], nonce, now, ttl) then 0
    else 1 + FirstMatch(cache[1..], nonce, now, ttl)
  }

  /** Expired entries before the first match are dropped; the scan stops there. */
  function Swept(cache: seq<Entry>, nonce: seq<byte>, now: uint32, ttl: uint32): (after: seq<Entry>)
    ensures |after| == |cache|
  {
    var end := FirstMatch(cache, nonce, now, ttl);
    seq(|cache|, i requires 0 <= i < |cache| =>
      if i < end && Expired(cache[i], now, ttl) then cache[i].(valid := false) else cache[i])
  }

  function FirstInvalid(cache: seq<Entry>): (i: nat)
    ensures i <= |cache|
    ensures i < |cache| ==> !cache[i].valid
    ensures forall j :: 0 <= j < i ==> cache[j].valid
  {
    if |cache| == 0 || !cache[0].valid then 0 else 1 + FirstInvalid(cache[1..])
  }

  /** The first slot of greatest age among the first n. */
  function Oldest(cache: seq<Entry>, now: uint32, n: nat): (slot: nat)
    requires 0 < n <= |cache|
    ensures slot < n
    ensures forall j :: 0 <= j < n ==> Age(now, cache[j].timestamp) <= Age(now, cache[slot].timestamp)
    ensures forall j :: 0 <= j < slot ==> Age(now, cache[j].timestamp) < Age(now, cache[slot].timestamp)
  {
    if n == 1 then 0
    else
      var slot := Oldest(cache, now, n - 1);
      if Age(now, cache[n - 1].timestamp) > Age(now, cache[slot].timestamp) then n - 1 else slot
  }

  /** A free slot if there is one, else the slot whose entry is oldest. */
  function SlotFor(cache: seq<Entry>, now: uint32): (slot: nat)
    requires |cache| > 0
    ensures slot < |cache|
  {
    if FirstInvalid(cache) < |cache| then FirstInvalid(cache) else Oldest(cache, now, |cache|)
  }

  function Stored(cache: seq<Entry>, nonce: seq<byte>, now: uint32): seq<Entry> {
    if |cache| == 0 then cache else cache[SlotFor(cache, now) := Entry(true, now, nonce)]
  }

  // ---------- The same in place ----------

  class Cache {
    const slots: array<Entry>
    const ttl: uint32

    constructor (capacity: nat, ttl: uint32)
      ensures this.ttl == ttl && fresh(slots) && slots.Length == capacity
      ensures slots[..] == seq(capacity, _ => EMPTY)
    {
      this.ttl := ttl;
      slots := new Entry[capacity](_ => EMPTY);
    }

    method CheckDuplicate(nonce: seq<byte>, now: uint32) returns (duplicate: bool)
      modifies slots
      ensures duplicate == IsDuplicate(old(slots[..]), nonce, now, ttl)
      ensures slots[..] == Swept(old(slots[..]), nonce, now, ttl)
    {
      ghost var before := slots[..];
      ghost var end := FirstMatch(before, nonce, now, ttl);
      var i := 0;
      while i < slots.Length
        invariant 0 <= i <= slots.Length && i <= end
        invariant forall j :: 0 <= j < i ==>
          slots[j] == if Expired(before[j], now, ttl) then before[j].(valid := false) else before[j]
        invariant forall j :: i <= j < slots.Length ==> slots[j] == before[j]
      {
        var entry := slots[i];
        if entry.valid {
          if ttl > 0 && Age(now, entry.timestamp) > ttl {
            slots[i] := entry.(valid := false);
          } else if entry.nonce == nonce {
            assert Matches(before[i], nonce, now, ttl);
            return true;
          }
        }
        i := i + 1;
      }
      return false;
    }

    method Store(nonce: seq<byte>, now: uint32)
      modifies slots
      ensures slots[..] == Stored(old(slots[..]), nonce, now)
    {
      if slots.Length == 0 {
        return;
      }
      var slot := slots.Length;
      var oldestAge: uint32 := 0;
      var i := 0;
      while i < slots.Length
        invariant 0 <= i <= slots.Length
        invariant forall j :: 0 <= j < i ==> slots[j].valid
        invariant i == 0 ==> slot == slots.Length
        invariant i > 0 ==> slot == Oldest(slots[..], now, i) && oldestAge == Age(now, slots[slot].timestamp)
      {
        if !slots[i].valid {
          slot := i;
          break;
        }
        var age := Age(now, slots[i].timestamp);
        if slot == slots.Length || age > oldestAge {
          slot := i;
          oldestAge := age;
        }
        i := i + 1;
      }
      assert slot == SlotFor(slots[..], now);
      slots[slot] := Entry(true, now, nonce);
    }
  }
}
