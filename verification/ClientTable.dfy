/** The client table of common/net/ws_server.c: registration, frames, broadcast and the ping timer. */
module ClientTable {
  import opened Bytes

  datatype Client = Client(fd: int, lastSeen: uint32, awaitingPong: bool, verified: bool, lastCounter: uint64)

  function Elapsed(now: uint32, lastSeen: uint32): uint32 {
    (now - lastSeen) % TWO32
  }

  /** A frame from a client; a payload may be sealed, and a sealed one opens to its counter or fails. */
  datatype Frame = Pong | Ping | Plain | Sealed(counter: Option<uint64>)

  // ---------- What happens to one entry ----------

  function Free(handshakeEnabled: bool): Client {
    Client(-1, 0, false, !handshakeEnabled, 0)
  }

  /** Nothing, when the entry is to be freed. */
  function AfterTick(c: Client, now: uint32, pingInterval: uint32, pongTimeout: uint32, sendOk: bool): Option<Client> {
    var elapsed := Elapsed(now, c.lastSeen);
    if c.awaitingPong && elapsed >= pongTimeout then None
    else if !c.awaitingPong && elapsed >= pingInterval then
      if sendOk then Some(c.(awaitingPong := true)) else None
    else Some(c)
  }

  /**
   * A client that owes an answer is dropped once the timeout has passed since its last frame. One that
   * does not is pinged once the interval has passed, and dropped if that fails.
   */
  ghost predicate IsTick(c: Client, after: Option<Client>, now: uint32, pingInterval: uint32, pongTimeout: uint32,
                         sendOk: bool)
  {
    var quiet := (now - c.lastSeen) % TWO32;
    && (after == None <==> if c.awaitingPong then quiet >= pongTimeout else quiet >= pingInterval && !sendOk)
    && (after.Some? ==> after.value == c.(awaitingPong := c.awaitingPong || quiet >= pingInterval))
  }

  lemma TickMeans(c: Client, now: uint32, pingInterval: uint32, pongTimeout: uint32, sendOk: bool)
    ensures IsTick(c, AfterTick(c, now, pingInterval, pongTimeout, sendOk), now, pingInterval, pongTimeout, sendOk)
  {
  }

  function AfterFrame(c: Client, frame: Frame, now: uint32): Option<Client> {
    var seen := c.(lastSeen := now);
    match frame
    case Pong => Some(seen.(awaitingPong := false))
    case Ping => Some(seen)
    case Plain => Some(seen.(awaitingPong := false))
    case Sealed(counter) =>
      if !c.verified then Some(seen)
      else if counter == None then None
      else Some(seen.(awaitingPong := false, lastCounter := counter.value))
  }

  // ---------- The table as a map from descriptors ----------

  ghost predicate Distinct(s: seq<Client>) {
    forall i, j :: 0 <= i < j < |s| && s[i].fd >= 0 ==> s[i].fd != s[j].fd
  }

  ghost predicate Occupies(s: seq<Client>, i: int, fd: int) {
    0 <= i < |s| && s[i].fd == fd && fd >= 0
  }

  ghost predicate Present(s: seq<Client>, fd: int) {
    exists i :: Occupies(s, i, fd)
  }

  /** The entry of a descriptor. */
  ghost function Lookup(s: seq<Client>, fd: int): Option<Client> {
    if Present(s, fd) then
      var i :| Occupies(s, i, fd);
      Some(s[i])
    else None
  }

  lemma LookupIs(s: seq<Client>, i: nat)
    requires Distinct(s) && i < |s| && s[i].fd >= 0
    ensures Lookup(s, s[i].fd) == Some(s[i])
  {
    assert Occupies(s, i, s[i].fd);
  }

  /** Freeing an entry forgets its descriptor and no other. */
  lemma LookupFreed(s: seq<Client>, i: nat, free: Client, fd: int)
    requires Distinct(s) && i < |s| && free.fd < 0
    ensures Distinct(s[i := free])
    ensures Lookup(s[i := free], fd) == if fd == s[i].fd && fd >= 0 then None else Lookup(s, fd)
  {
    var t := s[i := free];
    if Present(t, fd) {
      var k :| Occupies(t, k, fd);
      LookupIs(t, k);
      LookupIs(s, k);
    } else if Present(s, fd) {
      var k :| Occupies(s, k, fd);
      assert k != i ==> Occupies(t, k, fd);
      LookupIs(s, k);
    }
  }

  /** Rewriting an entry in place changes what its descriptor finds, and nothing else. */
  lemma LookupChanged(s: seq<Client>, i: nat, c: Client, fd: int)
    requires Distinct(s) && i < |s| && c.fd == s[i].fd >= 0
    ensures Distinct(s[i := c])
    ensures Lookup(s[i := c], fd) == if fd == c.fd then Some(c) else Lookup(s, fd)
  {
    var t := s[i := c];
    LookupIs(t, i);
    if fd != c.fd {
      if Present(t, fd) {
        var k :| Occupies(t, k, fd);
        LookupIs(t, k);
        LookupIs(s, k);
      } else if Present(s, fd) {
        var k :| Occupies(s, k, fd);
        assert Occupies(t, k, fd);
      }
    }
  }

  function FirstFree(s: seq<Client>): (i: nat)
    ensures i <= |s| && (i < |s| ==> s[i].fd < 0)
    ensures forall k :: 0 <= k < i ==> s[k].fd >= 0
  {
    if |s| == 0 || s[0].fd < 0 then 0 else 1 + FirstFree(s[1..])
  }

  /** Putting a new descriptor into a free slot adds it. */
  lemma LookupAdded(s: seq<Client>, i: nat, c: Client, fd: int)
    requires Distinct(s) && i < |s| && s[i].fd < 0 <= c.fd && !Present(s, c.fd)
    ensures Distinct(s[i := c])
    ensures Lookup(s[i := c], fd) == if fd == c.fd then Some(c) else Lookup(s, fd)
  {
    var t := s[i := c];
    forall k | 0 <= k < |s| && s[k].fd == c.fd
      ensures false
    {
      assert Occupies(s, k, c.fd);
    }
    LookupIs(t, i);
    if fd != c.fd {
      if Present(t, fd) {
        var k :| Occupies(t, k, fd);
        LookupIs(t, k);
        LookupIs(s, k);
      } else if Present(s, fd) {
        var k :| Occupies(s, k, fd);
        assert Occupies(t, k, fd);
      }
    }
  }

  /** Every entry keeps its descriptor or is freed; no free entry gets one. */
  ghost predicate Thinned(s: seq<Client>, t: seq<Client>) {
    && |t| == |s|
    && forall k :: 0 <= k < |s| ==> t[k].fd < 0 || t[k].fd == s[k].fd
  }

  lemma LookupThinned(s: seq<Client>, t: seq<Client>, fd: int)
    requires Distinct(s) && Thinned(s, t)
    ensures Distinct(t)
    ensures Lookup(s, fd) == None ==> Lookup(t, fd) == None
    ensures forall i :: Occupies(s, i, fd) ==> Lookup(t, fd) == (if t[i].fd >= 0 then Some(t[i]) else None)
  {
    if Present(t, fd) {
      var k :| Occupies(t, k, fd);
      assert Occupies(s, k, fd);
      LookupIs(t, k);
    } else {
      forall i | Occupies(s, i, fd)
        ensures t[i].fd < 0
      {
        assert !Occupies(t, i, fd);
      }
    }
  }

  ghost function Descriptors(s: seq<Client>): set<int> {
    set c | c in s && c.fd >= 0 :: c.fd
  }

  /** There are never more descriptors than slots. */
  lemma {:induction false} DescriptorsFit(s: seq<Client>)
    ensures |Descriptors(s)| <= |s|
    ensures forall fd :: fd in Descriptors(s) <==> Present(s, fd)
  {
    forall fd
      ensures fd in Descriptors(s) <==> Present(s, fd)
    {
      if fd in Descriptors(s) {
        var c :| c in s && c.fd >= 0 && c.fd == fd;
        var i :| 0 <= i < |s| && s[i] == c;
        assert Occupies(s, i, fd);
      }
    }
    if |s| > 0 {
      var rest, last := s[..|s| - 1], s[|s| - 1];
      DescriptorsFit(rest);
      assert Descriptors(s) == Descriptors(rest) + if last.fd >= 0 then {last.fd} else {};
    }
  }

  class Table {
    const clients: array<Client>
    const handshakeEnabled: bool
    const pingInterval: uint32
    const pongTimeout: uint32

    constructor (capacity: nat, handshakeEnabled: bool, pingInterval: uint32, pongTimeout: uint32)
      ensures Valid() && fresh(clients) && clients.Length == capacity
      ensures this.handshakeEnabled == handshakeEnabled
      ensures this.pingInterval == pingInterval && this.pongTimeout == pongTimeout
      ensures forall fd :: Lookup(clients[..], fd) == None
    {
      this.handshakeEnabled := handshakeEnabled;
      this.pingInterval, this.pongTimeout := pingInterval, pongTimeout;
      clients := new Client[capacity](_ => Free(handshakeEnabled));
    }

    /** Active descriptors are distinct. */
    ghost predicate Valid()
      reads clients
    {
      Distinct(clients[..])
    }

    ghost function Find(fd: int): Option<Client>
      reads clients
    {
      Lookup(clients[..], fd)
    }

    /**
     * Takes the first free slot without looking for the descriptor. As long as the operating system
     * hands out descriptors that are not in use, descriptors stay distinct.
     */
    method AddClient(fd: int, now: uint32) returns (ok: bool)
      requires fd >= 0
      modifies clients
      ensures var free := FirstFree(old(clients[..]));
              && (ok <==> free < clients.Length)
              && clients[..] == if ok
                                then old(clients[..])[free := Client(fd, now, false, !handshakeEnabled, 0)]
                                else old(clients[..])
      ensures old(Valid()) && old(Find(fd)) == None ==>
        Valid() && forall g :: Find(g) == (if ok && g == fd then Some(Fresh(fd, now)) else old(Find(g)))
    {
      ghost var before := clients[..];
      var i := 0;
      while i < clients.Length
        invariant 0 <= i <= clients.Length && clients[..] == before
        invariant forall k :: 0 <= k < i ==> clients[k].fd >= 0
      {
        if clients[i].fd < 0 {
          var added := Fresh(fd, now);
          if Distinct(before) && !Present(before, fd) {
            forall g
              ensures Distinct(before[i := added])
              ensures Lookup(before[i := added], g) == if g == fd then Some(added) else Lookup(before, g)
            {
              LookupAdded(before, i, added, g);
            }
          }
          clients[i] := added;
          assert clients[..] == before[i := added];
          return true;
        }
        i := i + 1;
      }
      return false;
    }

    predicate InUse(fd: int)
      requires fd >= 0
      reads clients
      ensures InUse(fd) <==> Find(fd).Some?
    {
      assert forall i :: 0 <= i < clients.Length ==> (clients[..][i].fd == fd <==> Occupies(clients[..], i, fd));
      exists i :: 0 <= i < clients.Length && clients[i].fd == fd
    }

    /** A new client's entry. */
    function Fresh(fd: int, now: uint32): Client {
      Client(fd, now, false, !handshakeEnabled, 0)
    }

    method DropClient(fd: int)
      requires Valid() && fd >= 0
      modifies clients
      ensures Valid()
      ensures forall g :: Find(g) == (if g == fd then None else old(Find(g)))
      ensures forall k :: 0 <= k < clients.Length ==>
        clients[k] == (if old(clients[k].fd) == fd then Free(handshakeEnabled) else old(clients[k]))
    {
      ghost var before := clients[..];
      var i := 0;
      while i < clients.Length
        invariant 0 <= i <= clients.Length && clients[..] == before
        invariant forall k :: 0 <= k < i ==> clients[k].fd != fd
      {
        if clients[i].fd == fd {
          var free := Free(handshakeEnabled);
          forall g
            ensures Distinct(before[i := free])
            ensures Lookup(before[i := free], g) == if g == fd then None else Lookup(before, g)
          {
            LookupFreed(before, i, free, g);
          }
          clients[i] := free;
          assert clients[..] == before[i := free];
          return;
        }
        i := i + 1;
      }
      assert !Present(before, fd);
    }

    /** The slot of a descriptor, or the number of slots if there is none. */
    method FindClient(fd: int) returns (i: nat)
      requires Valid() && fd >= 0
      ensures i <= clients.Length
      ensures Find(fd) == if i < clients.Length then Some(clients[i]) else None
      ensures i < clients.Length ==> clients[i].fd == fd
    {
      i := 0;
      while i < clients.Length && clients[i].fd != fd
        invariant 0 <= i <= clients.Length
        invariant forall k :: 0 <= k < i ==> clients[k].fd != fd
      {
        i := i + 1;
      }
      if i < clients.Length {
        LookupIs(clients[..], i);
      } else {
        assert !Present(clients[..], fd);
      }
    }

    /**
     * What the handler does with a frame; nothing for an unknown descriptor. Every frame counts as a
     * sign of life, and all but a ping or a sealed one from an unverified client as the awaited answer.
     */
    method HandleFrame(fd: int, frame: Frame, now: uint32)
      requires Valid() && fd >= 0
      modifies clients
      ensures Valid()
      ensures forall g ::
        Find(g) == (if g == fd && old(Find(fd)).Some? then AfterFrame(old(Find(fd)).value, frame, now)
                    else old(Find(g)))
      ensures old(Find(fd)).Some? ==>
        var c := old(Find(fd)).value;
        Find(fd) == match frame
                    case Ping => Some(c.(lastSeen := now))
                    case Pong => Some(c.(lastSeen := now, awaitingPong := false))
                    case Plain => Some(c.(lastSeen := now, awaitingPong := false))
                    case Sealed(None) => if c.verified then None else Some(c.(lastSeen := now))
                    case Sealed(Some(counter)) =>
                      if c.verified then Some(Client(fd, now, false, true, counter)) else Some(c.(lastSeen := now))
    {
      ghost var before := clients[..];
      var i := FindClient(fd);
      if i == clients.Length {
        return;
      }
      var after := AfterFrame(clients[i], frame, now);
      var entry := if after.Some? then after.value else Free(handshakeEnabled);
      forall g
        ensures Distinct(before[i := entry])
        ensures Lookup(before[i := entry], g) == if g == fd then after else Lookup(before, g)
      {
        if after.Some? {
          LookupChanged(before, i, entry, g);
        } else {
          LookupFreed(before, i, entry, g);
        }
      }
      clients[i] := entry;
      assert clients[..] == before[i := entry];
    }

    method MarkVerified(fd: int)
      requires Valid() && fd >= 0
      modifies clients
      ensures Valid()
      ensures forall g ::
        Find(g) == (if g == fd && old(Find(fd)).Some?
                    then Some(old(Find(fd)).value.(verified := true, lastCounter := 0))
                    else old(Find(g)))
    {
      ghost var before := clients[..];
      var i := FindClient(fd);
      if i == clients.Length {
        return;
      }
      var entry := clients[i].(verified := true, lastCounter := 0);
      forall g
        ensures Distinct(before[i := entry])
        ensures Lookup(before[i := entry], g) == if g == fd then Some(entry) else Lookup(before, g)
      {
        LookupChanged(before, i, entry, g);
      }
      clients[i] := entry;
      assert clients[..] == before[i := entry];
    }

    /** The entry left in a slot by the timer. */
    ghost function TickedSlot(c: Client, now: uint32, sendOk: int -> bool): Client {
      var after := AfterTick(c, now, pingInterval, pongTimeout, sendOk(c.fd));
      if c.fd < 0 then c else if after.Some? then after.value else Free(handshakeEnabled)
    }

    /** The periodic timer: pings quiet clients and drops those that did not answer in time. */
    method PingTimer(now: uint32, sendOk: int -> bool)
      requires Valid()
      modifies clients
      ensures Valid()
      ensures forall g ::
        Find(g) == (if old(Find(g)).Some?
                    then AfterTick(old(Find(g)).value, now, pingInterval, pongTimeout, sendOk(g))
                    else None)
      ensures forall g :: old(Find(g)).Some? ==>
        IsTick(old(Find(g)).value, Find(g), now, pingInterval, pongTimeout, sendOk(g))
    {
      hide IsTick;
      ghost var before := clients[..];
      var i := 0;
      while i < clients.Length
        invariant 0 <= i <= clients.Length && Valid()
        invariant forall k :: 0 <= k < i ==> clients[k] == TickedSlot(before[k], now, sendOk)
        invariant forall k :: i <= k < clients.Length ==> clients[k] == before[k]
      {
        var client := clients[i];
        if client.fd >= 0 {
          var elapsed := Elapsed(now, client.lastSeen);
          if client.awaitingPong && elapsed >= pongTimeout {
            DropClient(client.fd);
          } else if !client.awaitingPong && elapsed >= pingInterval {
            if sendOk(client.fd) {
              clients[i] := client.(awaitingPong := true);
            } else {
              DropClient(client.fd);
            }
          }
        }
        i := i + 1;
      }
      ThinnedBy(before, clients[..], now, sendOk);
    }

    lemma ThinnedBy(before: seq<Client>, after: seq<Client>, now: uint32, sendOk: int -> bool)
      requires Distinct(before) && |after| == |before|
      requires forall k :: 0 <= k < |before| ==> after[k] == TickedSlot(before[k], now, sendOk)
      ensures forall g ::
        Lookup(after, g) == (if Lookup(before, g).Some?
                             then AfterTick(Lookup(before, g).value, now, pingInterval, pongTimeout, sendOk(g))
                             else None)
      ensures forall g :: Lookup(before, g).Some? ==>
        IsTick(Lookup(before, g).value, Lookup(after, g), now, pingInterval, pongTimeout, sendOk(g))
    {
      hide IsTick;
      forall g
        ensures Lookup(after, g) == (if Lookup(before, g).Some?
                             then AfterTick(Lookup(before, g).value, now, pingInterval, pongTimeout, sendOk(g))
                             else None)
        ensures Lookup(before, g).Some? ==>
          IsTick(Lookup(before, g).value, Lookup(after, g), now, pingInterval, pongTimeout, sendOk(g))
      {
        LookupThinned(before, after, g);
        if Present(before, g) {
          var i :| Occupies(before, i, g);
          LookupIs(before, i);
          TickMeans(before[i], now, pingInterval, pongTimeout, sendOk(g));
        }
      }
    }

    /** One frame for every active client; those it cannot be sent to are dropped. */
    method Broadcast(sendOk: int -> bool) returns (sent: seq<int>)
      requires Valid()
      modifies clients
      ensures Valid()
      ensures forall g :: Find(g) == (if sendOk(g) then old(Find(g)) else None)
      ensures forall g :: g in sent <==> old(Find(g)).Some?
      ensures forall i, j :: 0 <= i < j < |sent| ==> sent[i] != sent[j]
    {
      ghost var before := clients[..];
      sent := [];
      var i := 0;
      while i < clients.Length
        invariant 0 <= i <= clients.Length && Valid()
        invariant forall k :: 0 <= k < i ==>
          clients[k] == if before[k].fd >= 0 && !sendOk(before[k].fd) then Free(handshakeEnabled) else before[k]
        invariant forall k :: i <= k < clients.Length ==> clients[k] == before[k]
        invariant forall g :: g in sent <==> exists k :: k < i && Occupies(before, k, g)
        invariant forall m, n :: 0 <= m < n < |sent| ==> sent[m] != sent[n]
      {
        var fd := clients[i].fd;
        if fd >= 0 {
          assert Occupies(before, i, fd);
          assert fd !in sent by {
            assert forall k :: k < i ==> !Occupies(before, k, fd);
          }
          sent := sent + [fd];
          if !sendOk(fd) {
            DropClient(fd);
          }
        }
        i := i + 1;
      }
      forall g
        ensures Find(g) == (if sendOk(g) then Lookup(before, g) else None)
        ensures g in sent <==> Lookup(before, g).Some?
      {
        LookupThinned(before, clients[..], g);
        if Present(before, g) {
          var k :| Occupies(before, k, g);
          LookupIs(before, k);
        }
      }
    }
  }
}
