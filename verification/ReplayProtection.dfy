/**
 * Runs of the nonce check of common/net/ws_server.c over unbounded time, with wrapping ticks.
 */
module ReplayProtection {
  import opened Bytes
  import opened NonceCache

  /** One authorization attempt that reached the nonce check; time counts ticks without wrapping. */
  datatype Call = Call(nonce: seq<byte>, time: nat, signatureOk: bool)

  datatype StoreEvent = StoreEvent(nonce: seq<byte>, time: nat)

  /**
   * The cache, every store so far, for each slot the store that filled it, and the time of the
   * last call that was not a duplicate.
   */
  datatype State = State(cache: seq<Entry>, log: seq<StoreEvent>, source: seq<nat>, lastClean: nat)

  function Tick(time: nat): uint32 {
    time % TWO32
  }

  function Start(capacity: nat): State {
    State(seq(capacity, _ => EMPTY), [], seq(capacity, _ => 0), 0)
  }

  predicate Refused(s: State, c: Call, ttl: uint32) {
    IsDuplicate(s.cache, c.nonce, Tick(c.time), ttl)
  }

  function Sweep(s: State, c: Call, ttl: uint32): State {
    s.(cache := Swept(s.cache, c.nonce, Tick(c.time), ttl),
       lastClean := if Refused(s, c, ttl) then s.lastClean else c.time)
  }

  function Store(s: State, c: Call): State
    requires |s.cache| == |s.source|
  {
    if |s.cache| == 0 then s
    else
      var slot := SlotFor(s.cache, Tick(c.time));
      State(s.cache[slot := Entry(true, Tick(c.time), c.nonce)],
            s.log + [StoreEvent(c.nonce, c.time)],
            s.source[slot := |s.log|],
            s.lastClean)
  }

  function Next(s: State, c: Call, ttl: uint32): (t: State)
    requires |s.cache| == |s.source|
    ensures |t.cache| == |t.source| == |s.cache|
  {
    var swept := Sweep(s, c, ttl);
    if Refused(s, c, ttl) || !c.signatureOk then swept else Store(swept, c)
  }

  function Run(capacity: nat, ttl: uint32, calls: seq<Call>): (s: State)
    ensures |s.cache| == |s.source| == capacity
  {
    if |calls| == 0 then Start(capacity)
    else Next(Run(capacity, ttl, calls[..|calls| - 1]), calls[|calls| - 1], ttl)
  }

  /** Calls that pass the duplicate check come close enough together for wrapped ages to be right. */
  ghost predicate Timely(s: State, c: Call, ttl: uint32) {
    s.lastClean <= c.time && (!Refused(s, c, ttl) ==> c.time - s.lastClean <= TWO32 - 1 - ttl)
  }

  ghost predicate IsRun(capacity: nat, ttl: uint32, calls: seq<Call>) {
    && ttl > 0
    && (forall i, j :: 0 <= i < j < |calls| ==> calls[i].time <= calls[j].time)
    && (forall n :: 0 <= n < |calls| ==> Timely(Run(capacity, ttl, calls[..n]), calls[n], ttl))
  }

  // ---------- Every valid slot holds a recent store ----------

  /** A valid slot holds the store that its source names, made within the lifetime before t. */
  ghost predicate SlotSound(s: State, i: nat, t: nat, ttl: uint32)
    requires i < |s.cache| == |s.source|
  {
    s.cache[i].valid ==>
      && s.source[i] < |s.log|
      && s.cache[i].nonce == s.log[s.source[i]].nonce
      && s.cache[i].timestamp == Tick(s.log[s.source[i]].time)
      && s.log[s.source[i]].time <= t <= s.log[s.source[i]].time + ttl
  }

  ghost predicate Sound(s: State, t: nat, ttl: uint32) {
    && |s.cache| == |s.source|
    && (forall i :: 0 <= i < |s.cache| ==> SlotSound(s, i, t, ttl))
    && (forall i, j :: 0 <= i < j < |s.cache| && s.cache[i].valid && s.cache[j].valid ==> s.source[i] != s.source[j])
    && (forall k :: 0 <= k < |s.log| ==> s.log[k].time <= t)
  }

  lemma AgeIsExact(now: nat, time: nat)
    requires time <= now < time + TWO32
    ensures Age(Tick(now), Tick(time)) == now - time
  {
  }

  lemma SweepKeepsSound(s: State, c: Call, ttl: uint32)
    requires Sound(s, s.lastClean, ttl) && Timely(s, c, ttl) && ttl > 0
    ensures Sound(Sweep(s, c, ttl), Sweep(s, c, ttl).lastClean, ttl)
  {
    var t := Sweep(s, c, ttl);
    forall i | 0 <= i < |s.cache|
      ensures SlotSound(t, i, t.lastClean, ttl)
    {
      if s.cache[i].valid {
        assert SlotSound(s, i, s.lastClean, ttl);
        if !Refused(s, c, ttl) {
          AgeIsExact(c.time, s.log[s.source[i]].time);
        }
      }
    }
  }

  lemma StoreKeepsSound(s: State, c: Call, ttl: uint32)
    requires Sound(s, c.time, ttl)
    ensures Sound(Store(s, c), c.time, ttl)
  {
    var t := Store(s, c);
    forall i | 0 <= i < |t.cache|
      ensures SlotSound(t, i, c.time, ttl)
    {
      assert SlotSound(s, i, c.time, ttl);
    }
    forall i | 0 <= i < |s.cache| && s.cache[i].valid
      ensures s.source[i] < |s.log|
    {
      assert SlotSound(s, i, c.time, ttl);
    }
  }

  lemma {:induction false} RunIsSound(capacity: nat, ttl: uint32, calls: seq<Call>)
    requires IsRun(capacity, ttl, calls)
    ensures Sound(Run(capacity, ttl, calls), Run(capacity, ttl, calls).lastClean, ttl)
    ensures |calls| > 0 ==> Run(capacity, ttl, calls).lastClean <= calls[|calls| - 1].time
    decreases |calls|
  {
    hide Swept, SlotFor, IsDuplicate;
    if |calls| > 0 {
      var n := |calls| - 1;
      var s, c := Run(capacity, ttl, calls[..n]), calls[n];
      PrefixIsRun(capacity, ttl, calls, n);
      RunIsSound(capacity, ttl, calls[..n]);
      SweepKeepsSound(s, c, ttl);
      if !Refused(s, c, ttl) && c.signatureOk {
        StoreKeepsSound(Sweep(s, c, ttl), c, ttl);
      }
    }
  }

  lemma PrefixIsRun(capacity: nat, ttl: uint32, calls: seq<Call>, n: nat)
    requires IsRun(capacity, ttl, calls) && n <= |calls|
    ensures IsRun(capacity, ttl, calls[..n])
  {
    forall m | 0 <= m < n
      ensures Timely(Run(capacity, ttl, calls[..n][..m]), calls[..n][m], ttl)
    {
      assert calls[..n][..m] == calls[..m];
    }
  }

  // ---------- A stored nonce stays until too many newer ones push it out ----------

  /** The stores made at or after the given time. */
  ghost function StoresSince(log: seq<StoreEvent>, time: nat): set<nat> {
    set k | 0 <= k < |log| && log[k].time >= time
  }

  ghost predicate Held(s: State, j: nat)
    requires |s.cache| == |s.source|
  {
    exists i :: 0 <= i < |s.cache| && s.cache[i].valid && s.source[i] == j
  }

  ghost predicate HeldOrCrowdedOut(s: State, j: nat)
    requires |s.cache| == |s.source| && j < |s.log|
  {
    Held(s, j) || |StoresSince(s.log, s.log[j].time)| > |s.cache|
  }

  lemma SweepHolds(s: State, c: Call, ttl: uint32, j: nat)
    requires Sound(s, s.lastClean, ttl) && ttl > 0 && j < |s.log| && HeldOrCrowdedOut(s, j)
    requires s.log[j].time <= c.time <= s.log[j].time + ttl
    ensures HeldOrCrowdedOut(Sweep(s, c, ttl), j)
  {
    if Held(s, j) {
      var i :| 0 <= i < |s.cache| && s.cache[i].valid && s.source[i] == j;
      assert SlotSound(s, i, s.lastClean, ttl);
      AgeIsExact(c.time, s.log[j].time);
      assert Sweep(s, c, ttl).cache[i].valid;
    }
  }

  /** The sources of the first n slots, when all of those are valid. */
  lemma {:induction false} SourcesAreMany(s: State, t: nat, ttl: uint32, n: nat) returns (sources: set<nat>)
    requires Sound(s, t, ttl) && n <= |s.cache|
    requires forall i :: 0 <= i < n ==> s.cache[i].valid
    ensures |sources| == n
    ensures forall k :: k in sources <==> exists i :: 0 <= i < n && s.source[i] == k
  {
    sources := {};
    if n > 0 {
      sources := SourcesAreMany(s, t, ttl, n - 1);
      sources := sources + {s.source[n - 1]};
    }
  }

  lemma SubsetSize(a: set<nat>, b: set<nat>)
    requires a <= b
    ensures |a| <= |b|
  {
    assert b == a + (b - a);
  }

  /** Evicting a held store means that every slot was filled at least as late. */
  lemma EvictionMeansCrowd(s: State, c: Call, ttl: uint32, i: nat)
    requires Sound(s, c.time, ttl) && i < |s.cache| && s.cache[i].valid
    requires SlotFor(s.cache, Tick(c.time)) == i
    ensures s.source[i] < |s.log|
    ensures |StoresSince(s.log + [StoreEvent(c.nonce, c.time)], s.log[s.source[i]].time)| > |s.cache|
  {
    assert SlotSound(s, i, c.time, ttl);
    var time := s.log[s.source[i]].time;
    var after := s.log + [StoreEvent(c.nonce, c.time)];
    var sources := SourcesAreMany(s, c.time, ttl, |s.cache|);
    forall k | k in sources
      ensures k < |s.log| && s.log[k].time >= time
    {
      var m :| 0 <= m < |s.cache| && s.source[m] == k;
      assert SlotSound(s, m, c.time, ttl);
      AgeIsExact(c.time, s.log[k].time);
      AgeIsExact(c.time, time);
      assert Age(Tick(c.time), s.cache[m].timestamp) <= Age(Tick(c.time), s.cache[i].timestamp);
    }
    assert sources + {|s.log|} <= StoresSince(after, time);
    SubsetSize(sources + {|s.log|}, StoresSince(after, time));
  }

  lemma StoreHolds(s: State, c: Call, ttl: uint32, j: nat)
    requires Sound(s, c.time, ttl) && j < |s.log| && HeldOrCrowdedOut(s, j)
    ensures HeldOrCrowdedOut(Store(s, c), j)
  {
    if |s.cache| > 0 {
      var slot, t := SlotFor(s.cache, Tick(c.time)), Store(s, c);
      if Held(s, j) {
        var i :| 0 <= i < |s.cache| && s.cache[i].valid && s.source[i] == j;
        if i == slot {
          EvictionMeansCrowd(s, c, ttl, i);
        } else {
          assert t.cache[i].valid && t.source[i] == j;
        }
      } else {
        var time := s.log[j].time;
        SubsetSize(StoresSince(s.log, time), StoresSince(t.log, time));
      }
    }
  }

  lemma {:induction false} RunHolds(capacity: nat, ttl: uint32, calls: seq<Call>, j: nat)
    requires IsRun(capacity, ttl, calls) && j < |Run(capacity, ttl, calls).log|
    requires calls[|calls| - 1].time <= Run(capacity, ttl, calls).log[j].time + ttl
    ensures HeldOrCrowdedOut(Run(capacity, ttl, calls), j)
    decreases |calls|
  {
    hide Swept, SlotFor, IsDuplicate, Sound;
    var n := |calls| - 1;
    var s, c := Run(capacity, ttl, calls[..n]), calls[n];
    PrefixIsRun(capacity, ttl, calls, n);
    RunIsSound(capacity, ttl, calls[..n]);
    SweepKeepsSound(s, c, ttl);
    var swept := Sweep(s, c, ttl);
    if j < |s.log| {
      RunHolds(capacity, ttl, calls[..n], j);
      SweepHolds(s, c, ttl, j);
      if !Refused(s, c, ttl) && c.signatureOk {
        StoreHolds(swept, c, ttl, j);
      }
    } else {
      var t := Store(swept, c);
      var slot := SlotFor(swept.cache, Tick(c.time));
      assert t.cache[slot].valid && t.source[slot] == j;
    }
  }

  /**
   * A nonce stored at one tick is refused at any later one within the lifetime, unless more than
   * capacity nonces, itself included, were stored since that tick.
   */
  lemma ReplayIsRefused(capacity: nat, ttl: uint32, calls: seq<Call>, j: nat, c: Call)
    requires IsRun(capacity, ttl, calls + [c]) && j < |Run(capacity, ttl, calls).log|
    requires c.nonce == Run(capacity, ttl, calls).log[j].nonce
    requires c.time <= Run(capacity, ttl, calls).log[j].time + ttl
    requires |StoresSince(Run(capacity, ttl, calls).log, Run(capacity, ttl, calls).log[j].time)| <= capacity
    ensures Refused(Run(capacity, ttl, calls), c, ttl)
  {
    var s := Run(capacity, ttl, calls);
    EarlierCalls(capacity, ttl, calls, c);
    RunHolds(capacity, ttl, calls, j);
    RunIsSound(capacity, ttl, calls);
    var i :| 0 <= i < |s.cache| && s.cache[i].valid && s.source[i] == j;
    assert SlotSound(s, i, s.lastClean, ttl);
    AgeIsExact(c.time, s.log[j].time);
    assert Matches(s.cache[i], c.nonce, Tick(c.time), ttl);
  }

  lemma EarlierCalls(capacity: nat, ttl: uint32, calls: seq<Call>, c: Call)
    requires IsRun(capacity, ttl, calls + [c])
    ensures IsRun(capacity, ttl, calls) && Timely(Run(capacity, ttl, calls), c, ttl)
    ensures |calls| > 0 ==> calls[|calls| - 1].time <= c.time
  {
    var all := calls + [c];
    PrefixIsRun(capacity, ttl, all, |calls|);
    assert all[..|calls|] == calls && all[|calls|] == c;
    assert |calls| > 0 ==> all[|calls| - 1] == calls[|calls| - 1];
  }

  lemma MatchIsHeld(s: State, c: Call, ttl: uint32)
    requires Sound(s, s.lastClean, ttl) && Refused(s, c, ttl)
    ensures exists k :: 0 <= k < |s.log| && s.log[k].nonce == c.nonce && Held(s, k)
  {
    var i :| 0 <= i < |s.cache| && Matches(s.cache[i], c.nonce, Tick(c.time), ttl);
    assert SlotSound(s, i, s.lastClean, ttl);
    assert Held(s, s.source[i]);
  }

  /** Only a nonce that was stored before is ever refused. */
  lemma OnlyStoredNoncesAreRefused(capacity: nat, ttl: uint32, calls: seq<Call>, c: Call)
    requires IsRun(capacity, ttl, calls) && Refused(Run(capacity, ttl, calls), c, ttl)
    ensures exists k :: 0 <= k < |Run(capacity, ttl, calls).log| && Run(capacity, ttl, calls).log[k].nonce == c.nonce
  {
    var s := Run(capacity, ttl, calls);
    RunIsSound(capacity, ttl, calls);
    MatchIsHeld(s, c, ttl);
  }

  // ---------- The bound is exact when no two stores share a tick ----------

  ghost predicate DistinctTimes(log: seq<StoreEvent>) {
    forall i, k :: 0 <= i < k < |log| ==> log[i].time < log[k].time
  }

  /** While a store is held, so is every later one. */
  ghost predicate LaterHeld(s: State, j: nat)
    requires |s.cache| == |s.source|
  {
    Held(s, j) ==> forall k :: j <= k < |s.log| ==> Held(s, k)
  }

  lemma SweepKeepsLater(s: State, c: Call, ttl: uint32, j: nat)
    requires Sound(s, s.lastClean, ttl) && ttl > 0 && j < |s.log| && LaterHeld(s, j) && DistinctTimes(s.log)
    requires s.lastClean <= c.time <= s.log[j].time + ttl
    ensures LaterHeld(Sweep(s, c, ttl), j)
  {
    var t := Sweep(s, c, ttl);
    if Held(t, j) {
      var m :| 0 <= m < |t.cache| && t.cache[m].valid && t.source[m] == j;
      assert s.cache[m].valid;
      assert Held(s, j);
      forall k | j <= k < |t.log|
        ensures Held(t, k)
      {
        assert Held(s, k);
        var i :| 0 <= i < |s.cache| && s.cache[i].valid && s.source[i] == k;
        assert SlotSound(s, i, s.lastClean, ttl);
        AgeIsExact(c.time, s.log[k].time);
        assert t.cache[i].valid && t.source[i] == k;
      }
    }
  }

  lemma StoreKeepsLater(s: State, c: Call, ttl: uint32, j: nat)
    requires Sound(s, c.time, ttl) && j < |s.log| && LaterHeld(s, j) && DistinctTimes(s.log)
    ensures LaterHeld(Store(s, c), j)
  {
    if |s.cache| > 0 && Held(Store(s, c), j) {
      var slot, t := SlotFor(s.cache, Tick(c.time)), Store(s, c);
      var m :| 0 <= m < |t.cache| && t.cache[m].valid && t.source[m] == j;
      assert SlotSound(t, m, c.time, ttl) by { StoreKeepsSound(s, c, ttl); }
      assert s.cache[m].valid && s.source[m] == j && m != slot;
      assert Held(s, j);
      forall k | j <= k < |t.log|
        ensures Held(t, k)
      {
        if k == |s.log| {
          assert t.cache[slot].valid && t.source[slot] == k;
        } else {
          assert Held(s, k);
          var i :| 0 <= i < |s.cache| && s.cache[i].valid && s.source[i] == k;
          assert SlotSound(s, i, c.time, ttl) && SlotSound(s, m, c.time, ttl);
          AgeIsExact(c.time, s.log[k].time);
          AgeIsExact(c.time, s.log[j].time);
          assert i != slot;
          assert t.cache[i].valid && t.source[i] == k;
        }
      }
    }
  }

  lemma NextLog(s: State, c: Call, ttl: uint32)
    requires |s.cache| == |s.source|
    ensures s.log <= Next(s, c, ttl).log
  {
  }

  lemma {:induction false} RunKeepsLater(capacity: nat, ttl: uint32, calls: seq<Call>, j: nat)
    requires IsRun(capacity, ttl, calls) && j < |Run(capacity, ttl, calls).log|
    requires DistinctTimes(Run(capacity, ttl, calls).log)
    requires calls[|calls| - 1].time <= Run(capacity, ttl, calls).log[j].time + ttl
    ensures LaterHeld(Run(capacity, ttl, calls), j)
    decreases |calls|
  {
    hide Swept, SlotFor, IsDuplicate, Sound;
    var n := |calls| - 1;
    var s, c := Run(capacity, ttl, calls[..n]), calls[n];
    PrefixIsRun(capacity, ttl, calls, n);
    RunIsSound(capacity, ttl, calls[..n]);
    SweepKeepsSound(s, c, ttl);
    NextLog(s, c, ttl);
    if j < |s.log| {
      RunKeepsLater(capacity, ttl, calls[..n], j);
      SweepKeepsLater(s, c, ttl, j);
      if !Refused(s, c, ttl) && c.signatureOk {
        StoreKeepsLater(Sweep(s, c, ttl), c, ttl, j);
      }
    }
  }

  /** Held stores sit in different slots. */
  lemma {:induction false} HeldStoresNeedSlots(s: State, from: nat, end: nat) returns (slots: set<nat>)
    requires |s.cache| == |s.source| && from <= end
    requires forall k :: from <= k < end ==> Held(s, k)
    ensures |slots| == end - from
    ensures forall i: nat :: i in slots ==> (i < |s.cache| && from <= s.source[i] < end)
    decreases end
  {
    slots := {};
    if from < end {
      slots := HeldStoresNeedSlots(s, from, end - 1);
      assert Held(s, end - 1);
      var i: nat :| i < |s.cache| && s.cache[i].valid && s.source[i] == end - 1;
      slots := slots + {i};
    }
  }

  lemma {:induction false} Interval(n: nat) returns (all: set<nat>)
    ensures |all| == n && forall i: nat :: (i in all <==> i < n)
  {
    all := {};
    if n > 0 {
      all := Interval(n - 1);
      all := all + {n - 1};
    }
  }

  /** With distinct ticks a store is pushed out as soon as capacity later ones were made. */
  lemma CrowdedMeansGone(capacity: nat, ttl: uint32, calls: seq<Call>, j: nat)
    requires IsRun(capacity, ttl, calls) && j < |Run(capacity, ttl, calls).log|
    requires DistinctTimes(Run(capacity, ttl, calls).log)
    requires calls[|calls| - 1].time <= Run(capacity, ttl, calls).log[j].time + ttl
    requires |Run(capacity, ttl, calls).log| - j > capacity
    ensures !Held(Run(capacity, ttl, calls), j)
  {
    var s := Run(capacity, ttl, calls);
    RunKeepsLater(capacity, ttl, calls, j);
    if Held(s, j) {
      var slots := HeldStoresNeedSlots(s, j, |s.log|);
      var all := Interval(capacity);
      SubsetSize(slots, all);
    }
  }

  /**
   * Exactly when a replay within the lifetime is caught, for stores at distinct ticks: fewer than
   * capacity further nonces were stored after it.
   */
  lemma ReplayIsRefusedExactlyWhen(capacity: nat, ttl: uint32, calls: seq<Call>, j: nat, c: Call)
    requires IsRun(capacity, ttl, calls + [c]) && j < |Run(capacity, ttl, calls).log|
    requires DistinctTimes(Run(capacity, ttl, calls).log)
    requires forall k :: 0 <= k < |Run(capacity, ttl, calls).log| ==>
               (Run(capacity, ttl, calls).log[k].nonce == c.nonce <==> k == j)
    requires c.time <= Run(capacity, ttl, calls).log[j].time + ttl
    ensures Refused(Run(capacity, ttl, calls), c, ttl) <==> |Run(capacity, ttl, calls).log| - j <= capacity
  {
    var s := Run(capacity, ttl, calls);
    EarlierCalls(capacity, ttl, calls, c);
    RunIsSound(capacity, ttl, calls);
    if |s.log| - j <= capacity {
      StoresAfter(s.log, j);
      ReplayIsRefused(capacity, ttl, calls, j, c);
    } else {
      CrowdedMeansGone(capacity, ttl, calls, j);
      if Refused(s, c, ttl) {
        MatchIsHeld(s, c, ttl);
      }
    }
  }

  lemma StoresAfter(log: seq<StoreEvent>, j: nat)
    requires j < |log| && DistinctTimes(log)
    ensures |StoresSince(log, log[j].time)| <= |log| - j
  {
    var since := StoresSince(log, log[j].time);
    var below := Interval(j);
    var all := Interval(|log|);
    SubsetSize(since + below, all);
    assert since !! below;
  }
}
