/** The sensor node's data model in sensor_node/main/data_model.c and its loop in sensor_node/main/app_main.c. */
module Publishing {
  import opened Bytes
  import opened Lookup
  import opened Printing
  import opened SensorUpdates
  import Decoding = SensorDecoding
  import opened UpdateLength

  const BUFFER_SIZE := 2048

  /** Changed by more than the threshold. */
  predicate ValueChanged(a: real, b: real, threshold: real) {
    (if a < b then b - a else a - b) > threshold
  }

  predicate Close(a: real, b: real, threshold: real) {
    -threshold <= a - b <= threshold
  }

  /** Every counted reading within its threshold, and equal ports, duties and frequency. */
  predicate Within(current: SensorUpdate, published: SensorUpdate, temp: real, humidity: real)
    requires WellFormed(current) && WellFormed(published)
  {
    && (forall i :: 0 <= i < current.sht20Count ==>
          && Close(current.sht20[i].temperature, published.sht20[i].temperature, temp)
          && Close(current.sht20[i].humidity, published.sht20[i].humidity, humidity))
    && (forall i :: 0 <= i < current.ds18b20Count ==>
          Close(current.ds18b20[i].temperature, published.ds18b20[i].temperature, temp))
    && current.mcp == published.mcp && current.duty == published.duty && current.frequency == published.frequency
  }

  lemma WithinItself(m: SensorUpdate, temp: real, humidity: real)
    requires WellFormed(m) && temp >= 0.0 && humidity >= 0.0
    ensures Within(m, m, temp, humidity)
  {
  }

  /** A text cut to the room of an id. */
  function Cut(id: string): (cut: string)
    ensures cut <= id && (if |id| < 15 then |cut| == |id| else |cut| == 15)
  {
    if |id| <= 15 then id else id[..15]
  }

  /** A value that differs by more than the threshold, in either direction. */
  predicate Moved(a: real, b: real, threshold: real) {
    a > b + threshold || a < b - threshold
  }

  /** Something the receiver should hear of: a counted reading that has moved, or any other port or duty. */
  ghost predicate HasNews(current: SensorUpdate, published: SensorUpdate, temp: real, humidity: real)
    requires WellFormed(current) && WellFormed(published)
  {
    || (exists i :: 0 <= i < current.sht20Count
                    && Moved(current.sht20[i].temperature, published.sht20[i].temperature, temp))
    || (exists i :: 0 <= i < current.sht20Count
                    && Moved(current.sht20[i].humidity, published.sht20[i].humidity, humidity))
    || (exists i :: 0 <= i < current.ds18b20Count
                    && Moved(current.ds18b20[i].temperature, published.ds18b20[i].temperature, temp))
    || (exists i :: 0 <= i < 2 && (current.mcp[i].portA != published.mcp[i].portA
                                   || current.mcp[i].portB != published.mcp[i].portB))
    || (exists k :: 0 <= k < 16 && current.duty[k] != published.duty[k])
    || current.frequency != published.frequency
  }

  lemma WithinMeansNoNews(current: SensorUpdate, published: SensorUpdate, temp: real, humidity: real)
    requires WellFormed(current) && WellFormed(published)
    ensures Within(current, published, temp, humidity) <==> !HasNews(current, published, temp, humidity)
  {
  }

  function Max(a: nat, b: nat): nat {
    if a < b then b else a
  }

  /** Slots that are not counted hold nothing. */
  predicate EmptyAbove(m: SensorUpdate)
    requires WellFormed(m)
  {
    && (forall i :: m.sht20Count <= i < 2 ==> m.sht20[i] == NO_SHT20)
    && (forall i :: m.ds18b20Count <= i < 4 ==> m.ds18b20[i] == NO_DS18B20)
  }

  /** Readings are never uncounted again. */
  predicate CountsGrow(before: SensorUpdate, after: SensorUpdate) {
    before.sht20Count <= after.sht20Count && before.ds18b20Count <= after.ds18b20Count
  }

  function WithSht20(m: SensorUpdate, index: nat, r: Sht20Reading): SensorUpdate
    requires WellFormed(m) && index < 2
  {
    m.(sht20 := m.sht20[index := r], sht20Count := Max(m.sht20Count, index + 1))
  }

  function WithDs18b20(m: SensorUpdate, index: nat, r: Ds18b20Reading): SensorUpdate
    requires WellFormed(m) && index < 4
  {
    m.(ds18b20 := m.ds18b20[index := r], ds18b20Count := Max(m.ds18b20Count, index + 1))
  }

  class DataModel {
    var current: SensorUpdate
    var lastPublished: SensorUpdate
    const first: array<char>
    const second: array<char>
    var firstLength: nat
    var secondLength: nat
    var next: nat
    /** Whether anything was built yet. */
    ghost var built: bool
    /** How often the sequence number was counted up, and how often before the last build. */
    ghost var counted: nat
    ghost var countedAtBuild: nat

    /** The buffer that the next build fills, and the other one. */
    ghost function NextBuffer(): array<char>
      reads this
    {
      if next == 0 then first else second
    }

    ghost function StagedBuffer(): array<char>
      reads this
    {
      if next == 0 then second else first
    }

    ghost function StagedLength(): nat
      reads this
    {
      if next == 0 then secondLength else firstLength
    }

    /** The staged buffer holds the text of the state last published. */
    ghost predicate Valid()
      reads this, first, second
    {
      && WellFormed(current) && WellFormed(lastPublished) && next < 2
      && first != second && first.Length == BUFFER_SIZE && second.Length == BUFFER_SIZE
      && (built ==> StagedLength() <= BUFFER_SIZE && StagedBuffer()[..StagedLength()] == UpdateText(lastPublished))
      && (!built ==> lastPublished == NO_UPDATE)
      && EmptyAbove(current) && EmptyAbove(lastPublished) && CountsGrow(lastPublished, current)
      && current.sequenceId == counted % TWO32
      && (built ==> countedAtBuild <= counted && lastPublished.sequenceId == countedAtBuild % TWO32)
    }

    constructor ()
      ensures Valid() && fresh(first) && fresh(second) && !built && counted == 0
      ensures first.Length == second.Length == 2048
      ensures current == NO_UPDATE.(frequency := 500)
    {
      current, lastPublished := NO_UPDATE.(frequency := 500), NO_UPDATE;
      first, second := new char[BUFFER_SIZE], new char[BUFFER_SIZE];
      firstLength, secondLength, next, built, counted, countedAtBuild := 0, 0, 0, false, 0, 0;
    }

    // ---------- Setters ----------

    method SetSht20(index: nat, id: string, temperature: real, humidity: real, valid: bool)
      requires Valid()
      modifies `current
      ensures Valid()
      ensures index >= 2 ==> current == old(current)
      ensures index < 2 ==>
        current == WithSht20(old(current), index, Sht20Reading(Cut(id), temperature, humidity, valid))
    {
      hide UpdateText;
      if index >= 2 {
        return;
      }
      var entry := Sht20Reading(Cut(id), temperature, humidity, valid);
      current := current.(sht20 := current.sht20[index := entry]);
      if index + 1 > current.sht20Count {
        current := current.(sht20Count := index + 1);
      }
    }

    method SetDs18b20(index: nat, rom: seq<byte>, temperature: real)
      requires Valid() && |rom| == 8
      modifies `current
      ensures Valid()
      ensures index >= 4 ==> current == old(current)
      ensures index < 4 ==> current == WithDs18b20(old(current), index, Ds18b20Reading(rom, temperature))
    {
      hide UpdateText;
      if index >= 4 {
        return;
      }
      current := current.(ds18b20 := current.ds18b20[index := Ds18b20Reading(rom, temperature)]);
      if index + 1 > current.ds18b20Count {
        current := current.(ds18b20Count := index + 1);
      }
    }

    method SetGpio(index: nat, portA: uint16, portB: uint16)
      requires Valid()
      modifies `current
      ensures Valid()
      ensures index >= 2 ==> current == old(current)
      ensures index < 2 ==> current == old(current).(mcp := old(current).mcp[index := PortState(portA, portB)])
    {
      hide UpdateText;
      if index < 2 {
        current := current.(mcp := current.mcp[index := PortState(portA, portB)]);
      }
    }

    /** At most the first sixteen duties are taken over. */
    method SetPwm(duty: seq<uint16>, frequency: uint16)
      requires Valid()
      modifies `current
      ensures Valid()
      ensures current == old(current).(frequency := frequency, duty := current.duty)
      ensures forall k :: 0 <= k < 16 ==> current.duty[k] == if k < |duty| then duty[k] else old(current).duty[k]
    {
      hide UpdateText;
      var max := if |duty| < 16 then |duty| else 16;
      var taken := current.duty;
      var i := 0;
      while i < max
        invariant 0 <= i <= max && |taken| == 16
        invariant forall k :: 0 <= k < 16 ==> taken[k] == if k < i then duty[k] else current.duty[k]
      {
        taken := taken[i := duty[i]];
        i := i + 1;
      }
      current := current.(duty := taken, frequency := frequency);
    }

    method SetTimestamp(timestampMs: uint32)
      requires Valid()
      modifies `current
      ensures Valid() && current == old(current).(timestampMs := timestampMs)
    {
      hide UpdateText;
      current := current.(timestampMs := timestampMs);
    }

    method IncrementSequence()
      requires Valid()
      modifies `current, `counted
      ensures Valid() && current == old(current).(sequenceId := (old(current).sequenceId + 1) % TWO32)
      ensures counted == old(counted) + 1
    {
      hide UpdateText;
      current := current.(sequenceId := (current.sequenceId + 1) % TWO32);
      counted := counted + 1;
    }

    // ---------- Publishing ----------

    /**
     * Says no exactly when something was published under a sequence number other than 0 and nothing
     * moved beyond its threshold; after a publication whose number wrapped to 0 it says yes.
     */
    method ShouldPublish(temp: real, humidity: real) returns (publish: bool)
      requires Valid()
      ensures !publish <==>
        built && countedAtBuild % TWO32 != 0 && Within(current, lastPublished, temp, humidity)
      ensures publish <==>
        !built || countedAtBuild % TWO32 == 0 || HasNews(current, lastPublished, temp, humidity)
    {
      hide UpdateText, HasNews;
      WithinMeansNoNews(current, lastPublished, temp, humidity);
      if lastPublished.sequenceId == 0 {
        return true;
      }
      var i := 0;
      while i < current.sht20Count
        invariant 0 <= i <= current.sht20Count
        invariant forall k :: 0 <= k < i ==>
          && Close(current.sht20[k].temperature, lastPublished.sht20[k].temperature, temp)
          && Close(current.sht20[k].humidity, lastPublished.sht20[k].humidity, humidity)
      {
        if ValueChanged(current.sht20[i].temperature, lastPublished.sht20[i].temperature, temp) ||
           ValueChanged(current.sht20[i].humidity, lastPublished.sht20[i].humidity, humidity) {
          return true;
        }
        i := i + 1;
      }
      i := 0;
      while i < current.ds18b20Count
        invariant 0 <= i <= current.ds18b20Count
        invariant forall k :: 0 <= k < i ==>
          Close(current.ds18b20[k].temperature, lastPublished.ds18b20[k].temperature, temp)
      {
        if ValueChanged(current.ds18b20[i].temperature, lastPublished.ds18b20[i].temperature, temp) {
          return true;
        }
        i := i + 1;
      }
      if current.mcp != lastPublished.mcp {
        return true;
      }
      return current.duty != lastPublished.duty || current.frequency != lastPublished.frequency;
    }

    /**
     * Fills the buffer whose turn it is. The buffer handed out before is left alone, whether this
     * build succeeds or not.
     */
    method Build() returns (ok: bool, buffer: array<char>, length: nat, crc: bv32)
      requires Valid()
      modifies this, NextBuffer()
      ensures Valid() && current == old(current)
      ensures old(StagedBuffer())[..] == old(StagedBuffer()[..])
      ensures ok <==> |UpdateText(current)| < 2048
      ensures FiniteReadings(current) ==> ok
      ensures counted == old(counted)
      ensures ok ==> built && lastPublished == current && next == 1 - old(next) && countedAtBuild == counted
      ensures ok ==> buffer == old(NextBuffer()) == StagedBuffer() && length == StagedLength()
      ensures ok ==> length == |UpdateText(current)| && crc == TextChecksum(UpdateText(current))
      ensures !ok ==> lastPublished == old(lastPublished) && next == old(next)
      ensures !ok ==> built == old(built) && countedAtBuild == old(countedAtBuild)
    {
      hide UpdateText, TextChecksum, FiniteReadings;
      if FiniteReadings(current) {
        UpdateFits(current);
      }
      buffer := if next == 0 then first else second;
      ok, length, crc := EncodeSensorUpdate(current, buffer, BUFFER_SIZE);
      if ok {
        lastPublished := current;
        if next == 0 {
          firstLength := length;
        } else {
          secondLength := length;
        }
        next := (next + 1) % 2;
        built, countedAtBuild := true, counted;
      }
    }

    /** One pass of the main loop. */
    method Tick(timestampMs: uint32, temp: real, humidity: real) returns (tried: bool, sent: bool)
      requires Valid() && temp >= 0.0 && humidity >= 0.0
      modifies this, NextBuffer()
      ensures Valid()
      ensures sent ==> tried
      ensures FiniteReadings(old(current)) ==> sent == tried
      ensures tried == sent ==> built && Within(current, lastPublished, temp, humidity)
      ensures current == old(current).(timestampMs := timestampMs,
        sequenceId := if tried then (old(current).sequenceId + 1) % TWO32 else old(current).sequenceId)
      ensures sent ==> lastPublished == current && countedAtBuild == counted
      ensures !sent ==> lastPublished == old(lastPublished) && StagedBuffer()[..] == old(StagedBuffer()[..])
      ensures !sent ==> built == old(built) && countedAtBuild == old(countedAtBuild)
      ensures counted == old(counted) + if tried then 1 else 0
    {
      hide UpdateText, TextChecksum, Within;
      SetTimestamp(timestampMs);
      tried := ShouldPublish(temp, humidity);
      sent := false;
      if tried {
        IncrementSequence();
        assert FiniteReadings(old(current)) ==> FiniteReadings(current);
        var buffer, length, crc;
        sent, buffer, length, crc := Build();
        WithinItself(current, temp, humidity);
      }
    }
  }

  // ---------- Whole runs ----------

  /** What the sensor and I/O tasks do to the model between two passes. */
  datatype Edit =
    | EditSht20(index: nat, id: string, temperature: real, humidity: real, valid: bool)
    | EditDs18b20(index: nat, rom: seq<byte>, temperature: real)
    | EditGpio(index: nat, portA: uint16, portB: uint16)
    | EditPwm(duty: seq<uint16>, frequency: uint16)

  predicate Usable(e: Edit) {
    match e
    case EditSht20(_, _, temperature, humidity, _) => InFloatRange(temperature) && InFloatRange(humidity)
    case EditDs18b20(_, rom, temperature) => |rom| == 8 && InFloatRange(temperature)
    case _ => true
  }

  predicate AllFinite(m: SensorUpdate)
    requires WellFormed(m)
  {
    && (forall i :: 0 <= i < 2 ==> InFloatRange(m.sht20[i].temperature) && InFloatRange(m.sht20[i].humidity))
    && (forall i :: 0 <= i < 4 ==> InFloatRange(m.ds18b20[i].temperature))
  }

  method Apply(model: DataModel, e: Edit)
    requires model.Valid() && Usable(e) && AllFinite(model.current)
    modifies model`current
    ensures model.Valid() && AllFinite(model.current)
    ensures model.current.sequenceId == old(model.current.sequenceId)
  {
    hide UpdateText, InFloatRange;
    match e
    case EditSht20(index, id, temperature, humidity, valid) => model.SetSht20(index, id, temperature, humidity, valid);
    case EditDs18b20(index, rom, temperature) => model.SetDs18b20(index, rom, temperature);
    case EditGpio(index, portA, portB) => model.SetGpio(index, portA, portB);
    case EditPwm(duty, frequency) => model.SetPwm(duty, frequency);
  }

  method ApplyAll(model: DataModel, edits: seq<Edit>)
    requires model.Valid() && AllFinite(model.current) && forall i :: 0 <= i < |edits| ==> Usable(edits[i])
    modifies model`current
    ensures model.Valid() && AllFinite(model.current)
    ensures model.current.sequenceId == old(model.current.sequenceId)
  {
    hide UpdateText, InFloatRange;
    var i := 0;
    while i < |edits|
      invariant 0 <= i <= |edits|
      invariant model.Valid() && AllFinite(model.current)
      invariant model.current.sequenceId == old(model.current.sequenceId)
    {
      Apply(model, edits[i]);
      i := i + 1;
    }
  }

  /**
   * What holds after a pass: the published update is within the thresholds of the state and counts no
   * reading that the state does not.
   */
  predicate PassHolds(state: SensorUpdate, published: SensorUpdate, temp: real, humidity: real) {
    && WellFormed(state) && WellFormed(published) && Within(state, published, temp, humidity)
    && EmptyAbove(state) && EmptyAbove(published) && CountsGrow(published, state)
  }

  /**
   * Any run of the loop, with any edits before each pass: after every pass the update last published
   * is within the thresholds of the state at that pass.
   */
  method RunLoop(model: DataModel, edits: seq<seq<Edit>>, stamps: seq<uint32>, temp: real, humidity: real)
    returns (states: seq<SensorUpdate>, published: seq<SensorUpdate>)
    requires model.Valid() && AllFinite(model.current) && |stamps| == |edits|
    requires model.built ==> model.countedAtBuild > 0
    requires temp >= 0.0 && humidity >= 0.0
    requires forall i :: 0 <= i < |edits| ==> forall k :: 0 <= k < |edits[i]| ==> Usable(edits[i][k])
    modifies model, model.first, model.second
    ensures model.Valid() && |states| == |published| == |edits|
    ensures forall i :: 0 <= i < |edits| ==> PassHolds(states[i], published[i], temp, humidity)
    ensures |edits| > 0 ==> model.built && model.lastPublished == published[|edits| - 1]
    ensures |edits| > 0 && old(model.counted) + |edits| < TWO32 ==> model.lastPublished.sequenceId != 0
  {
    hide UpdateText, InFloatRange, Within, Usable, TextChecksum, EmptyAbove, CountsGrow;
    states, published := [], [];
    var i := 0;
    while i < |edits|
      invariant 0 <= i <= |edits| && |states| == |published| == i
      invariant model.Valid() && AllFinite(model.current)
      invariant forall k :: 0 <= k < i ==> PassHolds(states[k], published[k], temp, humidity)
      invariant i > 0 ==> model.built && model.lastPublished == published[i - 1]
      invariant model.built ==> model.countedAtBuild > 0
      invariant model.counted <= old(model.counted) + i
    {
      ApplyAll(model, edits[i]);
      var tried, sent := model.Tick(stamps[i], temp, humidity);
      assert PassHolds(model.current, model.lastPublished, temp, humidity);
      states, published := states + [model.current], published + [model.lastPublished];
      i := i + 1;
    }
  }

  /**
   * What a receiver reads from the last payload is, for every counted reading of the state, within the
   * threshold and the rounding to two places. A reading that the payload does not count is empty there,
   * and then the state's numbers for it are within their thresholds of 0.
   */
  lemma ReceiverIsClose(state: SensorUpdate, published: SensorUpdate, temp: real, humidity: real)
    requires PassHolds(state, published, temp, humidity) && Decoding.PlainIds(published)
    ensures Accepted(UpdateText(published), TextChecksum(UpdateText(published)))
    ensures var seen := Decoding.Interpreted(ValueRead(UpdateText(published)));
            && seen.sht20Count == published.sht20Count <= state.sht20Count
            && seen.ds18b20Count == published.ds18b20Count <= state.ds18b20Count
            && (forall i :: 0 <= i < state.sht20Count ==>
                  && Close(seen.sht20[i].temperature, state.sht20[i].temperature, temp + 0.005)
                  && Close(seen.sht20[i].humidity, state.sht20[i].humidity, humidity + 0.005)
                  && (i >= seen.sht20Count ==> seen.sht20[i] == NO_SHT20))
            && (forall i :: 0 <= i < state.ds18b20Count ==>
                  && Close(seen.ds18b20[i].temperature, state.ds18b20[i].temperature, temp + 0.005)
                  && (i >= seen.ds18b20Count ==> seen.ds18b20[i] == NO_DS18B20))
            && seen.mcp == state.mcp && seen.duty == state.duty && seen.frequency == state.frequency
  {
    hide UpdateText, TextChecksum, Accepted, ValueRead, Decoding.Interpreted;
    Decoding.SensorRoundTrip(published, TextChecksum(UpdateText(published)));
    Decoding.NothingAboveCounts(ValueRead(UpdateText(published)));
  }

  // ---------- What goes unseen ----------

  /** With nothing else moved, a new probe is not published if and only if it reads close to 0 degrees. */
  lemma NewProbeUnseenExactlyWhen(m: SensorUpdate, k: nat, r: Ds18b20Reading, temp: real, humidity: real)
    requires WellFormed(m) && EmptyAbove(m) && m.ds18b20Count <= k < 4 && |r.rom| == 8
    requires temp >= 0.0 && humidity >= 0.0
    ensures Within(WithDs18b20(m, k, r), m, temp, humidity) <==> Close(r.temperature, 0.0, temp)
  {
    var state := WithDs18b20(m, k, r);
    assert state.ds18b20[k] == r && m.ds18b20[k] == NO_DS18B20;
  }

  /** The same for an ambient sensor, whose humidity must be close to 0 as well. */
  lemma NewAmbientUnseenExactlyWhen(m: SensorUpdate, k: nat, r: Sht20Reading, temp: real, humidity: real)
    requires WellFormed(m) && EmptyAbove(m) && m.sht20Count <= k < 2 && |r.id| <= 15
    requires temp >= 0.0 && humidity >= 0.0
    ensures Within(WithSht20(m, k, r), m, temp, humidity)
       <==> Close(r.temperature, 0.0, temp) && Close(r.humidity, 0.0, humidity)
  {
    var state := WithSht20(m, k, r);
    assert state.sht20[k] == r && m.sht20[k] == NO_SHT20;
  }

  /** The same on the model: right after a publication a probe appears, and the loop asks whether to publish. */
  method ProbeAppears(model: DataModel, k: nat, rom: seq<byte>, reading: real, temp: real, humidity: real)
    returns (publish: bool)
    requires model.Valid() && model.built && model.countedAtBuild % TWO32 != 0
    requires model.current == model.lastPublished && model.current.ds18b20Count <= k < 4 && |rom| == 8
    requires temp >= 0.0 && humidity >= 0.0
    modifies model`current
    ensures model.Valid() && publish == !Close(reading, 0.0, temp)
  {
    hide UpdateText, Within;
    NewProbeUnseenExactlyWhen(model.current, k, Ds18b20Reading(rom, reading), temp, humidity);
    model.SetDs18b20(k, rom, reading);
    publish := model.ShouldPublish(temp, humidity);
  }

  /** An update without probes, and a state in which one has appeared that reads 0.1 degrees. */
  const NO_PROBE := NO_UPDATE.(sequenceId := 1, frequency := 500)
  const ONE_PROBE := NO_PROBE.(ds18b20Count := 1, ds18b20 := NO_PROBE.ds18b20[0 :=
    Ds18b20Reading([40, 1, 2, 3, 4, 5, 6, 7], 0.1)])

  /** With the thresholds of the loop that state is not published, and the receiver goes on seeing no probe. */
  lemma ProbeNearZeroIsMissed()
    ensures PassHolds(ONE_PROBE, NO_PROBE, 0.3, 1.0) && ONE_PROBE.ds18b20Count == 1
    ensures Decoding.Interpreted(ValueRead(UpdateText(NO_PROBE))).ds18b20Count == 0
  {
    hide UpdateText, TextChecksum, Accepted, ValueRead, Decoding.Interpreted;
    ReceiverIsClose(ONE_PROBE, NO_PROBE, 0.3, 1.0);
  }

  /** A sensor that turns valid or invalid without its numbers moving is not published. */
  lemma FlagChangeGoesUnseen(m: SensorUpdate, i: nat, temp: real, humidity: real)
    requires WellFormed(m) && i < m.sht20Count && temp >= 0.0 && humidity >= 0.0
    ensures Within(m.(sht20 := m.sht20[i := m.sht20[i].(valid := !m.sht20[i].valid)]), m, temp, humidity)
  {
  }

  /** Nor are a changed id and a changed ROM code. */
  lemma NameChangeGoesUnseen(m: SensorUpdate, i: nat, id: string, k: nat, rom: seq<byte>, temp: real, humidity: real)
    requires WellFormed(m) && i < m.sht20Count && k < m.ds18b20Count && |id| <= 15 && |rom| == 8
    requires temp >= 0.0 && humidity >= 0.0
    ensures Within(m.(sht20 := m.sht20[i := m.sht20[i].(id := id)]), m, temp, humidity)
    ensures Within(m.(ds18b20 := m.ds18b20[k := m.ds18b20[k].(rom := rom)]), m, temp, humidity)
  {
  }
}
