/**
 * The way of a pin setting from the touch screen to the output latches of the two port expanders:
 * hmi_node/main/display/ui_screens.c, sensor_node/main/tasks/t_io.c and
 * sensor_node/main/drivers/mcp23017.c.
 */
module Gpio {
  import opened Bytes
  import opened PortBits

  // ---------- The driver ----------

  function Word(low: bv8, high: bv8): bv16 {
    ((high as bv16) << 8) | low as bv16
  }

  function LowByte(w: bv16): bv8 {
    (w & 0xFF) as bv8
  }

  function HighByte(w: bv16): bv8 {
    (w >> 8) as bv8
  }

  lemma WordRoundTrip(w: bv16)
    ensures Word(LowByte(w), HighByte(w)) == w
  {
  }

  /**
   * How the two transfers of one update go: whether each is reported as good, and how many of the two
   * bytes a write that is reported as bad left in the latches, low byte first.
   */
  datatype Bus = Bus(readOk: bool, writeOk: bool, landed: nat) {
    predicate Works() {
      readOk && writeOk
    }

    /** The bits of the latches that an update reaches. */
    function Reach(): bv16 {
      if !readOk then 0
      else if writeOk || landed >= 2 then 0xFFFF
      else if landed == 1 then 0x00FF
      else 0
    }
  }

  /** One expander's pair of output latches. */
  class Expander {
    var latchA: bv8
    var latchB: bv8

    ghost function Latch(): bv16
      reads this
    {
      Word(latchA, latchB)
    }

    method Read16(works: bool) returns (err: EspErr, value: bv16)
      ensures err == (if works then EspOk else EspFail)
      ensures works ==> value == Latch()
    {
      if !works {
        return EspFail, 0;
      }
      return EspOk, Word(latchA, latchB);
    }

    /** Low byte first; what is reported as bad may have landed in part. */
    method Write16(value: bv16, bus: Bus) returns (err: EspErr)
      requires bus.readOk
      modifies this
      ensures err == (if bus.writeOk then EspOk else EspFail)
      ensures Latch() == Merge(old(Latch()), bus.Reach(), value)
    {
      hide Word, LowByte, HighByte, Merge;
      MergeBytes(latchA, latchB, value);
      if bus.writeOk || bus.landed >= 1 {
        latchA := LowByte(value);
      }
      if bus.writeOk || bus.landed >= 2 {
        latchB := HighByte(value);
      }
      return if bus.writeOk then EspOk else EspFail;
    }

    /** Changes the masked bits as far as the write reaches, or nothing when the read fails. */
    method WriteGpio(mask: bv16, value: bv16, bus: Bus) returns (err: EspErr)
      modifies this
      ensures err == (if bus.Works() then EspOk else EspFail)
      ensures Latch() == Merge(old(Latch()), And(mask, bus.Reach()), value)
    {
      hide Word, Merge, And;
      ghost var before := Latch();
      MergeNothing(before, mask, value);
      var current;
      err, current := Read16(bus.readOk);
      if err != EspOk {
        return;
      }
      MergeTwice(before, mask, bus, value);
      err := Write16(Merge(current, mask, value), bus);
    }
  }

  lemma MergeAll(current: bv16, mask: bv16, value: bv16)
    ensures Merge(current, 0xFFFF, value) == value && And(mask, 0xFFFF) == mask
  {
  }

  lemma MergeNone(current: bv16, mask: bv16, value: bv16)
    ensures Merge(current, 0, value) == current && And(mask, 0) == 0
  {
  }

  lemma MergeLowByte(a: bv8, b: bv8, value: bv16)
    ensures Merge(Word(a, b), 0x00FF, value) == Word(LowByte(value), b)
  {
  }

  /** Port A is the lower half of the word, and port B the upper one. */
  lemma PortsOfWord(a: bv8, b: bv8, bit: nat)
    requires bit < 16
    ensures Bit(Word(a, b), bit) == if bit < 8 then Bit(a as bv16, bit) else Bit(b as bv16, bit - 8)
  {
    HalvesOfWord(a, b);
    hide Word, And, Half8, Bit;
    if bit < 8 {
      LowBit(Word(a, b), bit);
    } else {
      BitAfterEight(Word(a, b), bit - 8);
    }
  }

  lemma HalvesOfWord(a: bv8, b: bv8)
    ensures And(Word(a, b), 0xFF) == a as bv16 && Half8(Word(a, b)) == b as bv16
  {
  }

  /** Which of the two latch bytes are replaced, as masked updates of the word. */
  lemma MergeBytes(a: bv8, b: bv8, value: bv16)
    ensures Merge(Word(a, b), 0xFFFF, value) == Word(LowByte(value), HighByte(value))
    ensures Merge(Word(a, b), 0x00FF, value) == Word(LowByte(value), b)
    ensures Merge(Word(a, b), 0, value) == Word(a, b)
  {
    hide Merge, Word, LowByte, HighByte;
    MergeAll(Word(a, b), 0, value);
    WordRoundTrip(value);
    MergeLowByte(a, b, value);
    MergeNone(Word(a, b), 0, value);
  }

  lemma MergeNothing(current: bv16, mask: bv16, value: bv16)
    ensures Merge(current, And(mask, 0), value) == current
  {
    hide Merge, And;
    MergeNone(current, mask, value);
  }

  lemma KeptParts(c: bv16, m: bv16, v: bv16)
    ensures (c & !(m & 0xFF)) == (c & 0xFF00) | ((c & !m) & 0xFF)
    ensures v & (m & 0xFF) == (v & m) & 0xFF
  {
  }

  lemma MergeTwiceLow(c: bv16, m: bv16, v: bv16)
    ensures Merge(c, 0x00FF, Merge(c, m, v)) == Merge(c, And(m, 0x00FF), v)
  {
    KeptParts(c, m, v);
  }

  /** Writing back a part of a masked update is updating that part of the mask. */
  lemma MergeTwice(current: bv16, mask: bv16, bus: Bus, value: bv16)
    requires bus.readOk
    ensures Merge(current, bus.Reach(), Merge(current, mask, value)) == Merge(current, And(mask, bus.Reach()), value)
  {
    hide Merge, And;
    MergeAll(current, mask, Merge(current, mask, value));
    MergeTwiceLow(current, mask, value);
    MergeNone(current, mask, Merge(current, mask, value));
    MergeNone(current, mask, value);
  }

  // ---------- The queue and its commands ----------

  const QUEUE_LENGTH := 16

  datatype IoCommand =
    | SetPwm(channel: byte, duty: uint16)
    | SetFrequency(frequency: uint16)
    | WriteGpio(device: byte, port: byte, mask: bv16, value: bv16)

  /** A port's byte in its place in the expander's word. */
  function Placed(port: byte, w: bv16): bv16 {
    if port != 0 then Raise(And(w, 0xFF)) else And(w, 0xFF)
  }

  /** The latches after one command. */
  function LatchesAfterOne(latches: seq<bv16>, c: IoCommand, bus: Bus): (after: seq<bv16>)
    requires |latches| == 2
    ensures |after| == 2
  {
    if c.WriteGpio? then
      var mask := And(Placed(c.port, c.mask), bus.Reach());
      latches[c.device % 2 := Merge(latches[c.device % 2], mask, Placed(c.port, c.value))]
    else latches
  }

  function LatchesAfter(latches: seq<bv16>, cs: seq<IoCommand>, bus: seq<Bus>): (after: seq<bv16>)
    requires |latches| == 2 && |bus| == |cs|
    ensures |after| == 2
    decreases |cs|
  {
    if |cs| == 0 then latches else LatchesAfter(LatchesAfterOne(latches, cs[0], bus[0]), cs[1..], bus[1..])
  }

  function DutiesAfterOne(duty: seq<uint16>, c: IoCommand): (after: seq<uint16>)
    requires |duty| == 16
    ensures |after| == 16
  {
    if c.SetPwm? then duty[c.channel % 16 := c.duty] else duty
  }

  function DutiesAfter(duty: seq<uint16>, cs: seq<IoCommand>): (after: seq<uint16>)
    requires |duty| == 16
    ensures |after| == 16
    decreases |cs|
  {
    if |cs| == 0 then duty else DutiesAfter(DutiesAfterOne(duty, cs[0]), cs[1..])
  }

  function FrequencyAfterOne(frequency: uint16, c: IoCommand): uint16 {
    if c.SetFrequency? then c.frequency else frequency
  }

  function FrequencyAfter(frequency: uint16, cs: seq<IoCommand>): uint16
    decreases |cs|
  {
    if |cs| == 0 then frequency
    else FrequencyAfter(FrequencyAfterOne(frequency, cs[0]), cs[1..])
  }

  /** The commands that find room; the others are lost. */
  function Queued(queue: seq<IoCommand>, cs: seq<IoCommand>): seq<IoCommand>
    decreases |cs|
  {
    if |cs| == 0 then queue
    else Queued(if |queue| < QUEUE_LENGTH then queue + [cs[0]] else queue, cs[1..])
  }

  class IoTask {
    var queue: seq<IoCommand>
    var frequency: uint16
    const duty: array<uint16>
    const first: Expander
    const second: Expander

    ghost predicate Valid()
      reads this
    {
      duty.Length == 16 && |queue| <= QUEUE_LENGTH && first != second
    }

    ghost function Latches(): (latches: seq<bv16>)
      reads first, second
      ensures |latches| == 2
    {
      [first.Latch(), second.Latch()]
    }

    constructor (a: Expander, b: Expander)
      requires a != b
      ensures Valid() && fresh(duty) && first == a && second == b
      ensures queue == [] && frequency == 500 && duty[..] == seq(16, _ => 0)
    {
      queue, frequency := [], 500;
      first, second := a, b;
      duty := new uint16[16](_ => 0);
    }

    method Send(c: IoCommand) returns (ok: bool)
      requires Valid()
      modifies this
      ensures Valid() && frequency == old(frequency)
      ensures ok <==> old(|queue|) < 16
      ensures queue == Queued(old(queue), [c])
    {
      ok := |queue| < QUEUE_LENGTH;
      if ok {
        queue := queue + [c];
      }
    }

    method Perform(c: IoCommand, bus: Bus)
      requires Valid()
      modifies `frequency, duty, first, second
      ensures Valid() && Latches() == LatchesAfterOne(old(Latches()), c, bus)
      ensures duty[..] == DutiesAfterOne(old(duty[..]), c)
      ensures frequency == FrequencyAfterOne(old(frequency), c)
    {
      hide Word, Merge, Placed, And, Bus.Reach;
      match c {
        case SetPwm(channel, value) =>
          duty[channel % 16] := value;
        case SetFrequency(value) =>
          frequency := value;
        case WriteGpio(device, port, mask, value) =>
          if device % 2 == 0 {
            var _ := first.WriteGpio(Placed(port, mask), Placed(port, value), bus);
          } else {
            var _ := second.WriteGpio(Placed(port, mask), Placed(port, value), bus);
          }
      }
    }

    /** Works off the queue; bus says which updates of the expanders go through. */
    method Drain(bus: seq<Bus>)
      requires Valid() && |bus| == |queue|
      modifies this, duty, first, second
      ensures Valid() && queue == []
      ensures Latches() == LatchesAfter(old(Latches()), old(queue), bus)
      ensures duty[..] == DutiesAfter(old(duty[..]), old(queue))
      ensures frequency == FrequencyAfter(old(frequency), old(queue))
    {
      hide LatchesAfterOne, DutiesAfterOne, FrequencyAfterOne, Latches;
      ghost var q := queue;
      var done := 0;
      while |queue| > 0
        invariant Valid() && done + |queue| == |bus|
        invariant LatchesAfter(Latches(), queue, bus[done..]) == LatchesAfter(old(Latches()), q, bus)
        invariant DutiesAfter(duty[..], queue) == DutiesAfter(old(duty[..]), q)
        invariant FrequencyAfter(frequency, queue) == FrequencyAfter(old(frequency), q)
        decreases |queue|
      {
        var c := queue[0];
        queue := queue[1..];
        assert bus[done..][1..] == bus[done + 1..];
        Perform(c, bus[done]);
        done := done + 1;
      }
    }
  }

  // ---------- The last writer wins ----------

  /** A command for the expander whose placed mask has the bit and whose write reached it. */
  predicate Covers(c: IoCommand, bus: Bus, device: nat, bit: nat) {
    c.WriteGpio? && c.device % 2 == device && Bit(Placed(c.port, c.mask), bit) && Bit(bus.Reach(), bit)
  }

  /** An update whose transfers are both reported as good reaches every bit. */
  lemma GoodUpdateReaches(bus: Bus, bit: nat)
    requires bus.Works() && bit < 16
    ensures Bit(bus.Reach(), bit)
  {
    hide Half, IsOdd, Half8;
    LowByteHalves();
    if bit < 8 {
      LowBit(0xFFFF, bit);
      assert And(0xFFFF, 0xFF) == 0xFF;
    } else {
      BitAfterEight(0xFFFF, bit - 8);
      UpperByteOfOnes();
    }
  }

  /** A write reaches all bits if it is reported as good, and else those of the bytes that landed, low byte first. */
  lemma ReachedExactlyWhen(bus: Bus, bit: nat)
    requires bit < 16
    ensures Bit(bus.Reach(), bit) <==> bus.readOk && (bus.writeOk || bit < 8 * bus.landed)
  {
    hide Half, IsOdd, Half8, Bit, And;
    ZeroBit(bit);
    if bus.readOk && (bus.writeOk || bus.landed >= 2) {
      GoodUpdateReaches(Bus(true, true, 0), bit);
    } else if bus.readOk && bus.landed == 1 {
      GoodUpdateReaches(Bus(true, true, 0), bit);
      LowBit(0xFFFF, bit);
      LowByteOfOnes();
    }
  }

  lemma LowByteOfOnes()
    ensures And(0xFFFF, 0xFF) == 0xFF
  {
  }

  lemma UpperByteOfOnes()
    ensures Half8(0xFFFF) == 0xFF
  {
  }

  /** Only the low eight bits of a command count, and they act on the port it names. */
  lemma PlacedBit(port: byte, w: bv16, bit: nat)
    ensures Bit(Placed(port, w), bit) ==
            if port == 0 then bit < 8 && Bit(w, bit) else 8 <= bit < 16 && Bit(w, bit - 8)
  {
    hide And, Raise, Bit;
    LowBit(w, bit);
    RaiseBit(And(w, 0xFF), bit);
    if 8 <= bit {
      LowBit(w, bit - 8);
    }
  }

  lemma OneCommand(latches: seq<bv16>, c: IoCommand, bus: Bus, device: nat, bit: nat)
    requires |latches| == 2 && device < 2
    ensures Bit(LatchesAfterOne(latches, c, bus)[device], bit) ==
            if Covers(c, bus, device, bit) then Bit(Placed(c.port, c.value), bit) else Bit(latches[device], bit)
  {
    hide Bit, Merge, Placed, And, Bus.Reach;
    if c.WriteGpio? {
      AndBit(Placed(c.port, c.mask), bus.Reach(), bit);
      MergeBit(latches[device], And(Placed(c.port, c.mask), bus.Reach()), Placed(c.port, c.value), bit);
    }
  }

  /** A latch bit that no command covers keeps its value. */
  lemma {:induction false} UncoveredStays(latches: seq<bv16>, cs: seq<IoCommand>, bus: seq<Bus>, device: nat, bit: nat)
    requires |latches| == 2 && |bus| == |cs| && device < 2
    requires forall j :: 0 <= j < |cs| ==> !Covers(cs[j], bus[j], device, bit)
    ensures Bit(LatchesAfter(latches, cs, bus)[device], bit) == Bit(latches[device], bit)
    decreases |cs|
  {
    hide Bit, Covers, LatchesAfterOne;
    if |cs| > 0 {
      OneCommand(latches, cs[0], bus[0], device, bit);
      UncoveredStays(LatchesAfterOne(latches, cs[0], bus[0]), cs[1..], bus[1..], device, bit);
    }
  }

  /** Each latch bit ends up as the last command says that covers it. */
  lemma {:induction false} LastWriterWins(latches: seq<bv16>, cs: seq<IoCommand>, bus: seq<Bus>,
                                          device: nat, bit: nat, k: nat)
    requires |latches| == 2 && |bus| == |cs| && device < 2 && k < |cs|
    requires Covers(cs[k], bus[k], device, bit)
    requires forall j :: k < j < |cs| ==> !Covers(cs[j], bus[j], device, bit)
    ensures Bit(LatchesAfter(latches, cs, bus)[device], bit) == Bit(Placed(cs[k].port, cs[k].value), bit)
    decreases |cs|
  {
    hide Bit, LatchesAfterOne, Placed;
    var after := LatchesAfterOne(latches, cs[0], bus[0]);
    if k > 0 {
      LastWriterWins(after, cs[1..], bus[1..], device, bit, k - 1);
    } else {
      OneCommand(latches, cs[0], bus[0], device, bit);
      UncoveredStays(after, cs[1..], bus[1..], device, bit);
    }
  }

  /** Working off the queue in several rounds is working it off at once. */
  lemma {:induction false} RoundsCompose(latches: seq<bv16>, cs: seq<IoCommand>, bus: seq<Bus>,
                                         more: seq<IoCommand>, moreBus: seq<Bus>)
    requires |latches| == 2 && |bus| == |cs| && |moreBus| == |more|
    ensures LatchesAfter(LatchesAfter(latches, cs, bus), more, moreBus)
            == LatchesAfter(latches, cs + more, bus + moreBus)
    decreases |cs|
  {
    hide LatchesAfterOne;
    if |cs| == 0 {
      assert cs + more == more && bus + moreBus == moreBus;
    } else {
      assert (cs + more)[1..] == cs[1..] + more && (bus + moreBus)[1..] == bus[1..] + moreBus;
      RoundsCompose(LatchesAfterOne(latches, cs[0], bus[0]), cs[1..], bus[1..], more, moreBus);
    }
  }

  lemma {:induction false} DutyStays(duty: seq<uint16>, cs: seq<IoCommand>, channel: nat)
    requires |duty| == 16 && channel < 16
    requires forall j :: 0 <= j < |cs| ==> !(cs[j].SetPwm? && cs[j].channel % 16 == channel)
    ensures DutiesAfter(duty, cs)[channel] == duty[channel]
    decreases |cs|
  {
    if |cs| > 0 {
      DutyStays(DutiesAfterOne(duty, cs[0]), cs[1..], channel);
    }
  }

  /** Each channel's duty ends up as the last command for it says. */
  lemma {:induction false} LastDutyWins(duty: seq<uint16>, cs: seq<IoCommand>, k: nat)
    requires |duty| == 16 && k < |cs| && cs[k].SetPwm?
    requires forall j :: k < j < |cs| ==> !(cs[j].SetPwm? && cs[j].channel % 16 == cs[k].channel % 16)
    ensures DutiesAfter(duty, cs)[cs[k].channel % 16] == cs[k].duty
    decreases |cs|
  {
    if k > 0 {
      LastDutyWins(DutiesAfterOne(duty, cs[0]), cs[1..], k - 1);
    } else {
      DutyStays(DutiesAfterOne(duty, cs[0]), cs[1..], cs[0].channel % 16);
    }
  }

  lemma {:induction false} FrequencyStays(frequency: uint16, cs: seq<IoCommand>)
    requires forall j :: 0 <= j < |cs| ==> !cs[j].SetFrequency?
    ensures FrequencyAfter(frequency, cs) == frequency
    decreases |cs|
  {
    if |cs| > 0 {
      FrequencyStays(frequency, cs[1..]);
    }
  }

  /** The frequency ends up as the last command for it says. */
  lemma {:induction false} LastFrequencyWins(frequency: uint16, cs: seq<IoCommand>, k: nat)
    requires k < |cs| && cs[k].SetFrequency?
    requires forall j :: k < j < |cs| ==> !cs[j].SetFrequency?
    ensures FrequencyAfter(frequency, cs) == cs[k].frequency
    decreases |cs|
  {
    var after := FrequencyAfterOne(frequency, cs[0]);
    if k > 0 {
      LastFrequencyWins(after, cs[1..], k - 1);
    } else {
      FrequencyStays(after, cs[1..]);
    }
  }

  lemma {:induction false} PwmRoundsCompose(duty: seq<uint16>, frequency: uint16,
                                            cs: seq<IoCommand>, more: seq<IoCommand>)
    requires |duty| == 16
    ensures DutiesAfter(DutiesAfter(duty, cs), more) == DutiesAfter(duty, cs + more)
    ensures FrequencyAfter(FrequencyAfter(frequency, cs), more) == FrequencyAfter(frequency, cs + more)
    decreases |cs|
  {
    hide DutiesAfterOne, FrequencyAfterOne;
    if |cs| == 0 {
      assert cs + more == more;
    } else {
      assert (cs + more)[1..] == cs[1..] + more;
      PwmRoundsCompose(DutiesAfterOne(duty, cs[0]), FrequencyAfterOne(frequency, cs[0]), cs[1..], more);
    }
  }
}
