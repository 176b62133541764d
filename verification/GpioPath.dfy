/**
 * From a switch on the screen to an output latch: the screen's mapping of pins, the message, the
 * reader in sensor_node/main/net/ws_server.c, the queue and the driver, taken together.
 */
module GpioPath {
  import opened Bytes
  import opened Commands
  import opened Gpio
  import opened Lookup
  import opened PortBits
  import opened Printing

  // ---------- The screen ----------

  function PortOf(pin: nat): byte {
    if pin < 8 then 0 else 1
  }

  /** What a switch sends: one bit of the port its pin belongs to. */
  function Toggle(timestampMs: uint32, sequenceId: uint32, device: byte, pin: nat, on: bool): Command {
    var mask := Single(pin % 8) as int;
    NO_COMMAND.(timestampMs := timestampMs, sequenceId := sequenceId, hasGpioWrite := true,
                deviceIndex := device, port := PortOf(pin), mask := mask, value := if on then mask else 0)
  }

  /** Whether the screen shows a pin as on, from the two reported ports. */
  predicate ShownOn(portA: bv16, portB: bv16, pin: nat)
    requires pin < 16
  {
    if pin < 8 then Shown(portA, pin) else Shown(portB, pin - 8)
  }

  function PortA(w: bv16): bv16 {
    And(w, 0xFF)
  }

  function PortB(w: bv16): bv16 {
    And(w >> 8, 0xFF)
  }

  lemma UpperHalf(w: bv16)
    ensures w >> 8 == Half8(w)
  {
  }

  /** The screen shows pin p by bit p of the expander's word. */
  lemma ScreenShowsBit(w: bv16, pin: nat)
    requires pin < 16
    ensures ShownOn(PortA(w), PortB(w), pin) == Bit(w, pin)
  {
    hide And, Shown, Bit, Half8;
    if pin < 8 {
      ShownIsBit(PortA(w), pin);
      LowBit(w, pin);
    } else {
      ShownIsBit(PortB(w), pin - 8);
      LowBit(w >> 8, pin - 8);
      UpperHalf(w);
      BitAfterEight(w, pin - 8);
    }
  }

  // ---------- The receiver ----------

  /** The orders that a received command gives, in the order of the handler. */
  function Orders(m: Command): seq<IoCommand> {
    (if m.hasPwmUpdate then [SetPwm(m.channel, m.dutyCycle)] else [])
    + (if m.hasPwmFrequency then [SetFrequency(m.pwmFrequency)] else [])
    + (if m.hasGpioWrite then [WriteGpio(m.deviceIndex, m.port, m.mask as bv16, m.value as bv16)] else [])
  }

  lemma {:induction false} QueuedAppend(queue: seq<IoCommand>, a: seq<IoCommand>, b: seq<IoCommand>)
    ensures Queued(Queued(queue, a), b) == Queued(queue, a + b)
    decreases |a|
  {
    if |a| == 0 {
      assert a + b == b;
    } else {
      assert (a + b)[1..] == a[1..] + b;
      QueuedAppend(if |queue| < QUEUE_LENGTH then queue + [a[0]] else queue, a[1..], b);
    }
  }

  /** Hands a received command on, part by part; what finds no room is lost. */
  method Receive(task: IoTask, m: Command)
    requires task.Valid()
    modifies task
    ensures task.Valid() && task.frequency == old(task.frequency)
    ensures task.queue == Queued(old(task.queue), Orders(m))
  {
    hide Queued;
    ghost var q := task.queue;
    var pwm, frequency, gpio := [], [], [];
    if m.hasPwmUpdate {
      pwm := [SetPwm(m.channel, m.dutyCycle)];
      var _ := task.Send(pwm[0]);
    }
    if m.hasPwmFrequency {
      frequency := [SetFrequency(m.pwmFrequency)];
      var _ := task.Send(frequency[0]);
    }
    if m.hasGpioWrite {
      gpio := [WriteGpio(m.deviceIndex, m.port, m.mask as bv16, m.value as bv16)];
      var _ := task.Send(gpio[0]);
    }
    NothingQueued(q);
    NothingQueued(Queued(q, pwm));
    NothingQueued(Queued(Queued(q, pwm), frequency));
    QueuedAppend(q, pwm, frequency);
    QueuedAppend(q, pwm + frequency, gpio);
    assert Orders(m) == pwm + frequency + gpio;
  }

  lemma NothingQueued(queue: seq<IoCommand>)
    ensures Queued(queue, []) == queue
  {
  }

  // ---------- End to end ----------

  lemma WordSurvives(w: bv16)
    ensures (w as int) as bv16 == w
  {
  }

  /** The message of a switch is read back as exactly one order. */
  lemma ToggleIsRead(timestampMs: uint32, sequenceId: uint32, device: byte, pin: nat, on: bool)
    requires device < 2 && pin < 16
    ensures var text := CommandText(Toggle(timestampMs, sequenceId, device, pin, on));
            && Accepted(text, TextChecksum(text))
            && Orders(Interpreted(ValueRead(text)))
            == [WriteGpio(device, PortOf(pin), Single(pin % 8), if on then Single(pin % 8) else 0)]
  {
    var m := Toggle(timestampMs, sequenceId, device, pin, on);
    hide CommandText, ValueRead, Interpreted, TextChecksum, Accepted, Single;
    CommandRoundTrip(m, TextChecksum(CommandText(m)));
    WordSurvives(Single(pin % 8));
    assert Normalised(m) == m;
  }

  /** Working off that order sets the bit of that pin on that expander, and no other bit. */
  lemma ToggleSetsOneBit(latches: seq<bv16>, device: byte, pin: nat, on: bool, bus: Bus, other: nat, bit: nat)
    requires |latches| == 2 && device < 2 && pin < 16 && bus.Works() && other < 2 && bit < 16
    ensures var order := WriteGpio(device, PortOf(pin), Single(pin % 8), if on then Single(pin % 8) else 0);
            Bit(LatchesAfter(latches, [order], [bus])[other], bit)
            == if other == device && bit == pin then on else Bit(latches[other], bit)
  {
    var mask := Single(pin % 8);
    var order := WriteGpio(device, PortOf(pin), mask, if on then mask else 0);
    assert LatchesAfter(latches, [order], [bus]) == LatchesAfterOne(latches, order, bus);
    hide Bit, Single, Placed, LatchesAfter, LatchesAfterOne;
    GoodUpdateReaches(bus, bit);
    OneCommand(latches, order, bus, other, bit);
    PlacedBit(order.port, order.mask, bit);
    PlacedBit(order.port, order.value, bit);
    SingleBit(pin % 8, bit);
    ZeroBit(bit);
    if bit >= 8 {
      SingleBit(pin % 8, bit - 8);
      ZeroBit(bit - 8);
    }
  }

  /** The parts of a command that ask for something. */
  function PartCount(m: Command): nat {
    (if m.hasPwmUpdate then 1 else 0) + (if m.hasPwmFrequency then 1 else 0) + (if m.hasGpioWrite then 1 else 0)
  }

  /** The orders that any command comes out as, when it has been sent and read. */
  lemma OrdersAreRead(m: Command)
    ensures var text := CommandText(m);
            && Accepted(text, TextChecksum(text))
            && Orders(Interpreted(ValueRead(text))) == Orders(Normalised(m))
            && |Orders(Normalised(m))| == PartCount(m)
  {
    hide CommandText, ValueRead, Interpreted, TextChecksum, Accepted;
    CommandRoundTrip(m, TextChecksum(CommandText(m)));
  }

  lemma {:induction false} AllAreQueued(queue: seq<IoCommand>, orders: seq<IoCommand>)
    requires |queue| + |orders| <= QUEUE_LENGTH
    ensures Queued(queue, orders) == queue + orders
    decreases |orders|
  {
    if |orders| > 0 {
      AllAreQueued(queue + [orders[0]], orders[1..]);
      assert queue + [orders[0]] + orders[1..] == queue + orders;
    }
  }

  function MaskWord(m: Command): bv16 {
    m.mask as bv16
  }

  function ValueWord(m: Command): bv16 {
    m.value as bv16
  }

  /** Whether a command sets a latch bit, and if so to what. */
  predicate Names(m: Command, other: nat, bit: nat) {
    && m.hasGpioWrite && (other == 0 <==> m.deviceIndex == 0)
    && if m.port == 0 then bit < 8 && Bit(MaskWord(m), bit) else bit >= 8 && Bit(MaskWord(m), bit - 8)
  }

  predicate ValueNamed(m: Command, bit: nat) {
    if m.port == 0 then Bit(ValueWord(m), bit) else bit >= 8 && Bit(ValueWord(m), bit - 8)
  }

  lemma PwmPart(m: Command, duty: seq<uint16>, frequency: uint16, k: nat)
    requires |duty| == 16 && k < 16
    ensures DutiesAfter(duty, Orders(Normalised(m)))[k]
         == if m.hasPwmUpdate && m.channel % 16 == k then m.dutyCycle else duty[k]
    ensures FrequencyAfter(frequency, Orders(Normalised(m)))
         == if m.hasPwmFrequency then m.pwmFrequency else frequency
  {
    hide DutiesAfter, FrequencyAfter;
    var orders := Orders(Normalised(m));
    if m.hasPwmUpdate && m.channel % 16 == k {
      LastDutyWins(duty, orders, 0);
    } else {
      DutyStays(duty, orders, k);
    }
    if m.hasPwmFrequency {
      LastFrequencyWins(frequency, orders, if m.hasPwmUpdate then 1 else 0);
    } else {
      FrequencyStays(frequency, orders);
    }
  }

  /** The order of a command's write. */
  function WriteOrder(m: Command): IoCommand {
    WriteGpio(if m.deviceIndex == 0 then 0 else 1, if m.port == 0 then 0 else 1, MaskWord(m), ValueWord(m))
  }

  lemma WriteIsLast(m: Command)
    ensures var orders := Orders(Normalised(m));
            && |orders| == PartCount(m)
            && (m.hasGpioWrite ==> orders[|orders| - 1] == WriteOrder(m))
            && forall i :: 0 <= i < |orders| && orders[i].WriteGpio? ==> m.hasGpioWrite && i == |orders| - 1
  {
  }

  lemma WriteCovers(m: Command, bus: Bus, other: nat, bit: nat)
    requires m.hasGpioWrite && bus.Works() && other < 2 && bit < 16
    ensures Covers(WriteOrder(m), bus, other, bit) <==> Names(m, other, bit)
    ensures Names(m, other, bit) ==>
      Bit(Placed(WriteOrder(m).port, WriteOrder(m).value), bit) == ValueNamed(m, bit)
  {
    hide Bit, Placed, Bus.Reach, MaskWord, ValueWord;
    var order := WriteOrder(m);
    GoodUpdateReaches(bus, bit);
    PlacedBit(order.port, order.mask, bit);
    PlacedBit(order.port, order.value, bit);
  }

  lemma GpioPart(m: Command, latches: seq<bv16>, buses: seq<Bus>, other: nat, bit: nat)
    requires |latches| == 2 && other < 2 && bit < 16 && |buses| == PartCount(m)
    requires forall i :: 0 <= i < |buses| ==> buses[i].Works()
    ensures |Orders(Normalised(m))| == PartCount(m)
    ensures Bit(LatchesAfter(latches, Orders(Normalised(m)), buses)[other], bit)
         == if Names(m, other, bit) then ValueNamed(m, bit) else Bit(latches[other], bit)
  {
    hide LatchesAfter, Bit, Placed, Orders, Normalised, WriteOrder, ValueNamed, Bus.Reach;
    WriteIsLast(m);
    var orders := Orders(Normalised(m));
    if m.hasGpioWrite {
      WriteCovers(m, buses[|orders| - 1], other, bit);
    }
    if Names(m, other, bit) {
      LastWriterWins(latches, orders, buses, other, bit, |orders| - 1);
    } else {
      hide Names;
      UncoveredStays(latches, orders, buses, other, bit);
    }
  }

  /**
   * Any command that is sent, read and finds room in the queue for all its parts: its duty, frequency
   * and masked bits end up as it says, and everything else as the commands queued before leave it.
   */
  lemma CommandTakesEffect(m: Command, queue: seq<IoCommand>, duty: seq<uint16>, frequency: uint16, k: nat,
                           latches: seq<bv16>, before: seq<Bus>, buses: seq<Bus>, other: nat, bit: nat)
    requires |duty| == 16 && k < 16 && |latches| == 2 && other < 2 && bit < 16
    requires |before| == |queue| && |buses| == PartCount(m) && |queue| + PartCount(m) <= 16
    requires forall i :: 0 <= i < |buses| ==> buses[i].Works()
    ensures var text := CommandText(m);
            var after := Queued(queue, Orders(Interpreted(ValueRead(text))));
            && Accepted(text, TextChecksum(text)) && |after| == |queue| + PartCount(m)
            && DutiesAfter(duty, after)[k]
               == (if m.hasPwmUpdate && m.channel % 16 == k then m.dutyCycle else DutiesAfter(duty, queue)[k])
            && FrequencyAfter(frequency, after)
               == (if m.hasPwmFrequency then m.pwmFrequency else FrequencyAfter(frequency, queue))
            && Bit(LatchesAfter(latches, after, before + buses)[other], bit)
               == if Names(m, other, bit) then ValueNamed(m, bit)
                  else Bit(LatchesAfter(latches, queue, before)[other], bit)
  {
    hide CommandText, ValueRead, Interpreted, TextChecksum, Accepted, Orders, LatchesAfter, DutiesAfter, FrequencyAfter;
    hide Bit, Queued, Names, ValueNamed, Normalised;
    OrdersAreRead(m);
    var orders := Orders(Normalised(m));
    AllAreQueued(queue, orders);
    PwmRoundsCompose(duty, frequency, queue, orders);
    PwmPart(m, DutiesAfter(duty, queue), FrequencyAfter(frequency, queue), k);
    RoundsCompose(latches, queue, before, orders, buses);
    GpioPart(m, LatchesAfter(latches, queue, before), buses, other, bit);
  }

  /** One more command on the queue acts on what the commands before it leave behind. */
  lemma OneMoreInQueue(latches: seq<bv16>, queue: seq<IoCommand>, buses: seq<Bus>, order: IoCommand, bus: Bus)
    requires |latches| == 2 && |buses| == |queue|
    ensures LatchesAfter(latches, queue + [order], buses + [bus])
            == LatchesAfter(LatchesAfter(latches, queue, buses), [order], [bus])
  {
    hide LatchesAfter;
    RoundsCompose(latches, queue, buses, [order], [bus]);
  }

  lemma OneIsQueued(queue: seq<IoCommand>, order: IoCommand)
    ensures Queued(queue, [order]) == if |queue| < QUEUE_LENGTH then queue + [order] else queue
  {
    NothingQueued(if |queue| < QUEUE_LENGTH then queue + [order] else queue);
  }

  /**
   * A switch flipped on the screen, sent, read, queued behind other commands and worked off with them.
   * With room in the queue the latch bit of its pin ends up with the switch's value, and every other
   * latch bit of either expander as the earlier commands leave it. Without room the order is lost.
   */
  lemma SwitchReachesLatch(latches: seq<bv16>, queue: seq<IoCommand>, buses: seq<Bus>,
                           timestampMs: uint32, sequenceId: uint32, device: byte, pin: nat, on: bool,
                           bus: Bus, other: nat, bit: nat)
    requires |latches| == 2 && |buses| == |queue| <= QUEUE_LENGTH
    requires device < 2 && pin < 16 && bus.Works() && other < 2 && bit < 16
    ensures var text := CommandText(Toggle(timestampMs, sequenceId, device, pin, on));
            var after := Queued(queue, Orders(Interpreted(ValueRead(text))));
            && Accepted(text, TextChecksum(text))
            && (|queue| == QUEUE_LENGTH ==> after == queue)
            && (|queue| < QUEUE_LENGTH ==>
                  && |after| == |queue| + 1
                  && Bit(LatchesAfter(latches, after, buses + [bus])[other], bit)
                     == if other == device && bit == pin then on
                        else Bit(LatchesAfter(latches, queue, buses)[other], bit))
  {
    var order := WriteGpio(device, PortOf(pin), Single(pin % 8), if on then Single(pin % 8) else 0);
    hide CommandText, ValueRead, Interpreted, TextChecksum, Accepted, Toggle, Orders, LatchesAfter, Single, Bit, Queued;
    ToggleIsRead(timestampMs, sequenceId, device, pin, on);
    OneIsQueued(queue, order);
    OneMoreInQueue(latches, queue, buses, order, bus);
    ToggleSetsOneBit(LatchesAfter(latches, queue, buses), device, pin, on, bus, other, bit);
  }
}
