/** The checksum and the retry loop of sensor_node/main/drivers/sht20.c. */
module Sht20 {
  import opened BitStrings
  import opened ShiftRegister

  const MAX_RETRIES := 5
  const BASE_BACKOFF_MS := 10
  const SOFT_RESET_DELAY_MS := 20

  // ---------- The CRC-8 register: high bit first ----------

  function Xor(a: bv8, b: bv8): bv8 {
    a ^ b
  }

  /** Multiplication of the word by x modulo the generator x^8 + x^5 + x^4 + 1. */
  function Shift(c: bv8): bv8 {
    if c & 0x80 == 0x80 then (c << 1) ^ 0x31 else c << 1
  }

  function Place(i: nat): bv8 {
    if i < 8 then 0x80 >> i else 0
  }

  const REGISTER: Register<bv8> := Register(0, Xor, Shift, Place, 8)

  lemma XorFacts(a: bv8, b: bv8, c: bv8)
    ensures Xor(a, 0) == a && Xor(a, a) == 0 && Xor(a, b) == Xor(b, a)
    ensures Xor(Xor(a, b), c) == Xor(a, Xor(b, c))
  {
  }

  lemma HalvesOfXor(a: bv8, b: bv8)
    ensures (a ^ b) << 1 == (a << 1) ^ (b << 1)
    ensures (a ^ b) & 0x80 == (a & 0x80) ^ (b & 0x80)
    ensures a & 0x80 == 0 || a & 0x80 == 0x80
  {
  }

  lemma Regroup(a: bv8, b: bv8)
    ensures (a ^ b) ^ 0x31 == (a ^ 0x31) ^ b == a ^ (b ^ 0x31)
    ensures (a ^ 0x31) ^ (b ^ 0x31) == a ^ b
  {
  }

  lemma ShiftIsLinear(a: bv8, b: bv8)
    ensures Shift(a ^ b) == Shift(a) ^ Shift(b)
  {
    HalvesOfXor(a, b);
    HalvesOfXor(b, a);
    Regroup(a << 1, b << 1);
  }

  lemma XorIs(a: bv8, b: bv8)
    ensures Xor(a, b) == a ^ b
  {
  }

  lemma ShiftOfXor(a: bv8, b: bv8)
    ensures Shift(Xor(a, b)) == Xor(Shift(a), Shift(b))
  {
    hide Xor, Shift;
    ShiftIsLinear(a, b);
    XorIs(a, b);
    XorIs(Shift(a), Shift(b));
  }

  lemma ShiftLosesNothing(a: bv8)
    ensures Shift(a) == 0 ==> a == 0
  {
  }

  lemma PlaceShifts(i: nat)
    requires i < 7
    ensures Shift(Place(i + 1)) == Place(i)
  {
  }

  lemma RegisterAt(a: bv8, b: bv8)
    ensures REGISTER.xor(a, b) == Xor(a, b) && REGISTER.shift(a) == Shift(a)
  {
    hide Xor, Shift, Place;
  }

  lemma XorLawsHold(a: bv8, b: bv8, c: bv8)
    ensures XorLaws(REGISTER, a, b, c)
  {
    hide Xor, Shift, Place;
    XorFacts(a, b, c);
  }

  lemma ShiftLawsHold(a: bv8, b: bv8)
    ensures ShiftLaws(REGISTER, a, b)
  {
    hide Xor, Shift, Place;
    ShiftOfXor(a, b);
    ShiftLosesNothing(a);
  }

  lemma PlaceLawHolds(i: nat)
    ensures PlaceLaw(REGISTER, i)
  {
    hide Xor, Shift, Place;
    if i < 7 {
      PlaceShifts(i);
    }
  }

  lemma RegisterIsLawful()
    ensures Lawful(REGISTER)
  {
    hide Xor, Shift, Place;
    forall a: bv8, b: bv8, c: bv8 {
      XorLawsHold(a, b, c);
    }
    forall a: bv8, b: bv8 {
      ShiftLawsHold(a, b);
    }
    forall i: nat {
      PlaceLawHolds(i);
    }
  }

  // ---------- Bytes and bits ----------

  predicate HasPlace(x: bv8, i: nat) {
    x & Place(i) != 0
  }

  /** The bits of a byte, high bit first. */
  function ByteBits(b: bv8): seq<bool> {
    seq(8, k requires 0 <= k < 8 => HasPlace(b, k))
  }

  function MessageBits(data: seq<bv8>): (bits: seq<bool>)
    ensures |bits| == 8 * |data|
  {
    if |data| == 0 then [] else ByteBits(data[0]) + MessageBits(data[1..])
  }

  function Checksum(data: seq<bv8>): bv8 {
    Feed(REGISTER, 0, MessageBits(data))
  }

  lemma PlacesAreDistinct(i: nat, j: nat)
    requires i < 8 && j < 8
    ensures HasPlace(Place(i), j) <==> i == j
    ensures !HasPlace(0, j)
  {
  }

  lemma MaskOfXor(a: bv8, b: bv8, m: bv8)
    ensures (a ^ b) & m == (a & m) ^ (b & m)
  {
  }

  lemma ReadPlace(a: bv8, j: nat)
    requires j < 8
    ensures a & Place(j) == if HasPlace(a, j) then Place(j) else 0
    ensures Place(j) != 0
  {
  }

  lemma PlaceOfXor(a: bv8, b: bv8, j: nat)
    requires j < 8
    ensures HasPlace(Xor(a, b), j) <==> (HasPlace(a, j) != HasPlace(b, j))
  {
    hide Xor, Place;
    XorIs(a, b);
    MaskOfXor(a, b, Place(j));
    ReadPlace(a, j);
    ReadPlace(b, j);
  }

  lemma {:induction false} WordPlaces(bits: seq<bool>, i: nat, j: nat)
    requires i + |bits| <= 8 && j < 8
    ensures HasPlace(Word(REGISTER, bits, i), j) <==> i <= j < i + |bits| && bits[j - i]
    decreases |bits|
  {
    hide Xor, Shift, Place, HasPlace;
    PlacesAreDistinct(0, j);
    if |bits| > 0 {
      PlacesAreDistinct(i, j);
      PlaceOfXor(BitWord(REGISTER, bits[0], i), Word(REGISTER, bits[1..], i + 1), j);
      WordPlaces(bits[1..], i + 1, j);
    }
  }

  lemma PlacesAreIndependent()
    ensures Independent(REGISTER)
  {
    hide Xor, Shift, Place, HasPlace;
    forall bits: seq<bool> | |bits| <= 8 && Word(REGISTER, bits, 0) == 0
      ensures AllZero(bits)
    {
      forall j | 0 <= j < |bits|
        ensures !bits[j]
      {
        WordPlaces(bits, 0, j);
        PlacesAreDistinct(j, j);
      }
    }
  }

  lemma SamePlaces(a: bv8, b: bv8)
    requires ByteBits(a) == ByteBits(b)
    ensures a == b
  {
    assert ByteBits(a)[0] == ByteBits(b)[0] && ByteBits(a)[1] == ByteBits(b)[1];
    assert ByteBits(a)[2] == ByteBits(b)[2] && ByteBits(a)[3] == ByteBits(b)[3];
    assert ByteBits(a)[4] == ByteBits(b)[4] && ByteBits(a)[5] == ByteBits(b)[5];
    assert ByteBits(a)[6] == ByteBits(b)[6] && ByteBits(a)[7] == ByteBits(b)[7];
  }

  lemma ByteWord(b: bv8)
    ensures Word(REGISTER, ByteBits(b), 0) == b
  {
    hide Xor, Shift, Place, HasPlace;
    var w := Word(REGISTER, ByteBits(b), 0);
    forall j | 0 <= j < 8
      ensures ByteBits(w)[j] == ByteBits(b)[j]
    {
      WordPlaces(ByteBits(b), 0, j);
    }
    SamePlaces(w, b);
  }

  lemma ByteStep(c: bv8, data: seq<bv8>, i: nat)
    requires i < |data|
    ensures Feed(REGISTER, Iterate(REGISTER, 8, Xor(c, data[i])), MessageBits(data[i + 1..]))
         == Feed(REGISTER, c, MessageBits(data[i..]))
  {
    hide Xor, Shift, Place, HasPlace;
    RegisterIsLawful();
    WordInputIsBitSerial(REGISTER, c, ByteBits(data[i]));
    ByteWord(data[i]);
    assert data[i..][1..] == data[i + 1..];
    FeedAppend(REGISTER, c, ByteBits(data[i]), MessageBits(data[i + 1..]));
  }

  /** The inner loop as the source writes it: 0x131 is xored in before the cut to eight bits. */
  function WideShift(crc: bv8): bv8 {
    if crc & 0x80 != 0 then ((((crc as bv16) << 1) ^ 0x131) & 0xFF) as bv8 else crc << 1
  }

  lemma WideShiftIsShift(crc: bv8)
    ensures WideShift(crc) == REGISTER.shift(crc)
  {
    RegisterAt(crc, 0);
  }

  method Sht20Crc8(data: array<bv8>, len: nat) returns (crc: bv8)
    requires len <= data.Length
    ensures crc == Checksum(data[..len])
  {
    hide Xor, Shift, WideShift, ByteBits;
    ghost var bytes := data[..len];
    crc := 0;
    var i := 0;
    while i < len
      invariant 0 <= i <= len
      invariant Feed(REGISTER, crc, MessageBits(bytes[i..])) == Checksum(bytes)
    {
      ByteStep(crc, bytes, i);
      crc := Xor(crc, data[i]);
      ghost var loaded := crc;
      var bit := 0;
      while bit < 8
        invariant 0 <= bit <= 8
        invariant Iterate(REGISTER, 8 - bit, crc) == Iterate(REGISTER, 8, loaded)
      {
        WideShiftIsShift(crc);
        crc := WideShift(crc);
        bit := bit + 1;
      }
      i := i + 1;
    }
  }

  // ---------- What the checksum detects ----------

  /** A sensor response carries its own checksum in the last byte. */
  predicate Accepted(frame: seq<bv8>) {
    |frame| > 0 && Checksum(frame[..|frame| - 1]) == frame[|frame| - 1]
  }

  lemma {:induction false} MessageBitsAppend(a: seq<bv8>, b: seq<bv8>)
    ensures MessageBits(a + b) == MessageBits(a) + MessageBits(b)
    decreases |a|
  {
    if |a| == 0 {
      assert a + b == b;
    } else {
      assert (a + b)[1..] == a[1..] + b;
      MessageBitsAppend(a[1..], b);
    }
  }

  /** A frame is accepted exactly when the register, fed with all of it, returns to zero. */
  lemma AcceptedMeansZero(frame: seq<bv8>)
    requires |frame| > 0
    ensures Accepted(frame) <==> Feed(REGISTER, 0, MessageBits(frame)) == 0
  {
    hide Xor, Shift, Place, HasPlace;
    var data, crc := frame[..|frame| - 1], frame[|frame| - 1];
    var c := Checksum(data);
    assert frame == data + [crc];
    MessageBitsAppend(data, [crc]);
    FeedAppend(REGISTER, 0, MessageBits(data), MessageBits([crc]));
    ByteStep(c, [crc], 0);
    assert [crc][0..] == [crc];
    RegisterIsLawful();
    IterateZero(REGISTER, 8);
    assert XorLaws(REGISTER, c, c, crc) && XorLaws(REGISTER, crc, 0, 0) && XorLaws(REGISTER, 0, crc, 0);
    if Xor(c, crc) == 0 {
      assert crc == REGISTER.xor(REGISTER.xor(c, c), crc) == REGISTER.xor(c, 0);
      assert XorLaws(REGISTER, c, 0, 0);
    } else {
      IterateKeepsNonzero(REGISTER, 8, Xor(c, crc));
    }
  }

  lemma {:induction false} MessageBitsDistinct(a: seq<bv8>, b: seq<bv8>)
    requires |a| == |b| && MessageBits(a) == MessageBits(b)
    ensures a == b
  {
    hide HasPlace;
    if |a| > 0 {
      assert ByteBits(a[0]) == MessageBits(a)[..8] && ByteBits(b[0]) == MessageBits(b)[..8];
      assert MessageBits(a[1..]) == MessageBits(a)[8..] && MessageBits(b[1..]) == MessageBits(b)[8..];
      SamePlaces(a[0], b[0]);
      MessageBitsDistinct(a[1..], b[1..]);
    }
  }

  /** No burst of up to eight consecutive bits, in data or checksum or across both, goes unnoticed. */
  lemma BurstRejected(sent: seq<bv8>, got: seq<bv8>, start: nat)
    requires Accepted(sent) && |got| == |sent| && got != sent
    requires DifferOnlyWithin(MessageBits(sent), MessageBits(got), start, 8)
    ensures !Accepted(got)
  {
    hide Xor, Shift, Place, HasPlace;
    if MessageBits(sent) == MessageBits(got) {
      MessageBitsDistinct(sent, got);
    }
    AcceptedMeansZero(sent);
    AcceptedMeansZero(got);
    RegisterIsLawful();
    PlacesAreIndependent();
    BurstSeparates(REGISTER, 0, MessageBits(sent), MessageBits(got), start);
  }

  // ---------- The retry loop ----------

  /** One trigger-and-read transaction: a bus error, or the three bytes that came back. */
  datatype Response = BusError(code: int) | Bytes(msb: bv8, lsb: bv8, crc: bv8)

  datatype Reading = Value(value: real) | BusFailure(code: int) | CrcMismatch

  predicate Good(r: Response) {
    r.Bytes? && Accepted([r.msb, r.lsb, r.crc])
  }

  /** The measured word, without the two status bits. */
  function Raw(msb: bv8, lsb: bv8): bv16 {
    ((msb as bv16 << 8) | (lsb as bv16)) & 0xFFFC
  }

  function Convert(msb: bv8, lsb: bv8, isTemperature: bool): real {
    var raw := Raw(msb, lsb) as int as real;
    if isTemperature then -46.85 + 175.72 * raw / 65536.0
    else
      var humidity := -6.0 + 125.0 * raw / 65536.0;
      if humidity < 0.0 then 0.0 else if humidity > 100.0 then 100.0 else humidity
  }

  function ClearStatus(lsb: bv8): bv8 {
    lsb & 0xFC
  }

  lemma RawIsWord(msb: bv8, lsb: bv8)
    ensures Raw(msb, lsb) == (msb as bv16 << 8) | (ClearStatus(lsb) as bv16)
  {
  }

  lemma WordValue(msb: bv8, lsb: bv8)
    ensures ((msb as bv16 << 8) | (lsb as bv16)) as int == 256 * (msb as int) + lsb as int
  {
  }

  lemma ClearedValue(lsb: bv8)
    ensures ClearStatus(lsb) as int == lsb as int / 4 * 4
  {
  }

  /** The measured value in multiples of 4, out of 65536. */
  lemma RawValue(msb: bv8, lsb: bv8)
    ensures Raw(msb, lsb) as int == 256 * (msb as int) + lsb as int / 4 * 4
  {
    hide Raw, ClearStatus;
    RawIsWord(msb, lsb);
    WordValue(msb, ClearStatus(lsb));
    ClearedValue(lsb);
  }

  lemma ByteBound(b: bv8)
    ensures 0 <= b as int < 256
  {
  }

  /**
   * Temperatures run from -46.85 in steps of 175.72 / 16384 to below 128.87. Humidities run in steps of
   * 125 / 16384, and what lies outside 0 and 100 percent is set to the nearer of them.
   */
  lemma Conversion(msb: bv8, lsb: bv8)
    ensures var step := 64 * (msb as int) + lsb as int / 4;
            && 0 <= step < 16384
            && Convert(msb, lsb, true) == -46.85 + 175.72 / 16384.0 * step as real
            && -46.85 <= Convert(msb, lsb, true) < 128.87
            && 0.0 <= Convert(msb, lsb, false) <= 100.0
            && var humidity := -6.0 + 125.0 / 16384.0 * step as real;
               && (0.0 <= humidity <= 100.0 ==> Convert(msb, lsb, false) == humidity)
               && (humidity < 0.0 ==> Convert(msb, lsb, false) == 0.0)
               && (humidity > 100.0 ==> Convert(msb, lsb, false) == 100.0)
  {
    hide Raw;
    RawValue(msb, lsb);
    ByteBound(msb);
    ByteBound(lsb);
    var step := 64 * (msb as int) + lsb as int / 4;
    assert Raw(msb, lsb) as int == 4 * step;
  }

  function AfterByte(c: bv8, b: bv8): bv8 {
    Shift(Shift(Shift(Shift(Shift(Shift(Shift(Shift(Xor(c, b)))))))))
  }

  lemma TwoShifts(n: nat, x: bv8)
    ensures Iterate(REGISTER, n + 2, x) == Iterate(REGISTER, n, Shift(Shift(x)))
  {
    hide Shift, Xor, Place;
    RegisterAt(x, 0);
    RegisterAt(Shift(x), 0);
    assert Iterate(REGISTER, n + 2, x) == Iterate(REGISTER, n + 1, Shift(x));
  }

  lemma EightShifts(x: bv8)
    ensures Iterate(REGISTER, 8, x) == Shift(Shift(Shift(Shift(Shift(Shift(Shift(Shift(x))))))))
  {
    hide Shift;
    var x2 := Shift(Shift(x));
    var x4 := Shift(Shift(x2));
    TwoShifts(6, x);
    TwoShifts(4, x2);
    TwoShifts(2, x4);
    TwoShifts(0, Shift(Shift(x4)));
  }

  lemma ChecksumOfTwo(a: bv8, b: bv8)
    ensures Checksum([a]) == AfterByte(0, a)
    ensures Checksum([a, b]) == AfterByte(AfterByte(0, a), b)
  {
    hide Xor, Shift, ByteBits;
    ByteStep(0, [a], 0);
    EightShifts(Xor(0, a));
    ByteStep(0, [a, b], 0);
    ByteStep(AfterByte(0, a), [a, b], 1);
    EightShifts(Xor(AfterByte(0, a), b));
    assert [a][0..] == [a] && [a, b][0..] == [a, b];
  }

  /** The generator, by the checksums of a byte and of two words. */
  lemma ChecksumExamples()
    ensures Checksum([0xDC]) == 0x79
    ensures Checksum([0x68, 0x3A]) == 0x7C
    ensures Checksum([0x4E, 0x85]) == 0x6B
  {
    hide Checksum;
    ChecksumOfTwo(0xDC, 0);
    ChecksumOfTwo(0x68, 0x3A);
    ChecksumOfTwo(0x4E, 0x85);
  }

  function FailureOf(r: Response): Reading {
    if r.BusError? then BusFailure(r.code) else CrcMismatch
  }


  /** The failures after which a soft reset is sent, the third and later ones, and acknowledged. */
  ghost function Acknowledged(resetOk: seq<bool>, failures: nat): set<nat>
    requires failures <= |resetOk|
  {
    set i | 2 <= i < failures && resetOk[i]
  }

  lemma OneMoreFailure(resetOk: seq<bool>, failures: nat)
    requires failures < |resetOk|
    ensures Acknowledged(resetOk, 0) == {}
    ensures |Acknowledged(resetOk, failures + 1)|
         == |Acknowledged(resetOk, failures)| + if failures >= 2 && resetOk[failures] then 1 else 0
  {
    if failures >= 2 && resetOk[failures] {
      assert Acknowledged(resetOk, failures + 1) == Acknowledged(resetOk, failures) + {failures};
    } else {
      assert Acknowledged(resetOk, failures + 1) == Acknowledged(resetOk, failures);
    }
  }

  /**
   * Reads with at most five attempts. The value always comes from the first response whose
   * checksum holds; only when all five fail is the last failure reported. The waits between
   * attempts double, and each acknowledged soft reset adds its own.
   */
  method ReadMeasurement(responses: seq<Response>, resetOk: seq<bool>, isTemperature: bool)
    returns (result: Reading, attempts: nat, resets: nat, waitedMs: nat)
    requires |responses| == |resetOk| == 5
    ensures result.Value? <==> exists i :: 0 <= i < 5 && Good(responses[i])
    ensures result.Value? ==>
      && 1 <= attempts <= 5
      && Good(responses[attempts - 1])
      && (forall i :: 0 <= i < attempts - 1 ==> !Good(responses[i]))
      && result.value == Convert(responses[attempts - 1].msb, responses[attempts - 1].lsb, isTemperature)
    ensures !result.Value? ==>
      attempts == 5 && result == if responses[4].BusError? then BusFailure(responses[4].code) else CrcMismatch
    ensures var failures: nat := if result.Value? then attempts - 1 else 5;
            && resets == (if failures <= 2 then 0 else failures - 2)
            && waitedMs == 10 * (Pow2(failures) - 1) + 20 * |Acknowledged(resetOk, failures)|
  {
    hide Accepted, Convert, Acknowledged;
    attempts, resets, waitedMs, result := 0, 0, 0, BusFailure(-1);
    OneMoreFailure(resetOk, 0);
    while attempts < MAX_RETRIES
      invariant 0 <= attempts <= MAX_RETRIES
      invariant forall i :: 0 <= i < attempts ==> !Good(responses[i])
      invariant resets == if attempts <= 2 then 0 else attempts - 2
      invariant waitedMs == 10 * (Pow2(attempts) - 1) + 20 * |Acknowledged(resetOk, attempts)|
      invariant !result.Value?
      invariant attempts > 0 ==> result == FailureOf(responses[attempts - 1])
    {
      OneMoreFailure(resetOk, attempts);
      var response := responses[attempts];
      if Good(response) {
        result := Value(Convert(response.msb, response.lsb, isTemperature));
        attempts := attempts + 1;
        return;
      }
      result := FailureOf(response);
      if attempts >= 2 {
        resets := resets + 1;
        if resetOk[attempts] {
          waitedMs := waitedMs + SOFT_RESET_DELAY_MS;
        }
      }
      waitedMs := waitedMs + BASE_BACKOFF_MS * Pow2(attempts);
      attempts := attempts + 1;
    }
  }
}
