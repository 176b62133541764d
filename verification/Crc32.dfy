/** The frame checksum of common/proto/proto_crc32.c. */
module Crc32 {
  import opened ShiftRegister

  const POLY: bv32 := 0xEDB8_8320
  const INIT: bv32 := 0xFFFF_FFFF

  function Xor(a: bv32, b: bv32): bv32 {
    a ^ b
  }

  function And(a: bv32, b: bv32): bv32 {
    a & b
  }

  /** Multiplication of the word by x modulo the generator polynomial (reflected form). */
  function Shift(c: bv32): bv32 {
    if c & 1 == 1 then (c >> 1) ^ POLY else c >> 1
  }

  function Place(i: nat): bv32 {
    if i < 32 then 1 << i else 0
  }

  predicate HasPlace(x: bv32, i: nat) {
    And(x, Place(i)) != 0
  }

  /** The register of RFC 1952: low bit first, 32 places. */
  const REGISTER: Register<bv32> := Register(0, Xor, Shift, Place, 32)

  // ---------- Word arithmetic ----------

  // The word operations are named so that proofs about long chains of them can keep them
  // abstract; these two lemmas open the names.

  lemma XorIs(a: bv32, b: bv32)
    ensures Xor(a, b) == a ^ b
  {
  }

  lemma AndIs(a: bv32, b: bv32)
    ensures And(a, b) == a & b
  {
  }

  lemma XorFacts(a: bv32, b: bv32, c: bv32)
    ensures Xor(a, 0) == a && Xor(a, a) == 0 && Xor(a, b) == Xor(b, a)
    ensures Xor(Xor(a, b), c) == Xor(a, Xor(b, c))
  {
  }

  lemma MaskOfXor(a: bv32, b: bv32, m: bv32)
    ensures (a ^ b) & m == (a & m) ^ (b & m)
  {
  }

  lemma AndOfXor(a: bv32, b: bv32, m: bv32)
    ensures And(Xor(a, b), m) == Xor(And(a, m), And(b, m))
  {
    hide Xor, And;
    MaskOfXor(a, b, m);
    XorIs(a, b);
    AndIs(a ^ b, m);
    AndIs(a, m);
    AndIs(b, m);
    XorIs(a & m, b & m);
  }

  lemma AndFacts(a: bv32, b: bv32)
    ensures And(0, a) == 0 && And(a, b) == And(b, a)
  {
  }

  lemma HalvesOfXor(a: bv32, b: bv32)
    ensures (a ^ b) >> 1 == (a >> 1) ^ (b >> 1)
    ensures (a ^ b) & 1 == (a & 1) ^ (b & 1)
    ensures a & 1 == 0 || a & 1 == 1
  {
  }

  lemma Regroup(a: bv32, b: bv32)
    ensures (a ^ b) ^ POLY == (a ^ POLY) ^ b == a ^ (b ^ POLY)
    ensures (a ^ POLY) ^ (b ^ POLY) == a ^ b
  {
  }

  lemma ShiftIsLinear(a: bv32, b: bv32)
    ensures Shift(a ^ b) == Shift(a) ^ Shift(b)
  {
    HalvesOfXor(a, b);
    HalvesOfXor(b, a);
    Regroup(a >> 1, b >> 1);
  }

  lemma ShiftOfXor(a: bv32, b: bv32)
    ensures Shift(Xor(a, b)) == Xor(Shift(a), Shift(b))
  {
    hide Xor, Shift;
    ShiftIsLinear(a, b);
    XorIs(a, b);
    XorIs(Shift(a), Shift(b));
  }

  lemma ShiftLosesNothing(a: bv32)
    ensures Shift(a) == 0 ==> a == 0
  {
  }

  lemma PlaceShifts(i: nat)
    requires i < 31
    ensures Shift(Place(i + 1)) == Place(i)
  {
    assert ((1 as bv32) << (i + 1)) & 1 == 0;
    assert ((1 as bv32) << (i + 1)) >> 1 == (1 as bv32) << i;
  }

  lemma PlacesAreDistinct(i: nat, j: nat)
    requires i < 32 && j < 32
    ensures And(Place(i), Place(j)) == if i == j then Place(j) else 0
    ensures Place(j) != 0
  {
  }

  lemma ReadPlace(x: bv32, i: nat)
    requires i < 32
    ensures And(x, Place(i)) == if HasPlace(x, i) then Place(i) else 0
  {
  }

  // ---------- The register is lawful ----------

  lemma RegisterAt(a: bv32, b: bv32)
    ensures REGISTER.xor(a, b) == Xor(a, b) && REGISTER.shift(a) == Shift(a)
  {
    hide Xor, Shift, Place;
  }

  lemma XorLawsHold(a: bv32, b: bv32, c: bv32)
    ensures XorLaws(REGISTER, a, b, c)
  {
    hide Xor, Shift, Place;
    XorFacts(a, b, c);
  }

  lemma ShiftLawsHold(a: bv32, b: bv32)
    ensures ShiftLaws(REGISTER, a, b)
  {
    hide Xor, Shift, Place;
    ShiftOfXor(a, b);
    ShiftLosesNothing(a);
  }

  lemma PlaceLawHolds(i: nat)
    ensures PlaceLaw(REGISTER, i)
  {
    hide Xor, Shift, Place;
    if i < 31 {
      PlaceShifts(i);
    }
  }

  lemma RegisterIsLawful()
    ensures Lawful(REGISTER)
  {
    hide Xor, Shift, Place;
    forall a: bv32, b: bv32, c: bv32 {
      XorLawsHold(a, b, c);
    }
    forall a: bv32, b: bv32 {
      ShiftLawsHold(a, b);
    }
    forall i: nat {
      PlaceLawHolds(i);
    }
  }

  /** Bit i+k of a word made from bits starting at place i is bit k. */
  lemma {:induction false} WordPlaces(bits: seq<bool>, i: nat, j: nat)
    requires i + |bits| <= 32 && j < 32
    ensures And(Word(REGISTER, bits, i), Place(j))
         == if i <= j < i + |bits| && bits[j - i] then Place(j) else 0
    decreases |bits|
  {
    hide Xor, And, Shift, Place;
    AndFacts(Place(j), 0);
    if |bits| > 0 {
      var first, rest := BitWord(REGISTER, bits[0], i), Word(REGISTER, bits[1..], i + 1);
      AndOfXor(first, rest, Place(j));
      PlacesAreDistinct(i, j);
      XorFacts(Place(j), 0, 0);
      XorFacts(0, Place(j), 0);
      WordPlaces(bits[1..], i + 1, j);
    }
  }

  lemma PlacesAreIndependent()
    ensures Independent(REGISTER)
  {
    hide Xor, And, Shift, Place;
    forall bits: seq<bool> | |bits| <= 32 && Word(REGISTER, bits, 0) == 0
      ensures AllZero(bits)
    {
      forall j | 0 <= j < |bits|
        ensures !bits[j]
      {
        WordPlaces(bits, 0, j);
        PlacesAreDistinct(j, j);
        AndFacts(Place(j), 0);
      }
    }
  }

  // ---------- Messages ----------

  function PlaceBits(x: bv32): seq<bool> {
    seq(8, k requires 0 <= k < 8 => HasPlace(x, k))
  }

  /** The bits of a message in transmission order: bytes in order, low bit first. */
  function MessageBits(data: seq<bv8>): (bits: seq<bool>)
    ensures |bits| == 8 * |data|
  {
    if |data| == 0 then [] else PlaceBits(data[0] as bv32) + MessageBits(data[1..])
  }

  /** The checksum by its bit-serial definition. */
  function Checksum(data: seq<bv8>): bv32 {
    !Feed(REGISTER, INIT, MessageBits(data))
  }

  function PlacesFrom(k: nat): bv32
    requires k <= 8
    decreases 8 - k
  {
    if k == 8 then 0 else Xor(Place(k), PlacesFrom(k + 1))
  }

  lemma {:induction false} TailWord(x: bv32, k: nat)
    requires k <= 8
    ensures Word(REGISTER, PlaceBits(x)[k..], k) == And(PlacesFrom(k), x)
    decreases 8 - k
  {
    hide Xor, And, Shift, Place, HasPlace;
    if k == 8 {
      AndFacts(x, 0);
    } else {
      TailWord(x, k + 1);
      ReadPlace(x, k);
      AndOfXor(Place(k), PlacesFrom(k + 1), x);
      AndFacts(x, Place(k));
      var bits := PlaceBits(x)[k..];
      assert bits[1..] == PlaceBits(x)[k + 1..];
    }
  }

  lemma ByteWord(b: bv8)
    ensures Word(REGISTER, PlaceBits(b as bv32), 0) == b as bv32
  {
    TailWord(b as bv32, 0);
    assert PlaceBits(b as bv32)[0..] == PlaceBits(b as bv32);
    assert PlacesFrom(7) == 0x80;
    assert PlacesFrom(6) == 0xC0;
    assert PlacesFrom(5) == 0xE0;
    assert PlacesFrom(4) == 0xF0;
    assert PlacesFrom(3) == 0xF8;
    assert PlacesFrom(2) == 0xFC;
    assert PlacesFrom(1) == 0xFE;
    assert PlacesFrom(0) == 0xFF;
  }

  /** Xoring byte i into the low end and shifting eight times consumes that byte's bits. */
  lemma ByteStep(c: bv32, data: seq<bv8>, i: nat)
    requires i < |data|
    ensures Feed(REGISTER, Iterate(REGISTER, 8, Xor(c, data[i] as bv32)), MessageBits(data[i + 1..]))
         == Feed(REGISTER, c, MessageBits(data[i..]))
  {
    hide Xor, And, Shift, Place, HasPlace;
    var bits := PlaceBits(data[i] as bv32);
    RegisterIsLawful();
    WordInputIsBitSerial(REGISTER, c, bits);
    ByteWord(data[i]);
    assert data[i..][1..] == data[i + 1..];
    FeedAppend(REGISTER, c, bits, MessageBits(data[i + 1..]));
  }

  /** One pass of the inner loop as the source writes it, with a mask instead of a branch. */
  function MaskedShift(crc: bv32): bv32 {
    var mask: bv32 := 0 - (crc & 1);
    (crc >> 1) ^ (POLY & mask)
  }

  lemma LowestBit(crc: bv32)
    ensures crc & 1 == 0 || crc & 1 == 1
  {
  }

  lemma MaskOfOne()
    ensures (0 as bv32) - 1 == 0xFFFF_FFFF && POLY & 0xFFFF_FFFF == POLY
    ensures (0 as bv32) - 0 == 0 && POLY & 0 == 0
  {
  }

  lemma MaskedShiftIsShift(crc: bv32)
    ensures MaskedShift(crc) == REGISTER.shift(crc)
  {
    hide Xor, Place;
    RegisterAt(crc, 0);
    LowestBit(crc);
    MaskOfOne();
    XorFacts(crc >> 1, 0, 0);
    XorIs(crc >> 1, 0);
  }

  method ProtoCrc32(data: array<bv8>) returns (result: bv32)
    ensures result == Checksum(data[..])
  {
    hide Xor, Shift, MaskedShift, PlaceBits;
    var crc := INIT;
    var i := 0;
    while i < data.Length
      invariant 0 <= i <= data.Length
      invariant Feed(REGISTER, crc, MessageBits(data[i..])) == Feed(REGISTER, INIT, MessageBits(data[..]))
    {
      ByteStep(crc, data[..], i);
      assert data[..][i..] == data[i..] && data[..][i + 1..] == data[i + 1..];
      crc := Xor(crc, data[i] as bv32);
      ghost var loaded := crc;
      var j := 0;
      while j < 8
        invariant 0 <= j <= 8
        invariant Iterate(REGISTER, 8 - j, crc) == Iterate(REGISTER, 8, loaded)
      {
        MaskedShiftIsShift(crc);
        crc := MaskedShift(crc);
        j := j + 1;
      }
      i := i + 1;
    }
    result := !crc;
  }

  /** The register after one more byte, and after a run of bytes. */
  function AfterByte(c: bv32, b: bv8): bv32 {
    var x := Xor(c, b as bv32);
    Shift(Shift(Shift(Shift(Shift(Shift(Shift(Shift(x))))))))
  }

  function AfterBytes(c: bv32, data: seq<bv8>): bv32
    decreases |data|
  {
    if |data| == 0 then c else AfterBytes(AfterByte(c, data[0]), data[1..])
  }

  lemma TwoShifts(n: nat, x: bv32)
    ensures Iterate(REGISTER, n + 2, x) == Iterate(REGISTER, n, Shift(Shift(x)))
  {
    hide Shift, Xor, Place;
    RegisterAt(x, 0);
    RegisterAt(Shift(x), 0);
    assert Iterate(REGISTER, n + 2, x) == Iterate(REGISTER, n + 1, Shift(x));
  }

  lemma EightShifts(x: bv32)
    ensures Iterate(REGISTER, 8, x) == Shift(Shift(Shift(Shift(Shift(Shift(Shift(Shift(x))))))))
  {
    hide Shift;
    var x2 := Shift(Shift(x));
    var x4 := Shift(Shift(x2));
    TwoShifts(6, x);
    TwoShifts(4, x2);
    TwoShifts(2, x4);
    TwoShifts(0, Shift(Shift(x4)));
  }

  lemma {:induction false} AfterBytesIsFeed(c: bv32, data: seq<bv8>)
    ensures AfterBytes(c, data) == Feed(REGISTER, c, MessageBits(data))
    decreases |data|
  {
    hide Shift, Xor, Place, PlaceBits;
    if |data| > 0 {
      ByteStep(c, data, 0);
      EightShifts(Xor(c, data[0] as bv32));
      assert data[0..] == data && data[0 + 1..] == data[1..];
      AfterBytesIsFeed(AfterByte(c, data[0]), data[1..]);
    }
  }

  lemma {:induction false} AfterBytesAppend(c: bv32, a: seq<bv8>, b: seq<bv8>)
    ensures AfterBytes(c, a + b) == AfterBytes(AfterBytes(c, a), b)
    decreases |a|
  {
    hide AfterByte;
    if |a| == 0 {
      assert a + b == b;
    } else {
      assert (a + b)[1..] == a[1..] + b;
      AfterBytesAppend(AfterByte(c, a[0]), a[1..], b);
    }
  }

  // ---------- What the checksum detects ----------

  lemma PlaceBitsDistinct(a: bv8, b: bv8)
    requires PlaceBits(a as bv32) == PlaceBits(b as bv32)
    ensures a == b
  {
    hide Place, HasPlace;
    ByteWord(a);
    ByteWord(b);
  }

  lemma {:induction false} MessageBitsDistinct(a: seq<bv8>, b: seq<bv8>)
    requires |a| == |b| && MessageBits(a) == MessageBits(b)
    ensures a == b
  {
    if |a| > 0 {
      var x, y := PlaceBits(a[0] as bv32), PlaceBits(b[0] as bv32);
      assert x == MessageBits(a)[..8] && y == MessageBits(b)[..8];
      assert MessageBits(a[1..]) == MessageBits(a)[8..] && MessageBits(b[1..]) == MessageBits(b)[8..];
      PlaceBitsDistinct(a[0], b[0]);
      MessageBitsDistinct(a[1..], b[1..]);
    }
  }

  lemma {:induction false} MessageBitsAppend(a: seq<bv8>, b: seq<bv8>)
    ensures MessageBits(a + b) == MessageBits(a) + MessageBits(b)
    decreases |a|
  {
    hide PlaceBits;
    if |a| == 0 {
      assert a + b == b;
    } else {
      assert (a + b)[1..] == a[1..] + b;
      MessageBitsAppend(a[1..], b);
    }
  }

  lemma ComplementDistinct(a: bv32, b: bv32)
    requires a != b
    ensures !a != !b
  {
  }

  /** Messages of one length whose differences lie within 32 consecutive bits get different checksums. */
  lemma BurstDetected(a: seq<bv8>, b: seq<bv8>, start: nat)
    requires |a| == |b| && a != b
    requires DifferOnlyWithin(MessageBits(a), MessageBits(b), start, 32)
    ensures Checksum(a) != Checksum(b)
  {
    hide Xor, And, Shift, Place, HasPlace, PlaceBits;
    if MessageBits(a) == MessageBits(b) {
      MessageBitsDistinct(a, b);
    }
    RegisterIsLawful();
    PlacesAreIndependent();
    BurstSeparates(REGISTER, INIT, MessageBits(a), MessageBits(b), start);
    ComplementDistinct(Feed(REGISTER, INIT, MessageBits(a)), Feed(REGISTER, INIT, MessageBits(b)));
  }

  /** The checksum is affine: how two checksums differ depends only on which bits differ. */
  lemma ChecksumDifference(a: seq<bv8>, b: seq<bv8>)
    requires |a| == |b|
    ensures Xor(Checksum(a), Checksum(b)) == Feed(REGISTER, 0, XorBits(MessageBits(a), MessageBits(b)))
  {
    hide Shift, Place, PlaceBits;
    RegisterIsLawful();
    FeedLinear(REGISTER, INIT, INIT, MessageBits(a), MessageBits(b));
    assert XorLaws(REGISTER, INIT, INIT, INIT);
    ComplementsCancel(Feed(REGISTER, INIT, MessageBits(a)), Feed(REGISTER, INIT, MessageBits(b)));
  }

  lemma ComplementsCancel(a: bv32, b: bv32)
    ensures Xor(!a, !b) == Xor(a, b)
  {
    hide Xor;
    XorIs(a, b);
    XorIs(!a, !b);
    assert !a ^ !b == a ^ b;
  }

  // ---------- The table-driven form of section 8 of RFC 1952 ----------

  function LowByte(c: bv32): bv32 {
    c & 0xFF
  }

  function HighBytes(c: bv32): bv32 {
    c & 0xFFFF_FF00
  }

  function DropByte(c: bv32): bv32 {
    c >> 8
  }

  /** Entry n of the precomputed table. */
  function TableEntry(n: bv32): bv32 {
    Iterate(REGISTER, 8, n)
  }

  function TableRun(c: bv32, data: seq<bv8>): bv32
    decreases |data|
  {
    if |data| == 0 then c
    else TableRun(Xor(TableEntry(LowByte(Xor(c, data[0] as bv32))), DropByte(c)), data[1..])
  }

  lemma SplitWord(v: bv32)
    ensures v == Xor(LowByte(v), HighBytes(v))
  {
  }

  lemma HighBytesOfByteXor(c: bv32, b: bv8)
    ensures DropByte(HighBytes(c ^ (b as bv32))) == DropByte(c)
  {
  }

  function Half(c: bv32): bv32 {
    c >> 1
  }

  predicate LowZeros(n: nat, c: bv32) {
    n == 0 || (c & 1 == 0 && LowZeros(n - 1, Half(c)))
  }

  function Halves(n: nat, c: bv32): bv32 {
    if n == 0 then c else Halves(n - 1, Half(c))
  }

  lemma EvenShift(c: bv32)
    requires c & 1 == 0
    ensures REGISTER.shift(c) == Half(c)
  {
    RegisterAt(c, 0);
  }

  /** A word whose low bits are all zero never meets the generator. */
  lemma {:induction false} ZerosShiftPlainly(n: nat, c: bv32)
    requires LowZeros(n, c)
    ensures Iterate(REGISTER, n, c) == Halves(n, c)
  {
    hide Shift, Half;
    if n > 0 {
      EvenShift(c);
      ZerosShiftPlainly(n - 1, Half(c));
    }
  }

  lemma HighBytesHalve(c: bv32)
    requires c & 0xFF == 0
    ensures LowZeros(8, c) && Halves(8, c) == DropByte(c)
  {
    assert LowZeros(1, c >> 7) && Halves(1, c >> 7) == c >> 8;
    assert LowZeros(2, c >> 6) && Halves(2, c >> 6) == c >> 8;
    assert LowZeros(3, c >> 5) && Halves(3, c >> 5) == c >> 8;
    assert LowZeros(4, c >> 4) && Halves(4, c >> 4) == c >> 8;
    assert LowZeros(5, c >> 3) && Halves(5, c >> 3) == c >> 8;
    assert LowZeros(6, c >> 2) && Halves(6, c >> 2) == c >> 8;
    assert LowZeros(7, c >> 1) && Halves(7, c >> 1) == c >> 8;
  }

  lemma HighBytesShiftPlainly(v: bv32)
    ensures Iterate(REGISTER, 8, HighBytes(v)) == DropByte(HighBytes(v))
  {
    hide Shift, Half;
    assert HighBytes(v) & 0xFF == 0;
    HighBytesHalve(HighBytes(v));
    ZerosShiftPlainly(8, HighBytes(v));
  }

  lemma TableStep(c: bv32, b: bv8)
    ensures Iterate(REGISTER, 8, Xor(c, b as bv32)) == Xor(TableEntry(LowByte(Xor(c, b as bv32))), DropByte(c))
  {
    hide Xor, Shift, LowByte, HighBytes, DropByte;
    var v := Xor(c, b as bv32);
    XorIs(c, b as bv32);
    SplitWord(v);
    HighBytesOfByteXor(c, b);
    HighBytesShiftPlainly(v);
    RegisterIsLawful();
    IterateLinear(REGISTER, 8, LowByte(v), HighBytes(v));
  }

  /** Looking bytes up in the precomputed table gives the same checksum. */
  lemma {:induction false} TableDriven(c: bv32, data: seq<bv8>)
    ensures TableRun(c, data) == Feed(REGISTER, c, MessageBits(data))
    decreases |data|
  {
    hide Xor, Shift, Place, PlaceBits, TableEntry, LowByte, DropByte;
    if |data| > 0 {
      ByteStep(c, data, 0);
      assert data[0..] == data && data[0 + 1..] == data[1..];
      TableStep(c, data[0]);
      TableDriven(Xor(TableEntry(LowByte(Xor(c, data[0] as bv32))), DropByte(c)), data[1..]);
    }
  }
}
