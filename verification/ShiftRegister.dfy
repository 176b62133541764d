/**
 * Linear feedback shift registers over any word type.
 *
 * Both checksums of the firmware, the CRC-32 of common/proto/proto_crc32.c (low bit first)
 * and the CRC-8 of sensor_node/main/drivers/sht20.c (high bit first), are instances.
 */
module ShiftRegister {

  /**
   * A register: its zero word, the xor of two words, one shift step, and the word that
   * has a single one in the i-th place to be shifted out.
   */
  datatype Register<!T> = Register(zero: T, xor: (T, T) -> T, shift: T -> T, place: nat -> T, width: nat)

  /** Words form a group in which every element is its own inverse. */
  ghost predicate XorLaws<T(!new)>(r: Register<T>, a: T, b: T, c: T) {
    && r.xor(a, r.zero) == a
    && r.xor(a, a) == r.zero
    && r.xor(a, b) == r.xor(b, a)
    && r.xor(r.xor(a, b), c) == r.xor(a, r.xor(b, c))
  }

  /** A shift is linear and loses no word. */
  ghost predicate ShiftLaws<T(!new)>(r: Register<T>, a: T, b: T) {
    && r.shift(r.xor(a, b)) == r.xor(r.shift(a), r.shift(b))
    && (r.shift(a) == r.zero ==> a == r.zero)
  }

  /** A shift moves every place but the first one down by one. */
  ghost predicate PlaceLaw<T(!new)>(r: Register<T>, i: nat) {
    i + 1 < r.width ==> r.shift(r.place(i + 1)) == r.place(i)
  }

  ghost predicate Lawful<T(!new)>(r: Register<T>) {
    && (forall a: T, b: T, c: T :: XorLaws(r, a, b, c))
    && (forall a: T, b: T :: ShiftLaws(r, a, b))
    && (forall i: nat :: PlaceLaw(r, i))
  }

  // ---------- Bit-serial input ----------

  function BitWord<T>(r: Register<T>, b: bool, i: nat): T {
    if b then r.place(i) else r.zero
  }

  /** The register after a bit string, first bit first: the reference definition. */
  function Feed<T>(r: Register<T>, c: T, bits: seq<bool>): T
    decreases |bits|
  {
    if |bits| == 0 then c else Feed(r, r.shift(r.xor(c, BitWord(r, bits[0], 0))), bits[1..])
  }

  function Iterate<T>(r: Register<T>, n: nat, c: T): T {
    if n == 0 then c else Iterate(r, n - 1, r.shift(c))
  }

  /** The word whose places i, i+1, ... hold the given bits. */
  function Word<T>(r: Register<T>, bits: seq<bool>, i: nat): T
    decreases |bits|
  {
    if |bits| == 0 then r.zero else r.xor(BitWord(r, bits[0], i), Word(r, bits[1..], i + 1))
  }

  lemma {:induction false} FeedAppend<T(!new)>(r: Register<T>, c: T, x: seq<bool>, y: seq<bool>)
    ensures Feed(r, c, x + y) == Feed(r, Feed(r, c, x), y)
    decreases |x|
  {
    if |x| == 0 {
      assert x + y == y;
    } else {
      assert (x + y)[1..] == x[1..] + y;
      FeedAppend(r, r.shift(r.xor(c, BitWord(r, x[0], 0))), x[1..], y);
    }
  }

  lemma ShiftZero<T(!new)>(r: Register<T>)
    requires Lawful(r)
    ensures r.shift(r.zero) == r.zero
  {
    assert XorLaws(r, r.zero, r.zero, r.zero) && ShiftLaws(r, r.zero, r.zero);
    assert XorLaws(r, r.shift(r.zero), r.zero, r.zero);
  }

  lemma {:induction false} ShiftWord<T(!new)>(r: Register<T>, bits: seq<bool>, i: nat)
    requires Lawful(r) && i + 1 + |bits| <= r.width
    ensures r.shift(Word(r, bits, i + 1)) == Word(r, bits, i)
    decreases |bits|
  {
    ShiftZero(r);
    if |bits| > 0 {
      ShiftWord(r, bits[1..], i + 1);
      assert PlaceLaw(r, i);
      assert ShiftLaws(r, BitWord(r, bits[0], i + 1), Word(r, bits[1..], i + 2));
    }
  }

  /** Xoring a whole word in and then shifting once per bit is the same as bit-serial input. */
  lemma {:induction false} WordInputIsBitSerial<T(!new)>(r: Register<T>, c: T, bits: seq<bool>)
    requires Lawful(r) && |bits| <= r.width
    ensures Iterate(r, |bits|, r.xor(c, Word(r, bits, 0))) == Feed(r, c, bits)
    decreases |bits|
  {
    if |bits| == 0 {
      assert XorLaws(r, c, c, c);
    } else {
      var first, rest := BitWord(r, bits[0], 0), Word(r, bits[1..], 1);
      assert XorLaws(r, c, first, rest) && ShiftLaws(r, r.xor(c, first), rest);
      ShiftWord(r, bits[1..], 0);
      WordInputIsBitSerial(r, r.shift(r.xor(c, first)), bits[1..]);
    }
  }

  // ---------- Linearity ----------

  function XorBits(x: seq<bool>, y: seq<bool>): (z: seq<bool>)
    requires |x| == |y|
    ensures |z| == |x|
  {
    seq(|x|, i requires 0 <= i < |x| => x[i] != y[i])
  }

  lemma Interchange<T(!new)>(r: Register<T>, a: T, b: T, c: T, d: T)
    requires Lawful(r)
    ensures r.xor(r.xor(a, b), r.xor(c, d)) == r.xor(r.xor(a, c), r.xor(b, d))
  {
    assert XorLaws(r, a, b, r.xor(c, d)) && XorLaws(r, a, c, r.xor(b, d));
    assert XorLaws(r, b, c, d) && XorLaws(r, c, b, d);
  }

  /** The register is linear in its start word and its input together. */
  lemma {:induction false} FeedLinear<T(!new)>(r: Register<T>, c: T, d: T, x: seq<bool>, y: seq<bool>)
    requires Lawful(r) && |x| == |y|
    ensures Feed(r, r.xor(c, d), XorBits(x, y)) == r.xor(Feed(r, c, x), Feed(r, d, y))
    decreases |x|
  {
    if |x| > 0 {
      var p, q := BitWord(r, x[0], 0), BitWord(r, y[0], 0);
      assert XorLaws(r, p, q, q) && XorLaws(r, q, p, p);
      assert BitWord(r, x[0] != y[0], 0) == r.xor(p, q);
      Interchange(r, c, d, p, q);
      assert ShiftLaws(r, r.xor(c, p), r.xor(d, q));
      assert XorBits(x, y)[1..] == XorBits(x[1..], y[1..]);
      FeedLinear(r, r.shift(r.xor(c, p)), r.shift(r.xor(d, q)), x[1..], y[1..]);
    }
  }

  lemma {:induction false} IterateLinear<T(!new)>(r: Register<T>, n: nat, a: T, b: T)
    requires Lawful(r)
    ensures Iterate(r, n, r.xor(a, b)) == r.xor(Iterate(r, n, a), Iterate(r, n, b))
  {
    if n > 0 {
      assert ShiftLaws(r, a, b);
      IterateLinear(r, n - 1, r.shift(a), r.shift(b));
    }
  }

  // ---------- Bursts ----------

  /** The two bit strings agree outside the given run of consecutive positions. */
  ghost predicate DifferOnlyWithin(x: seq<bool>, y: seq<bool>, start: nat, width: nat) {
    && |x| == |y|
    && forall i :: 0 <= i < |x| && !(start <= i < start + width) ==> x[i] == y[i]
  }

  ghost predicate AllZero(bits: seq<bool>) {
    forall i :: 0 <= i < |bits| ==> !bits[i]
  }

  /** Single-place words are independent: only the all-zero bit string makes the zero word. */
  ghost predicate Independent<T(!new)>(r: Register<T>) {
    forall bits: seq<bool> :: |bits| <= r.width && Word(r, bits, 0) == r.zero ==> AllZero(bits)
  }

  lemma {:induction false} IterateKeepsNonzero<T(!new)>(r: Register<T>, n: nat, c: T)
    requires Lawful(r) && c != r.zero
    ensures Iterate(r, n, c) != r.zero
  {
    if n > 0 {
      assert ShiftLaws(r, c, c);
      IterateKeepsNonzero(r, n - 1, r.shift(c));
    }
  }

  lemma {:induction false} FeedZeros<T(!new)>(r: Register<T>, c: T, bits: seq<bool>)
    requires Lawful(r) && AllZero(bits)
    ensures Feed(r, c, bits) == Iterate(r, |bits|, c)
    decreases |bits|
  {
    if |bits| > 0 {
      assert XorLaws(r, c, c, c);
      FeedZeros(r, r.shift(c), bits[1..]);
    }
  }

  lemma {:induction false} IterateZero<T(!new)>(r: Register<T>, n: nat)
    requires Lawful(r)
    ensures Iterate(r, n, r.zero) == r.zero
  {
    ShiftZero(r);
    if n > 0 {
      IterateZero(r, n - 1);
    }
  }

  /** Zeros, then a nonzero burst no wider than the register, then zeros, never end at zero. */
  lemma LoneBurst<T(!new)>(r: Register<T>, before: seq<bool>, burst: seq<bool>, after: seq<bool>)
    requires Lawful(r) && Independent(r)
    requires AllZero(before) && AllZero(after) && |burst| <= r.width && !AllZero(burst)
    ensures Feed(r, r.zero, before + burst + after) != r.zero
  {
    FeedAppend(r, r.zero, before + burst, after);
    FeedAppend(r, r.zero, before, burst);
    FeedZeros(r, r.zero, before);
    IterateZero(r, |before|);
    WordInputIsBitSerial(r, r.zero, burst);
    assert XorLaws(r, r.zero, Word(r, burst, 0), r.zero) && XorLaws(r, Word(r, burst, 0), r.zero, r.zero);
    IterateKeepsNonzero(r, |burst|, Word(r, burst, 0));
    FeedZeros(r, Feed(r, r.zero, burst), after);
    IterateKeepsNonzero(r, |after|, Feed(r, r.zero, burst));
  }

  /** From one start word, inputs that differ only within one register width end apart. */
  lemma BurstSeparates<T(!new)>(r: Register<T>, c: T, x: seq<bool>, y: seq<bool>, start: nat)
    requires Lawful(r) && Independent(r)
    requires x != y && DifferOnlyWithin(x, y, start, r.width)
    ensures Feed(r, c, x) != Feed(r, c, y)
  {
    var z := XorBits(x, y);
    var lo := if start < |z| then start else |z|;
    var hi := if start + r.width < |z| then start + r.width else |z|;
    assert z == z[..lo] + z[lo..hi] + z[hi..];
    if AllZero(z[lo..hi]) {
      forall i | 0 <= i < |x| ensures x[i] == y[i] {
        if lo <= i < hi {
          assert z[i] == z[lo..hi][i - lo];
        }
        assert z[i] == (x[i] != y[i]);
      }
      assert false;
    }
    LoneBurst(r, z[..lo], z[lo..hi], z[hi..]);
    FeedLinear(r, c, c, x, y);
    assert XorLaws(r, c, c, c) && XorLaws(r, Feed(r, c, x), c, c);
  }
}
