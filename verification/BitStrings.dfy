/** Bit strings, most significant bit first, and their grouping into numbers of a fixed width. */
module BitStrings {

  function Pow2(n: nat): (p: nat)
    ensures p > 0
  {
    if n == 0 then 1 else 2 * Pow2(n - 1)
  }

  function Value(bits: seq<bool>): nat {
    if |bits| == 0 then 0
    else 2 * Value(bits[..|bits| - 1]) + if bits[|bits| - 1] then 1 else 0
  }

  function ToBits(v: nat, width: nat): (bits: seq<bool>)
    ensures |bits| == width
  {
    if width == 0 then [] else ToBits(v / 2, width - 1) + [v % 2 == 1]
  }

  function Zeros(n: nat): seq<bool> {
    seq(n, _ => false)
  }

  lemma {:induction false} ValueBound(bits: seq<bool>)
    ensures Value(bits) < Pow2(|bits|)
  {
    if |bits| > 0 {
      ValueBound(bits[..|bits| - 1]);
    }
  }

  lemma {:induction false} ValueOfToBits(v: nat, width: nat)
    requires v < Pow2(width)
    ensures Value(ToBits(v, width)) == v
  {
    if width > 0 {
      ValueOfToBits(v / 2, width - 1);
      assert ToBits(v, width)[..width - 1] == ToBits(v / 2, width - 1);
    }
  }

  lemma {:induction false} ToBitsOfValue(bits: seq<bool>)
    ensures ToBits(Value(bits), |bits|) == bits
  {
    if |bits| > 0 {
      ToBitsOfValue(bits[..|bits| - 1]);
    }
  }

  lemma {:induction false} ValueAppend(x: seq<bool>, y: seq<bool>)
    ensures Value(x + y) == Value(x) * Pow2(|y|) + Value(y)
    decreases |y|
  {
    if |y| == 0 {
      assert x + y == x;
    } else {
      var z := y[..|y| - 1];
      ValueAppend(x, z);
      assert (x + y)[..|x + y| - 1] == x + z;
      assert 2 * (Value(x) * Pow2(|z|)) == Value(x) * (2 * Pow2(|z|));
    }
  }

  lemma {:induction false} ValueZero(bits: seq<bool>)
    ensures Value(bits) == 0 <==> bits == Zeros(|bits|)
  {
    if |bits| > 0 {
      var init := bits[..|bits| - 1];
      ValueZero(init);
      assert bits == init + [bits[|bits| - 1]];
      assert Zeros(|bits|) == Zeros(|init|) + [false];
    }
  }

  // ---------- Numbers of one width, side by side ----------

  /** The widths that occur: Base32 symbols and bytes. */
  predicate IsWidth(width: nat) {
    width == 5 || width == 8
  }

  /** The numbers written one after the other, each with the given number of bits. */
  function BitsOf(values: seq<nat>, width: nat): (bits: seq<bool>)
    requires IsWidth(width)
    ensures |bits| == width * |values|
  {
    if |values| == 0 then [] else ToBits(values[0], width) + BitsOf(values[1..], width)
  }

  /** The bit string cut into whole groups of the given width, read as numbers. */
  function Group(bits: seq<bool>, width: nat): (values: seq<nat>)
    requires IsWidth(width)
    ensures |values| == |bits| / width
    ensures forall k :: 0 <= k < |values| ==> values[k] < Pow2(width)
  {
    if |bits| < width then []
    else
      ValueBound(bits[..width]);
      [Value(bits[..width])] + Group(bits[width..], width)
  }

  /** The bits after the last whole group. */
  function Rest(bits: seq<bool>, width: nat): (rest: seq<bool>)
    requires IsWidth(width)
    ensures |rest| == |bits| % width
  {
    if |bits| < width then bits else Rest(bits[width..], width)
  }

  lemma {:induction false} BitsOfAppend(x: seq<nat>, y: seq<nat>, width: nat)
    requires IsWidth(width)
    ensures BitsOf(x + y, width) == BitsOf(x, width) + BitsOf(y, width)
  {
    if |x| == 0 {
      assert x + y == y;
    } else {
      assert (x + y)[1..] == x[1..] + y;
      BitsOfAppend(x[1..], y, width);
    }
  }

  /** Grouping can go on from the rest. */
  lemma {:induction false} GroupAppend(x: seq<bool>, y: seq<bool>, width: nat)
    requires IsWidth(width)
    ensures Group(x + y, width) == Group(x, width) + Group(Rest(x, width) + y, width)
    ensures Rest(x + y, width) == Rest(Rest(x, width) + y, width)
  {
    hide Value, Pow2;
    if |x| >= width {
      assert (x + y)[..width] == x[..width] && (x + y)[width..] == x[width..] + y;
      GroupAppend(x[width..], y, width);
      assert Group(x, width) == [Value(x[..width])] + Group(x[width..], width);
    }
  }

  lemma {:induction false} GroupOfBits(values: seq<nat>, width: nat)
    requires IsWidth(width) && forall k :: 0 <= k < |values| ==> values[k] < Pow2(width)
    ensures Group(BitsOf(values, width), width) == values
    ensures Rest(BitsOf(values, width), width) == []
  {
    if |values| > 0 {
      var bits := BitsOf(values, width);
      GroupOfBits(values[1..], width);
      ValueOfToBits(values[0], width);
      assert bits[..width] == ToBits(values[0], width) && bits[width..] == BitsOf(values[1..], width);
    }
  }

  lemma {:induction false} BitsOfGroup(bits: seq<bool>, width: nat)
    requires IsWidth(width)
    ensures bits == BitsOf(Group(bits, width), width) + Rest(bits, width)
  {
    hide Value, ToBits, Pow2;
    if |bits| >= width {
      BitsOfGroup(bits[width..], width);
      ToBitsOfValue(bits[..width]);
      var values := Group(bits, width);
      assert values[0] == Value(bits[..width]) && values[1..] == Group(bits[width..], width);
      assert bits == bits[..width] + bits[width..];
    }
  }
}
