/** The bits of the 16-bit words that stand for two eight-pin ports. */
module PortBits {
  function Half(w: bv16): bv16 {
    w >> 1
  }

  predicate IsOdd(w: bv16) {
    w & 1 == 1
  }

  predicate Bit(w: bv16, i: nat) {
    if i == 0 then IsOdd(w) else Bit(Half(w), i - 1)
  }

  function And(a: bv16, b: bv16): bv16 {
    a & b
  }

  /** The masked update of the driver. */
  function Merge(current: bv16, mask: bv16, value: bv16): bv16 {
    (current & !mask) | (value & mask)
  }

  lemma MergeSteps(c: bv16, m: bv16, v: bv16)
    ensures Half(Merge(c, m, v)) == Merge(Half(c), Half(m), Half(v))
    ensures IsOdd(Merge(c, m, v)) == if IsOdd(m) then IsOdd(v) else IsOdd(c)
  {
  }

  lemma {:induction false} MergeBit(current: bv16, mask: bv16, value: bv16, i: nat)
    ensures Bit(Merge(current, mask, value), i) == if Bit(mask, i) then Bit(value, i) else Bit(current, i)
    decreases i
  {
    hide Merge, Half, IsOdd;
    MergeSteps(current, mask, value);
    if i > 0 {
      MergeBit(Half(current), Half(mask), Half(value), i - 1);
    }
  }

  lemma AndSteps(a: bv16, b: bv16)
    ensures Half(And(a, b)) == And(Half(a), Half(b))
    ensures IsOdd(And(a, b)) == (IsOdd(a) && IsOdd(b))
  {
  }

  lemma {:induction false} AndBit(a: bv16, b: bv16, i: nat)
    ensures Bit(And(a, b), i) == (Bit(a, i) && Bit(b, i))
    decreases i
  {
    hide And, Half, IsOdd;
    AndSteps(a, b);
    if i > 0 {
      AndBit(Half(a), Half(b), i - 1);
    }
  }

  lemma ZeroSteps()
    ensures Half(0) == 0 && !IsOdd(0)
  {
  }

  lemma {:induction false} ZeroBit(i: nat)
    ensures !Bit(0, i)
    decreases i
  {
    hide Half, IsOdd;
    ZeroSteps();
    if i > 0 {
      ZeroBit(i - 1);
    }
  }

  function Half8(w: bv16): bv16 {
    Half(Half(Half(Half(Half(Half(Half(Half(w))))))))
  }

  lemma BitAfterEight(w: bv16, i: nat)
    ensures Bit(w, i + 8) == Bit(Half8(w), i)
  {
    hide Half, IsOdd;
    var w2 := Half(Half(w));
    var w4 := Half(Half(w2));
    var w6 := Half(Half(w4));
    assert Bit(w, i + 8) == Bit(w2, i + 6);
    assert Bit(w2, i + 6) == Bit(w4, i + 4);
    assert Bit(w4, i + 4) == Bit(w6, i + 2);
    assert Bit(w6, i + 2) == Bit(Half(Half(w6)), i);
  }

  lemma LowByteHalves()
    ensures Half8(0xFF) == 0
    ensures forall k :: 0 <= k < 8 ==> Bit(0xFF, k)
  {
    assert Bit(0xFF, 0) && Half(0xFF) == 0x7F;
    assert Bit(0x7F, 0) && Half(0x7F) == 0x3F;
    assert Bit(0x3F, 0) && Half(0x3F) == 0x1F;
    assert Bit(0x1F, 0) && Half(0x1F) == 0x0F;
    assert Bit(0x0F, 0) && Half(0x0F) == 0x07;
    assert Bit(0x07, 0) && Half(0x07) == 0x03;
    assert Bit(0x03, 0) && Half(0x03) == 0x01;
    assert Bit(0x01, 0) && Half(0x01) == 0x00;
    assert Bit(0x03, 1);
    assert Bit(0x07, 1) && Bit(0x07, 2);
    assert Bit(0x0F, 1) && Bit(0x0F, 2) && Bit(0x0F, 3);
    assert forall k :: 0 <= k < 4 ==> Bit(0x0F, k);
    assert forall k :: 0 < k < 5 ==> Bit(0x1F, k) == Bit(0x0F, k - 1);
    assert forall k :: 0 < k < 6 ==> Bit(0x3F, k) == Bit(0x1F, k - 1);
    assert forall k :: 0 < k < 7 ==> Bit(0x7F, k) == Bit(0x3F, k - 1);
    assert forall k :: 0 < k < 8 ==> Bit(0xFF, k) == Bit(0x7F, k - 1);
  }

  lemma LowBit(w: bv16, i: nat)
    ensures Bit(And(w, 0xFF), i) == (i < 8 && Bit(w, i))
  {
    hide And, Half, IsOdd, Half8, Bit;
    AndBit(w, 0xFF, i);
    LowByteHalves();
    if i >= 8 {
      BitAfterEight(0xFF, i - 8);
      ZeroBit(i - 8);
    }
  }

  /** A byte moved to the second port. */
  function Raise(w: bv16): bv16 {
    w << 8
  }

  lemma RaiseSteps(w: bv16)
    ensures Half8(Raise(w)) == And(w, 0xFF) && And(Raise(w), 0xFF) == 0
  {
  }

  lemma RaiseBit(w: bv16, i: nat)
    ensures Bit(Raise(w), i) == (8 <= i < 16 && Bit(w, i - 8))
  {
    hide And, Half, IsOdd, Half8, Bit, Raise;
    RaiseSteps(w);
    if i >= 8 {
      BitAfterEight(Raise(w), i - 8);
      LowBit(w, i - 8);
    } else {
      LowBit(Raise(w), i);
      ZeroBit(i);
    }
  }

  /** The mask of one pin of a port. */
  function Single(bit: nat): bv16
    requires bit < 8
  {
    1 as bv16 << bit
  }

  lemma SingleSteps(bit: nat)
    requires bit < 8
    ensures IsOdd(Single(bit)) == (bit == 0)
    ensures Half(Single(bit)) == if bit == 0 then 0 else Single(bit - 1)
  {
    if bit == 0 {
      assert Single(0) == 1;
    } else if bit == 1 {
      assert Single(1) == 2 && Single(0) == 1;
    } else if bit == 2 {
      assert Single(2) == 4 && Single(1) == 2;
    } else if bit == 3 {
      assert Single(3) == 8 && Single(2) == 4;
    } else if bit == 4 {
      assert Single(4) == 16 && Single(3) == 8;
    } else if bit == 5 {
      assert Single(5) == 32 && Single(4) == 16;
    } else if bit == 6 {
      assert Single(6) == 64 && Single(5) == 32;
    } else {
      assert Single(7) == 128 && Single(6) == 64;
    }
  }

  lemma {:induction false} SingleBit(bit: nat, i: nat)
    requires bit < 8
    ensures Bit(Single(bit), i) == (i == bit)
    decreases i
  {
    hide Half, IsOdd, Single;
    SingleSteps(bit);
    if i > 0 {
      if bit == 0 {
        ZeroBit(i - 1);
      } else {
        SingleBit(bit - 1, i - 1);
      }
    }
  }

  /** The test of the screen: shift, then look at the lowest bit. */
  predicate Shown(port: bv16, pin: nat)
    requires pin < 8
  {
    (port >> pin) & 1 != 0
  }

  lemma ShownSteps(w: bv16, pin: nat)
    requires pin < 8
    ensures Shown(w, pin) == if pin == 0 then IsOdd(w) else Shown(Half(w), pin - 1)
  {
    if pin == 0 {
      assert w >> 0 == w;
    } else if pin == 1 {
      assert w >> 1 == (w >> 1) >> 0;
    } else if pin == 2 {
      assert w >> 2 == (w >> 1) >> 1;
    } else if pin == 3 {
      assert w >> 3 == (w >> 1) >> 2;
    } else if pin == 4 {
      assert w >> 4 == (w >> 1) >> 3;
    } else if pin == 5 {
      assert w >> 5 == (w >> 1) >> 4;
    } else if pin == 6 {
      assert w >> 6 == (w >> 1) >> 5;
    } else {
      assert w >> 7 == (w >> 1) >> 6;
    }
  }

  lemma {:induction false} ShownIsBit(w: bv16, pin: nat)
    requires pin < 8
    ensures Shown(w, pin) == Bit(w, pin)
    decreases pin
  {
    hide Shown, Half, IsOdd;
    ShownSteps(w, pin);
    if pin > 0 {
      ShownIsBit(Half(w), pin - 1);
    }
  }
}
