/**
 * A burst across the border between the checksum field and the text can go unnoticed, because the
 * checksum travels in front of the text and not behind it.
 */
module BorderBurst {
  import opened Bytes
  import opened Commands
  import opened Crc32
  import opened FrameDamage
  import opened FramePath
  import opened Json
  import opened Lookup
  import opened Numerals
  import opened Printing
  import opened ShiftRegister

  // ---------- One changed byte in front of 42 equal ones ----------

  /** The register after a number of zero bytes. */
  function AfterZeros(c: bv32, n: nat): bv32
    decreases n
  {
    if n == 0 then c else AfterZeros(AfterByte(c, 0), n - 1)
  }

  function ZeroBytes(n: nat): seq<bv8> {
    seq(n, _ => 0)
  }

  lemma {:induction false} AfterZerosIs(c: bv32, n: nat)
    ensures AfterBytes(c, ZeroBytes(n)) == AfterZeros(c, n)
    decreases n
  {
    hide AfterByte;
    if n > 0 {
      assert ZeroBytes(n)[1..] == ZeroBytes(n - 1);
      AfterZerosIs(AfterByte(c, 0), n - 1);
    }
  }

  lemma FirstByte()
    ensures AfterByte(0, 0x48) == 0x7807_C9A2
  {
  }

  lemma Zeros1()
    ensures AfterByte(0x7807_C9A2, 0) == 0x38A0_C50D
    ensures AfterByte(0x38A0_C50D, 0) == 0x7E89_DC78
    ensures AfterByte(0x7E89_DC78, 0) == 0x5EA0_70D2
    ensures AfterByte(0x5EA0_70D2, 0) == 0x6883_1388
    ensures AfterByte(0x6883_1388, 0) == 0xE30B_8801
    ensures AfterByte(0xE30B_8801, 0) == 0x77E4_3B1E
  {
  }

  lemma Run1()
    ensures AfterZeros(0x7807_C9A2, 42) == AfterZeros(0x77E4_3B1E, 36)
  {
    hide AfterByte;
    Zeros1();
    assert AfterZeros(0x7807_C9A2, 42) == AfterZeros(0x38A0_C50D, 41);
    assert AfterZeros(0x38A0_C50D, 41) == AfterZeros(0x7E89_DC78, 40);
    assert AfterZeros(0x7E89_DC78, 40) == AfterZeros(0x5EA0_70D2, 39);
    assert AfterZeros(0x5EA0_70D2, 39) == AfterZeros(0x6883_1388, 38);
    assert AfterZeros(0x6883_1388, 38) == AfterZeros(0xE30B_8801, 37);
    assert AfterZeros(0xE30B_8801, 37) == AfterZeros(0x77E4_3B1E, 36);
  }

  lemma Zeros2()
    ensures AfterByte(0x77E4_3B1E, 0) == 0xFA78_D958
    ensures AfterByte(0xFA78_D958, 0) == 0x654A_A11F
    ensures AfterByte(0x654A_A11F, 0) == 0x8D6D_4754
    ensures AfterByte(0x8D6D_4754, 0) == 0x6C8B_F8AA
    ensures AfterByte(0x6C8B_F8AA, 0) == 0x366F_C10E
    ensures AfterByte(0x366F_C10E, 0) == 0xE78E_42C6
  {
  }

  lemma Run2()
    ensures AfterZeros(0x77E4_3B1E, 36) == AfterZeros(0xE78E_42C6, 30)
  {
    hide AfterByte;
    Zeros2();
    assert AfterZeros(0x77E4_3B1E, 36) == AfterZeros(0xFA78_D958, 35);
    assert AfterZeros(0xFA78_D958, 35) == AfterZeros(0x654A_A11F, 34);
    assert AfterZeros(0x654A_A11F, 34) == AfterZeros(0x8D6D_4754, 33);
    assert AfterZeros(0x8D6D_4754, 33) == AfterZeros(0x6C8B_F8AA, 32);
    assert AfterZeros(0x6C8B_F8AA, 32) == AfterZeros(0x366F_C10E, 31);
    assert AfterZeros(0x366F_C10E, 31) == AfterZeros(0xE78E_42C6, 30);
  }

  lemma Zeros3()
    ensures AfterByte(0xE78E_42C6, 0) == 0x72E0_E9C7
    ensures AfterByte(0x72E0_E9C7, 0) == 0x0572_B7FA
    ensures AfterByte(0x0572_B7FA, 0) == 0x5D6D_69B5
    ensures AfterByte(0x5D6D_69B5, 0) == 0xBB56_2A6A
    ensures AfterByte(0xBB56_2A6A, 0) == 0xADDC_DE6C
    ensures AfterByte(0xADDC_DE6C, 0) == 0x44A9_F1AD
  {
  }

  lemma Run3()
    ensures AfterZeros(0xE78E_42C6, 30) == AfterZeros(0x44A9_F1AD, 24)
  {
    hide AfterByte;
    Zeros3();
    assert AfterZeros(0xE78E_42C6, 30) == AfterZeros(0x72E0_E9C7, 29);
    assert AfterZeros(0x72E0_E9C7, 29) == AfterZeros(0x0572_B7FA, 28);
    assert AfterZeros(0x0572_B7FA, 28) == AfterZeros(0x5D6D_69B5, 27);
    assert AfterZeros(0x5D6D_69B5, 27) == AfterZeros(0xBB56_2A6A, 26);
    assert AfterZeros(0xBB56_2A6A, 26) == AfterZeros(0xADDC_DE6C, 25);
    assert AfterZeros(0xADDC_DE6C, 25) == AfterZeros(0x44A9_F1AD, 24);
  }

  lemma Zeros4()
    ensures AfterByte(0x44A9_F1AD, 0) == 0xA823_76A4
    ensures AfterByte(0xA823_76A4, 0) == 0xD113_4487
    ensures AfterByte(0xD113_4487, 0) == 0x730D_05C7
    ensures AfterByte(0x730D_05C7, 0) == 0x0573_5A16
    ensures AfterByte(0x0573_5A16, 0) == 0xF4D1_C60B
    ensures AfterByte(0xF4D1_C60B, 0) == 0x9726_084E
  {
  }

  lemma Run4()
    ensures AfterZeros(0x44A9_F1AD, 24) == AfterZeros(0x9726_084E, 18)
  {
    hide AfterByte;
    Zeros4();
    assert AfterZeros(0x44A9_F1AD, 24) == AfterZeros(0xA823_76A4, 23);
    assert AfterZeros(0xA823_76A4, 23) == AfterZeros(0xD113_4487, 22);
    assert AfterZeros(0xD113_4487, 22) == AfterZeros(0x730D_05C7, 21);
    assert AfterZeros(0x730D_05C7, 21) == AfterZeros(0x0573_5A16, 20);
    assert AfterZeros(0x0573_5A16, 20) == AfterZeros(0xF4D1_C60B, 19);
    assert AfterZeros(0xF4D1_C60B, 19) == AfterZeros(0x9726_084E, 18);
  }

  lemma Zeros5()
    ensures AfterByte(0x9726_084E, 0) == 0x91F3_4A9F
    ensures AfterByte(0x91F3_4A9F, 0) == 0x6021_7D9F
    ensures AfterByte(0x6021_7D9F, 0) == 0x60D0_AFA8
    ensures AfterByte(0x60D0_AFA8, 0) == 0xD86D_FB75
    ensures AfterByte(0xD86D_FB75, 0) == 0x20B7_E848
    ensures AfterByte(0x20B7_E848, 0) == 0x7827_7E4A
  {
  }

  lemma Run5()
    ensures AfterZeros(0x9726_084E, 18) == AfterZeros(0x7827_7E4A, 12)
  {
    hide AfterByte;
    Zeros5();
    assert AfterZeros(0x9726_084E, 18) == AfterZeros(0x91F3_4A9F, 17);
    assert AfterZeros(0x91F3_4A9F, 17) == AfterZeros(0x6021_7D9F, 16);
    assert AfterZeros(0x6021_7D9F, 16) == AfterZeros(0x60D0_AFA8, 15);
    assert AfterZeros(0x60D0_AFA8, 15) == AfterZeros(0xD86D_FB75, 14);
    assert AfterZeros(0xD86D_FB75, 14) == AfterZeros(0x20B7_E848, 13);
    assert AfterZeros(0x20B7_E848, 13) == AfterZeros(0x7827_7E4A, 12);
  }

  lemma Zeros6()
    ensures AfterByte(0x7827_7E4A, 0) == 0x9671_8FF0
    ensures AfterByte(0x9671_8FF0, 0) == 0xBD2B_8393
    ensures AfterByte(0xBD2B_8393, 0) == 0x69BB_E97D
    ensures AfterByte(0x69BB_E97D, 0) == 0x2EDD_B668
    ensures AfterByte(0x2EDD_B668, 0) == 0x4347_34DC
    ensures AfterByte(0x4347_34DC, 0) == 0x8F26_D9CB
  {
  }

  lemma Run6()
    ensures AfterZeros(0x7827_7E4A, 12) == AfterZeros(0x8F26_D9CB, 6)
  {
    hide AfterByte;
    Zeros6();
    assert AfterZeros(0x7827_7E4A, 12) == AfterZeros(0x9671_8FF0, 11);
    assert AfterZeros(0x9671_8FF0, 11) == AfterZeros(0xBD2B_8393, 10);
    assert AfterZeros(0xBD2B_8393, 10) == AfterZeros(0x69BB_E97D, 9);
    assert AfterZeros(0x69BB_E97D, 9) == AfterZeros(0x2EDD_B668, 8);
    assert AfterZeros(0x2EDD_B668, 8) == AfterZeros(0x4347_34DC, 7);
    assert AfterZeros(0x4347_34DC, 7) == AfterZeros(0x8F26_D9CB, 6);
  }

  lemma Zeros7()
    ensures AfterByte(0x8F26_D9CB, 0) == 0x0C39_3DE1
    ensures AfterByte(0x0C39_3DE1, 0) == 0xD701_EBD3
    ensures AfterByte(0xD701_EBD3, 0) == 0x1F0D_8285
    ensures AfterByte(0x1F0D_8285, 0) == 0x9DCD_7A2D
    ensures AfterByte(0x9DCD_7A2D, 0) == 0x4542_910F
    ensures AfterByte(0x4542_910F, 0) == 0x90FA_5F00
  {
  }

  lemma Run7()
    ensures AfterZeros(0x8F26_D9CB, 6) == AfterZeros(0x90FA_5F00, 0)
  {
    hide AfterByte;
    Zeros7();
    assert AfterZeros(0x8F26_D9CB, 6) == AfterZeros(0x0C39_3DE1, 5);
    assert AfterZeros(0x0C39_3DE1, 5) == AfterZeros(0xD701_EBD3, 4);
    assert AfterZeros(0xD701_EBD3, 4) == AfterZeros(0x1F0D_8285, 3);
    assert AfterZeros(0x1F0D_8285, 3) == AfterZeros(0x9DCD_7A2D, 2);
    assert AfterZeros(0x9DCD_7A2D, 2) == AfterZeros(0x4542_910F, 1);
    assert AfterZeros(0x4542_910F, 1) == AfterZeros(0x90FA_5F00, 0);
  }

  lemma FirstByteThenZeros()
    ensures AfterBytes(0, [0x48] + ZeroBytes(42)) == 0x90FA_5F00
  {
    hide AfterByte;
    var data: seq<bv8> := [0x48] + ZeroBytes(42);
    assert data[1..] == ZeroBytes(42);
    FirstByte();
    AfterZerosIs(0x7807_C9A2, 42);
    Run1();
    Run2();
    Run3();
    Run4();
    Run5();
    Run6();
    Run7();
  }

  // ---------- The difference of two texts that differ in the first byte ----------

  lemma PlaceOfXor(x: bv32, y: bv32, k: nat)
    requires k < 32
    ensures HasPlace(Xor(x, y), k) == (HasPlace(x, k) != HasPlace(y, k))
  {
    hide Xor, And, Place;
    AndOfXor(x, y, Place(k));
    ReadPlace(x, k);
    ReadPlace(y, k);
    PlacesAreDistinct(k, k);
    XorFacts(Place(k), 0, 0);
    XorFacts(0, Place(k), 0);
  }

  lemma NoPlaceInZero(k: nat)
    requires k < 32
    ensures !HasPlace(0, k)
  {
    hide And, Place;
    AndFacts(Place(k), 0);
  }

  lemma {:induction false} NoBitsInZeros(n: nat)
    ensures MessageBits(ZeroBytes(n)) == seq(8 * n, _ => false)
  {
    hide HasPlace;
    if n > 0 {
      assert ZeroBytes(n)[1..] == ZeroBytes(n - 1) && ZeroBytes(n)[0] == 0;
      NoBitsInZeros(n - 1);
      assert PlaceBits(0) == seq(8, _ => false) by {
        forall k | 0 <= k < 8
          ensures !HasPlace(0, k)
        {
          NoPlaceInZero(k);
        }
      }
    }
  }

  function OctetBits(b: bv8): (bits: seq<bool>)
    ensures |bits| == 8
  {
    PlaceBits(b as bv32)
  }

  lemma FirstBits(rest: seq<bv8>, first: bv8)
    ensures MessageBits([first] + rest) == OctetBits(first) + MessageBits(rest)
  {
    hide PlaceBits;
    assert ([first] + rest)[1..] == rest;
  }

  lemma OctetDifference()
    ensures XorBits(OctetBits(0x7B), OctetBits(0x33)) == OctetBits(0x48)
  {
    hide HasPlace;
    CodesXor();
    forall k | 0 <= k < 8
      ensures HasPlace(0x48, k) == (HasPlace(0x7B, k) != HasPlace(0x33, k))
    {
      PlaceOfXor(0x7B, 0x33, k);
    }
  }

  lemma XorFront(a: seq<bool>, b: seq<bool>, rest: seq<bool>)
    requires |a| == |b|
    ensures XorBits(a + rest, b + rest) == XorBits(a, b) + seq(|rest|, _ => false)
  {
  }

  lemma DifferenceBits(rest: seq<bv8>)
    ensures XorBits(MessageBits([0x7B] + rest), MessageBits([0x33] + rest)) == MessageBits([0x48] + ZeroBytes(|rest|))
  {
    hide MessageBits, OctetBits, XorBits;
    FirstBits(rest, 0x7B);
    FirstBits(rest, 0x33);
    FirstBits(ZeroBytes(|rest|), 0x48);
    NoBitsInZeros(|rest|);
    OctetDifference();
    XorFront(OctetBits(0x7B), OctetBits(0x33), MessageBits(rest));
  }

  lemma CodesXor()
    ensures Xor(0x7B, 0x33) == 0x48
    ensures 0x7B as bv8 as bv32 == 0x7B && 0x33 as bv8 as bv32 == 0x33 && 0x48 as bv8 as bv32 == 0x48
  {
  }

  /** For 43 bytes the checksums differ by the same word whatever the other bytes are. */
  lemma DifferenceOfChecksums(rest: seq<bv8>)
    requires |rest| == 42
    ensures Xor(Checksum([0x7B] + rest), Checksum([0x33] + rest)) == 0x90FA_5F00
  {
    hide Xor, MessageBits, Checksum, AfterBytes;
    ChecksumDifference([0x7B] + rest, [0x33] + rest);
    DifferenceBits(rest);
    AfterBytesIsFeed(0, [0x48] + ZeroBytes(42));
    FirstByteThenZeros();
  }

  lemma LowBytesAgree(a: bv32, b: bv32)
    requires Xor(a, b) == 0x90FA_5F00
    ensures FieldBytes(a)[0] == FieldBytes(b)[0] && a != b
  {
  }

  // ---------- A burst that goes unnoticed ----------

  lemma FirstCodes()
    ensures CharByte('{') == 0x7B && CharByte('3') == 0x33
  {
    assert (123 as int) as bv8 == 0x7B && (51 as int) as bv8 == 0x33;
  }

  lemma BytesOf(text: string, c: char)
    requires |text| > 0
    ensures AsBytes([c] + text[1..]) == [CharByte(c)] + AsBytes(text[1..])
  {
    hide CharByte;
  }

  /** The text with its first character replaced by the digit 3. */
  function Struck(text: string): string
    requires |text| > 0
  {
    ['3'] + text[1..]
  }

  lemma ThreeIsRead(text: string)
    requires |text| > 1 && text[1] == '"'
    ensures ValueRead(Struck(text)) == Some(Number(3.0))
  {
    hide ParseNumber, ParseMantissa, Scaled;
    var s := Struck(text);
    assert s[0] == '3' && s[1..] == text[1..];
    ThreeIsParsed(s);
    NumberStep(s, 3.0, s[1..]);
  }

  lemma ThreeIsParsed(s: string)
    requires |s| > 1 && s[0] == '3' && s[1] == '"'
    ensures ParseNumber(s) == Read(3.0, s[1..])
  {
    assert !IsDigit(s[1..][0]);
    assert Digits(s) == "3";
    assert DecimalValue("3") == 3;
    assert ParseMantissa(s) == Read(3.0, s[1..]);
    assert Pow10(0) == 1;
  }

  lemma MiddleDiffers(low: seq<bool>, b: seq<bool>, b': seq<bool>, c: seq<bool>, c': seq<bool>, rest: seq<bool>)
    requires |low| == 8 && |b| == |b'| == 24 && |c| == |c'| == 8
    ensures DifferOnlyWithin((low + b) + (c + rest), (low + b') + (c' + rest), 8, 32)
  {
  }

  lemma WireDiffersWithin(text: string, crc: bv32)
    requires |text| > 0 && FieldBytes(crc)[0] == FieldBytes(TextChecksum(text))[0]
    ensures DifferOnlyWithin(WireBits(Whole(text)), WireBits(Unpacked(crc, Struck(text))), 8, 32)
  {
    hide CharByte, FieldBytes, OctetBits, Checksum, MessageBits, AsBytes, DifferOnlyWithin;
    var a, b := FieldBytes(TextChecksum(text)), FieldBytes(crc);
    var rest := AsBytes(text[1..]);
    assert text == [text[0]] + text[1..];
    BytesOf(text, text[0]);
    BytesOf(text, '3');
    FirstBits(rest, CharByte(text[0]));
    FirstBits(rest, CharByte('3'));
    assert a == [a[0]] + a[1..] && b == [b[0]] + b[1..];
    FirstBits(a[1..], a[0]);
    FirstBits(b[1..], b[0]);
    MiddleDiffers(OctetBits(a[0]), MessageBits(a[1..]), MessageBits(b[1..]),
                  OctetBits(CharByte(text[0])), OctetBits(CharByte('3')), MessageBits(rest));
  }

  /**
   * For every text of 43 characters that starts as a message does, one burst of at most 32 bits, in the
   * last three bytes of the field and the first of the text, turns it into the number 3 and is accepted.
   */
  lemma BorderBurstGoesUnnoticed(text: string)
    requires |text| == 43 && text[0] == '{' && text[1] == '"'
    ensures var got := Whole(Struck(text));
            && DifferOnlyWithin(WireBits(Whole(text)), WireBits(got), 8, 32)
            && got.crc != TextChecksum(text) && got.text != text
            && Accepted(got.text, got.crc) && ValueRead(got.text) == Some(Number(3.0))
  {
    hide AsBytes, CharByte, Checksum, FieldBytes, ValueRead, WireBits;
    var rest := AsBytes(text[1..]);
    FirstCodes();
    assert text == [text[0]] + text[1..];
    BytesOf(text, '{');
    BytesOf(text, '3');
    TextLength(text[1..]);
    DifferenceOfChecksums(rest);
    LowBytesAgree(TextChecksum(text), TextChecksum(Struck(text)));
    WireDiffersWithin(text, TextChecksum(Struck(text)));
    ThreeIsRead(text);
    assert Struck(text)[0] != text[0];
  }

  lemma TextLength(text: string)
    ensures |AsBytes(text)| == |text|
  {
  }

  /** There are such messages: a command with a time of seven digits and a sequence number of three. */
  const SOME_COMMAND := NO_COMMAND.(timestampMs := 1000000, sequenceId := 100)

  lemma SomeCommandHas43()
    ensures var text := CommandText(SOME_COMMAND);
            |text| == 43 && text[0] == '{' && text[1] == '"'
    ensures Interpreted(Some(Number(3.0))) == NO_COMMAND
  {
    assert |Decimal(10)| == 2 && |Decimal(100)| == 3;
    assert |Decimal(1000)| == 4 && |Decimal(100000)| == 6 && |Decimal(1000000)| == 7;
  }
}
