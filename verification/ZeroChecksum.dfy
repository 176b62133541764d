/**
 * What a checksum of 0 means: the checksum test of both decoders is off, and messages whose checksum is
 * 0 do occur.
 */
module ZeroChecksum {
  import opened Bytes
  import opened Commands
  import opened Crc32
  import opened Lookup
  import opened Numerals
  import opened Printing

  // ---------- Running the register over a text ----------

  function Run(c: bv32, text: string): bv32 {
    AfterBytes(c, AsBytes(text))
  }

  lemma AsBytesAppend(a: string, b: string)
    ensures AsBytes(a + b) == AsBytes(a) + AsBytes(b)
  {
    hide CharByte;
  }

  lemma RunAppend(c: bv32, a: string, b: string)
    ensures Run(c, a + b) == Run(Run(c, a), b)
  {
    AsBytesAppend(a, b);
    AfterBytesAppend(c, AsBytes(a), AsBytes(b));
  }

  lemma {:induction false} RunStep(c: bv32, text: string)
    requires |text| > 0
    ensures Run(c, text) == Run(AfterByte(c, CharByte(text[0])), text[1..])
  {
    hide AfterByte, CharByte;
    assert AsBytes(text)[0] == CharByte(text[0]);
    assert AsBytes(text)[1..] == AsBytes(text[1..]);
  }

  lemma RunOfFive(c: bv32, text: string)
    requires |text| == 5
    ensures Run(c, text) == AfterByte(AfterByte(AfterByte(AfterByte(AfterByte(
        c, CharByte(text[0])), CharByte(text[1])), CharByte(text[2])), CharByte(text[3])), CharByte(text[4]))
  {
    hide AfterByte, CharByte;
    var c1 := AfterByte(c, CharByte(text[0]));
    var c2 := AfterByte(c1, CharByte(text[1]));
    var c3 := AfterByte(c2, CharByte(text[2]));
    var c4 := AfterByte(c3, CharByte(text[3]));
    RunStep(c, text);
    RunStep(c1, text[1..]);
    assert text[1..][1..] == text[2..];
    RunStep(c2, text[2..]);
    assert text[2..][1..] == text[3..];
    RunStep(c3, text[3..]);
    assert text[3..][1..] == text[4..];
    RunStep(c4, text[4..]);
    assert AsBytes(text[4..][1..]) == [];
  }

  // ---------- The register over one text, five characters at a time ----------

  function ByteOf(n: nat): bv8
    requires n < 256
  {
    n as bv8
  }

  lemma CharIsByte(c: char)
    requires c as int < 256
    ensures CharByte(c) == ByteOf(c as int)
  {
  }

  lemma ByteCodes()
    ensures ByteOf(34) == 0x22 && ByteOf(44) == 0x2C && ByteOf(48) == 0x30 && ByteOf(49) == 0x31
    ensures ByteOf(53) == 0x35 && ByteOf(54) == 0x36 && ByteOf(55) == 0x37 && ByteOf(56) == 0x38
    ensures ByteOf(57) == 0x39 && ByteOf(58) == 0x3A && ByteOf(99) == 0x63 && ByteOf(100) == 0x64
    ensures ByteOf(101) == 0x65 && ByteOf(109) == 0x6D && ByteOf(112) == 0x70 && ByteOf(113) == 0x71
    ensures ByteOf(115) == 0x73 && ByteOf(116) == 0x74 && ByteOf(118) == 0x76 && ByteOf(121) == 0x79
    ensures ByteOf(123) == 0x7B && ByteOf(125) == 0x7D
  {
  }

  lemma Codes()
    ensures CharByte('"') == 0x22 && CharByte(',') == 0x2C && CharByte('0') == 0x30 && CharByte('1') == 0x31
    ensures CharByte('5') == 0x35 && CharByte('6') == 0x36 && CharByte('7') == 0x37 && CharByte('8') == 0x38
    ensures CharByte('9') == 0x39 && CharByte(':') == 0x3A && CharByte('c') == 0x63 && CharByte('d') == 0x64
    ensures CharByte('e') == 0x65 && CharByte('m') == 0x6D && CharByte('p') == 0x70 && CharByte('q') == 0x71
    ensures CharByte('s') == 0x73 && CharByte('t') == 0x74 && CharByte('v') == 0x76 && CharByte('y') == 0x79
    ensures CharByte('{') == 0x7B && CharByte('}') == 0x7D
  {
    hide CharByte, ByteOf;
    ByteCodes();
    CharIsByte('"'); CharIsByte(','); CharIsByte('0'); CharIsByte('1');
    CharIsByte('5'); CharIsByte('6'); CharIsByte('7'); CharIsByte('8');
    CharIsByte('9'); CharIsByte(':'); CharIsByte('c'); CharIsByte('d');
    CharIsByte('e'); CharIsByte('m'); CharIsByte('p'); CharIsByte('q');
    CharIsByte('s'); CharIsByte('t'); CharIsByte('v'); CharIsByte('y');
    CharIsByte('{'); CharIsByte('}');
  }

  lemma Bytes1()
    ensures AfterByte(0xFFFF_FFFF, 0x7B) == 0xEA2A_B8C6
    ensures AfterByte(0xEA2A_B8C6, 0x22) == 0xA78D_0CD9
    ensures AfterByte(0xA78D_0CD9, 0x76) == 0x46CE_3375
    ensures AfterByte(0x46CE_3375, 0x22) == 0xF549_0A64
    ensures AfterByte(0xF549_0A64, 0x3A) == 0x8C26_35F9
  {
  }

  lemma Part1()
    ensures Run(0xFFFF_FFFF, "{\"v\":") == 0x8C26_35F9
  {
    hide AfterByte, CharByte;
    RunOfFive(0xFFFF_FFFF, "{\"v\":");
    Codes();
    Bytes1();
  }

  lemma Bytes2()
    ensures AfterByte(0x8C26_35F9, 0x31) == 0x9533_6CB7
    ensures AfterByte(0x9533_6CB7, 0x2C) == 0x6748_79A0
    ensures AfterByte(0x6748_79A0, 0x22) == 0x03D1_AA75
    ensures AfterByte(0x03D1_AA75, 0x74) == 0x7704_E13C
    ensures AfterByte(0x7704_E13C, 0x79) == 0x06C1_B1FE
  {
  }

  lemma Part2()
    ensures Run(0x8C26_35F9, "1,\"ty") == 0x06C1_B1FE
  {
    hide AfterByte, CharByte;
    RunOfFive(0x8C26_35F9, "1,\"ty");
    Codes();
    Bytes2();
  }

  lemma Bytes3()
    ensures AfterByte(0x06C1_B1FE, 0x70) == 0x0A06_6F96
    ensures AfterByte(0x0A06_6F96, 0x65) == 0x24BE_A5C9
    ensures AfterByte(0x24BE_A5C9, 0x22) == 0x37FC_8555
    ensures AfterByte(0x37FC_8555, 0x3A) == 0xDD3A_804C
    ensures AfterByte(0xDD3A_804C, 0x22) == 0xAAD7_76DF
  {
  }

  lemma Part3()
    ensures Run(0x06C1_B1FE, "pe\":\"") == 0xAAD7_76DF
  {
    hide AfterByte, CharByte;
    RunOfFive(0x06C1_B1FE, "pe\":\"");
    Codes();
    Bytes3();
  }

  lemma Bytes4()
    ensures AfterByte(0xAAD7_76DF, 0x63) == 0xC27D_28D1
    ensures AfterByte(0xC27D_28D1, 0x6D) == 0xC215_828F
    ensures AfterByte(0xC215_828F, 0x64) == 0x371A_2E72
    ensures AfterByte(0x371A_2E72, 0x22) == 0x6B5C_4BDA
    ensures AfterByte(0x6B5C_4BDA, 0x2C) == 0x54B5_0B62
  {
  }

  lemma Part4()
    ensures Run(0xAAD7_76DF, "cmd\",") == 0x54B5_0B62
  {
    hide AfterByte, CharByte;
    RunOfFive(0xAAD7_76DF, "cmd\",");
    Codes();
    Bytes4();
  }

  lemma Bytes5()
    ensures AfterByte(0x54B5_0B62, 0x22) == 0x7688_F49B
    ensures AfterByte(0x7688_F49B, 0x74) == 0x30C3_771D
    ensures AfterByte(0x30C3_771D, 0x73) == 0xAA3A_8F28
    ensures AfterByte(0xAA3A_8F28, 0x22) == 0xE07F_D391
    ensures AfterByte(0xE07F_D391, 0x3A) == 0x41E4_05B3
  {
  }

  lemma Part5()
    ensures Run(0x54B5_0B62, "\"ts\":") == 0x41E4_05B3
  {
    hide AfterByte, CharByte;
    RunOfFive(0x54B5_0B62, "\"ts\":");
    Codes();
    Bytes5();
  }

  lemma Bytes6()
    ensures AfterByte(0x41E4_05B3, 0x31) == 0x03F7_0609
    ensures AfterByte(0x03F7_0609, 0x30) == 0x5F06_7F0E
    ensures AfterByte(0x5F06_7F0E, 0x36) == 0x285D_BEE1
    ensures AfterByte(0x285D_BEE1, 0x37) == 0x6F98_2A5F
    ensures AfterByte(0x6F98_2A5F, 0x37) == 0x4306_7140
  {
  }

  lemma Part6()
    ensures Run(0x41E4_05B3, "10677") == 0x4306_7140
  {
    hide AfterByte, CharByte;
    RunOfFive(0x41E4_05B3, "10677");
    Codes();
    Bytes6();
  }

  lemma Bytes7()
    ensures AfterByte(0x4306_7140, 0x35) == 0x202C_83C2
    ensures AfterByte(0x202C_83C2, 0x31) == 0x2494_8F25
    ensures AfterByte(0x2494_8F25, 0x2C) == 0x79F8_2C2B
    ensures AfterByte(0x79F8_2C2B, 0x22) == 0x79A5_4088
    ensures AfterByte(0x79A5_4088, 0x73) == 0x2A16_8ED4
  {
  }

  lemma Part7()
    ensures Run(0x4306_7140, "51,\"s") == 0x2A16_8ED4
  {
    hide AfterByte, CharByte;
    RunOfFive(0x4306_7140, "51,\"s");
    Codes();
    Bytes7();
  }

  lemma Bytes8()
    ensures AfterByte(0x2A16_8ED4, 0x65) == 0xBC4C_9594
    ensures AfterByte(0xBC4C_9594, 0x71) == 0xD0DC_5A62
    ensures AfterByte(0xD0DC_5A62, 0x22) == 0x760C_9DCA
    ensures AfterByte(0x760C_9DCA, 0x3A) == 0xBDCB_FE81
    ensures AfterByte(0xBDCB_FE81, 0x31) == 0xCBDC_7872
  {
  }

  lemma Part8()
    ensures Run(0x2A16_8ED4, "eq\":1") == 0xCBDC_7872
  {
    hide AfterByte, CharByte;
    RunOfFive(0x2A16_8ED4, "eq\":1");
    Codes();
    Bytes8();
  }

  lemma Bytes9()
    ensures AfterByte(0xCBDC_7872, 0x31) == 0xEF1E_CC52
    ensures AfterByte(0xEF1E_CC52, 0x30) == 0xA353_1EB8
    ensures AfterByte(0xA353_1EB8, 0x39) == 0x9A1C_E0A8
    ensures AfterByte(0x9A1C_E0A8, 0x38) == 0xF095_8FA4
    ensures AfterByte(0xF095_8FA4, 0x7D) == 0xFFFF_FFFF
  {
  }

  lemma Part9()
    ensures Run(0xCBDC_7872, "1098}") == 0xFFFF_FFFF
  {
    hide AfterByte, CharByte;
    RunOfFive(0xCBDC_7872, "1098}");
    Codes();
    Bytes9();
  }

  // ---------- The whole text ----------

  /** Nothing but a time and a sequence number. */
  function Idle(timestampMs: uint32): Command {
    NO_COMMAND.(timestampMs := timestampMs, sequenceId := 11098)
  }

  const FRONT := "{\"v\":1,\"type\":\"cmd\",\"ts\":"
  const BACK := ",\"seq\":11098}"

  lemma SequenceText()
    ensures Decimal(11098) == "11098"
  {
    assert Decimal(11) == "11";
    assert Decimal(1109) == "1109";
  }

  lemma NoParts(timestampMs: uint32)
    ensures var m := Idle(timestampMs);
            PwmText(m) == "" && FrequencyText(m) == "" && GpioText(m) == ""
    ensures HeadText(Idle(timestampMs)) ==
            "{\"v\":1" + ",\"type\":\"cmd\"" + ",\"ts\":" + Decimal(timestampMs) + ",\"seq\":" + Decimal(11098)
  {
  }

  lemma FrontText()
    ensures FRONT == "{\"v\":1" + ",\"type\":\"cmd\"" + ",\"ts\":"
    ensures BACK == ",\"seq\":" + "11098" + "}"
  {
  }

  lemma Join(front: string, t: string, l: string, q: string, e: string)
    ensures front + t + l + q + "" + "" + "" + e == front + t + (l + q + e)
  {
  }

  lemma IdleText(timestampMs: uint32)
    ensures CommandText(Idle(timestampMs)) == FRONT + Decimal(timestampMs) + BACK
  {
    hide *;
    CommandTextParts(Idle(timestampMs));
    NoParts(timestampMs);
    SequenceText();
    FrontText();
    Join(FRONT, Decimal(timestampMs), ",\"seq\":", "11098", "}");
  }

  lemma TimeTexts()
    ensures Decimal(1067751) == "106775" + "1" && Decimal(1067750) == "106775" + "0"
  {
    assert Decimal(10) == "10";
    assert Decimal(1067) == "1067";
    assert Decimal(106775) == "106775";
  }

  const PIECES := "{\"v\":" + ("1,\"ty" + ("pe\":\"" + ("cmd\","
    + ("\"ts\":" + ("10677" + ("51,\"s" + ("eq\":1" + ("1098}"))))))))

  lemma PiecesJoin()
    ensures FRONT + "1067751" + BACK == PIECES
  {
  }

  /** The register after the text is all ones, so its complement is 0. */
  lemma AllOnes()
    ensures Run(INIT, PIECES) == 0xFFFF_FFFF
  {
    hide Run;
    Part1();
    Part2();
    Part3();
    Part4();
    Part5();
    Part6();
    Part7();
    Part8();
    Part9();
    RunAppend(0xFFFF_FFFF, "{\"v\":", "1,\"ty" + ("pe\":\"" + ("cmd\","
    + ("\"ts\":" + ("10677" + ("51,\"s" + ("eq\":1" + ("1098}"))))))));
    RunAppend(0x8C26_35F9, "1,\"ty", "pe\":\"" + ("cmd\","
    + ("\"ts\":" + ("10677" + ("51,\"s" + ("eq\":1" + ("1098}")))))));
    RunAppend(0x06C1_B1FE, "pe\":\"", "cmd\"," + ("\"ts\":" + ("10677" + ("51,\"s" + ("eq\":1" + ("1098}"))))));
    RunAppend(0xAAD7_76DF, "cmd\",", "\"ts\":" + ("10677" + ("51,\"s" + ("eq\":1" + ("1098}")))));
    RunAppend(0x54B5_0B62, "\"ts\":", "10677" + ("51,\"s" + ("eq\":1" + ("1098}"))));
    RunAppend(0x41E4_05B3, "10677", "51,\"s" + ("eq\":1" + ("1098}")));
    RunAppend(0x4306_7140, "51,\"s", "eq\":1" + ("1098}"));
    RunAppend(0x2A16_8ED4, "eq\":1", "1098}");
  }

  /** A real command whose checksum is 0, so that its message is sent as if it had none. */
  lemma ZeroChecksumOccurs()
    ensures TextChecksum(CommandText(Idle(1067751))) == 0
  {
    hide CommandText, Decimal, AsBytes, MessageBits, AfterBytes, FRONT, BACK, PIECES;
    var text := CommandText(Idle(1067751));
    IdleText(1067751);
    TimeTexts();
    assert "106775" + "1" == "1067751";
    PiecesJoin();
    AllOnes();
    AfterBytesIsFeed(INIT, AsBytes(text));
    ComplementOfOnes();
  }

  lemma ComplementOfOnes()
    ensures !(0xFFFF_FFFF as bv32) == 0
  {
  }

  // ---------- Damage that goes unnoticed ----------

  /** Texts that differ in one character differ within eight consecutive bits. */
  lemma OneCharacterDiffers(a: string, x: char, y: char, b: string)
    ensures DamagedWithin(a + [x] + b, a + [y] + b, 8 * |a|)
  {
    hide AsBytes, PlaceBits;
    AsBytesAppend(a + [x], b);
    AsBytesAppend(a, [x]);
    AsBytesAppend(a + [y], b);
    AsBytesAppend(a, [y]);
    MessageBitsAppend(AsBytes(a) + AsBytes([x]), AsBytes(b));
    MessageBitsAppend(AsBytes(a), AsBytes([x]));
    MessageBitsAppend(AsBytes(a) + AsBytes([y]), AsBytes(b));
    MessageBitsAppend(AsBytes(a), AsBytes([y]));
  }

  lemma BytesDiffer(front: string, back: string)
    ensures AsBytes(front + ['1'] + back) != AsBytes(front + ['0'] + back)
  {
    var a, b := AsBytes(front + ['1'] + back), AsBytes(front + ['0'] + back);
    assert a[|front|] == CharByte('1') && b[|front|] == CharByte('0');
    hide CharByte;
    Codes();
  }

  /**
   * That message with the last digit of its time changed is accepted under its checksum and read as
   * another command.
   */
  lemma DamageIsAccepted()
    ensures var sent, received := CommandText(Idle(1067751)), CommandText(Idle(1067750));
            && |sent| == |received| && AsBytes(sent) != AsBytes(received)
            && DamagedWithin(sent, received, 248)
            && Accepted(received, TextChecksum(sent))
            && Interpreted(ValueRead(received)) == Idle(1067750) != Idle(1067751)
  {
    hide CommandText, Decimal, AsBytes, MessageBits, TextChecksum, Accepted, ValueRead, Interpreted;
    IdleText(1067751);
    IdleText(1067750);
    TimeTexts();
    var front := FRONT + "106775";
    assert |front| == 31;
    assert FRONT + ("106775" + "1") + BACK == front + ['1'] + BACK;
    assert FRONT + ("106775" + "0") + BACK == front + ['0'] + BACK;
    BytesDiffer(front, BACK);
    OneCharacterDiffers(front, '1', '0', BACK);
    ZeroChecksumOccurs();
    CommandRoundTrip(Idle(1067750), 0);
  }
}
