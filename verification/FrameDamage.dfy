/**
 * Damage to a message that travels without encryption, where the checksum in front of the text may be
 * hit as well as the text.
 */
module FrameDamage {
  import opened Bytes
  import opened Crc32
  import opened FramePath
  import opened Lookup
  import opened Printing
  import opened ShiftRegister

  /** The four bytes of the checksum field, low byte first. */
  function FieldBytes(crc: bv32): (bytes: seq<bv8>)
    ensures |bytes| == 4
  {
    [(crc & 0xFF) as bv8, ((crc >> 8) & 0xFF) as bv8, ((crc >> 16) & 0xFF) as bv8, (crc >> 24) as bv8]
  }

  lemma FieldDistinct(a: bv32, b: bv32)
    requires FieldBytes(a) == FieldBytes(b)
    ensures a == b
  {
    var x, y := FieldBytes(a), FieldBytes(b);
    assert x[0] == y[0] && x[1] == y[1] && x[2] == y[2] && x[3] == y[3];
  }

  lemma FourBytes(a: bv8, b: bv8, c: bv8, d: bv8)
    ensures ((d as bv32 << 24) | (c as bv32 << 16) | (b as bv32 << 8) | (a as bv32)) as int
         == 0x100_0000 * (d as int) + 0x1_0000 * (c as int) + 0x100 * (b as int) + a as int
  {
  }

  lemma FieldJoined(crc: bv32)
    ensures var f := FieldBytes(crc);
            crc == (f[3] as bv32 << 24) | (f[2] as bv32 << 16) | (f[1] as bv32 << 8) | (f[0] as bv32)
  {
  }

  lemma ByteRange(b: bv8)
    ensures 0 <= b as int < 256
  {
  }

  lemma LowByteFirst(a: byte, n: nat, k: nat)
    ensures ToLittleEndian(a + 0x100 * n, k + 1) == [a] + ToLittleEndian(n, k)
    ensures ToLittleEndian(n, 0) == []
  {
  }

  lemma LittleEndianOfFour(a: byte, b: byte, c: byte, d: byte, n: nat)
    requires var b0: int, b1: int, b2: int, b3: int := a, b, c, d;
             n == b0 + 0x100 * b1 + 0x1_0000 * b2 + 0x100_0000 * b3
    ensures ToLittleEndian(n, 4) == [a, b, c, d]
  {
    hide ToLittleEndian;
    var b1: nat, b2: nat, b3: nat := b, c, d;
    LowByteFirst(d, 0, 0);
    LowByteFirst(c, b3, 1);
    LowByteFirst(b, b2 + 0x100 * b3, 2);
    LowByteFirst(a, b1 + 0x100 * (b2 + 0x100 * b3), 3);
  }

  function ByteOf(b: bv8): (n: byte) {
    ByteRange(b);
    b as int
  }

  lemma FieldValue(crc: bv32)
    ensures var f := FieldBytes(crc);
            var b0: int, b1: int, b2: int, b3: int := ByteOf(f[0]), ByteOf(f[1]), ByteOf(f[2]), ByteOf(f[3]);
            crc as int == b0 + 0x100 * b1 + 0x1_0000 * b2 + 0x100_0000 * b3
  {
    hide FieldBytes;
    var f := FieldBytes(crc);
    FieldJoined(crc);
    FourBytes(f[0], f[1], f[2], f[3]);
  }

  lemma FieldInOrder(crc: bv32)
    ensures var f := FieldBytes(crc);
            ToLittleEndian(crc as int, 4) == [ByteOf(f[0]), ByteOf(f[1]), ByteOf(f[2]), ByteOf(f[3])]
  {
    var f := FieldBytes(crc);
    FieldValue(crc);
    hide *;
    LittleEndianOfFour(ByteOf(f[0]), ByteOf(f[1]), ByteOf(f[2]), ByteOf(f[3]), crc as int);
  }

  /** These are the bytes that the sender puts in front of the text. */
  lemma FieldIsSent(text: string)
    ensures var f := FieldBytes(TextChecksum(text));
            Packed(text) == [ByteOf(f[0]), ByteOf(f[1]), ByteOf(f[2]), ByteOf(f[3])] + TextBytes(text)
  {
    hide FieldBytes, TextChecksum, ToLittleEndian, TextBytes, ByteOf;
    FieldInOrder(TextChecksum(text));
  }

  /** The bits of a message on the wire: checksum first, then the text. */
  function WireBits(u: Unpacked): (bits: seq<bool>)
    ensures |bits| == 32 + 8 * |u.text|
  {
    MessageBits(FieldBytes(u.crc)) + MessageBits(AsBytes(u.text))
  }

  /** A message with its own checksum. */
  function Whole(text: string): Unpacked {
    Unpacked(TextChecksum(text), text)
  }

  /**
   * Whatever happens to field and text, the message is accepted exactly if it starts with a value and
   * the field became 0 or changed just as the change of the text changes the checksum.
   */
  lemma DamageIsAcceptedExactlyWhen(text: string, got: Unpacked)
    requires |got.text| == |text|
    ensures Accepted(got.text, got.crc) <==>
      && ValueRead(got.text).Some?
      && (got.crc == 0 || Xor(TextChecksum(text), got.crc)
            == Feed(REGISTER, 0, XorBits(MessageBits(AsBytes(text)), MessageBits(AsBytes(got.text)))))
  {
    hide Xor, ValueRead, MessageBits, Feed;
    var sent, other := TextChecksum(text), TextChecksum(got.text);
    ChecksumDifference(AsBytes(text), AsBytes(got.text));
    XorCancels(sent, other, got.crc);
  }

  lemma XorCancels(a: bv32, b: bv32, c: bv32)
    ensures Xor(a, c) == Xor(a, b) <==> b == c
  {
    hide Xor;
    XorFacts(a, a, b);
    XorFacts(a, a, c);
    XorFacts(b, 0, 0);
    XorFacts(c, 0, 0);
    XorFacts(0, b, 0);
    XorFacts(0, c, 0);
  }

  /**
   * A burst of up to 32 bits that lies in the text is accepted only if the checksum was 0; one that lies
   * in the field only if it makes the field 0, and then the text is unharmed.
   */
  lemma BurstIsAcceptedExactlyWhen(text: string, got: Unpacked, start: nat)
    requires |got.text| == |text| && WireBits(got) != WireBits(Whole(text))
    requires DifferOnlyWithin(WireBits(Whole(text)), WireBits(got), start, 32)
    ensures start >= 32 ==>
      && got.crc == TextChecksum(text) && AsBytes(got.text) != AsBytes(text)
      && (Accepted(got.text, got.crc) <==> TextChecksum(text) == 0 && ValueRead(got.text).Some?)
    ensures start == 0 ==>
      && got.crc != TextChecksum(text) && AsBytes(got.text) == AsBytes(text)
      && (Accepted(got.text, got.crc) <==> got.crc == 0 && ValueRead(got.text).Some?)
  {
    hide AsBytes, MessageBits, FieldBytes, ValueRead, Checksum;
    var sentField, field := MessageBits(FieldBytes(TextChecksum(text))), MessageBits(FieldBytes(got.crc));
    var sentText, gotText := MessageBits(AsBytes(text)), MessageBits(AsBytes(got.text));
    var x, y := WireBits(Whole(text)), WireBits(got);
    assert x[..32] == sentField && x[32..] == sentText && y[..32] == field && y[32..] == gotText;
    if start >= 32 {
      assert sentField == field;
      MessageBitsDistinct(FieldBytes(TextChecksum(text)), FieldBytes(got.crc));
      FieldDistinct(TextChecksum(text), got.crc);
      forall i | 0 <= i < |sentText| && !(start - 32 <= i < start)
        ensures sentText[i] == gotText[i]
      {
        assert x[32 + i] == y[32 + i];
      }
      DamagedPayloadExactlyWhen(text, got.text, start - 32);
    } else if start == 0 {
      forall i | 0 <= i < |sentText|
        ensures sentText[i] == gotText[i]
      {
        assert x[32 + i] == y[32 + i];
      }
      assert sentText == gotText;
      MessageBitsDistinct(AsBytes(text), AsBytes(got.text));
    }
  }
}
