/**
 * A message on its whole way: printed, checksummed, put behind its checksum, sealed, opened, taken
 * apart and read. Sender: hmi_node/main/net/ws_client.c and sensor_node/main/net/ws_server.c;
 * receiver: the handlers of common/net/ws_server.c and common/net/ws_client.c.
 */
module FramePath {
  import opened Bytes
  import opened Json
  import opened Lookup
  import opened Printing
  import opened SecureFrame
  import Commands
  import Numerals
  import SensorDecoding
  import SensorUpdates

  // ---------- Texts as bytes ----------

  /** Characters that are one byte each. */
  predicate Narrow(s: string) {
    forall i :: 0 <= i < |s| ==> s[i] as int < 256
  }

  function TextBytes(text: string): (bytes: seq<byte>)
    ensures |bytes| == |text|
  {
    seq(|text|, i requires 0 <= i < |text| => text[i] as int % 256)
  }

  function BytesText(bytes: seq<byte>): (text: string)
    ensures |text| == |bytes|
  {
    seq(|bytes|, i requires 0 <= i < |bytes| => bytes[i] as char)
  }

  lemma TextSurvives(text: string)
    requires Narrow(text)
    ensures BytesText(TextBytes(text)) == text
  {
  }

  // ---------- The checksum in front ----------

  function Packed(text: string): seq<byte> {
    ToLittleEndian(TextChecksum(text) as int, 4) + TextBytes(text)
  }

  datatype Unpacked = Unpacked(crc: bv32, text: string)

  /** Data too short for a checksum is taken as a message without one. */
  function Unpack(data: seq<byte>): Unpacked {
    if |data| < 4 then Unpacked(0, BytesText(data))
    else Unpacked(ReadUint32(data[..4]) as bv32, BytesText(data[4..]))
  }

  lemma WordSurvives(w: bv32)
    ensures (w as int) as bv32 == w
  {
  }

  lemma PackedIsUnpacked(text: string)
    requires Narrow(text)
    ensures Unpack(Packed(text)) == Unpacked(TextChecksum(text), text)
  {
    hide TextChecksum, ReadUint32, ToLittleEndian;
    var crc := TextChecksum(text);
    Uint32RoundTrip(crc as int);
    WordSurvives(crc);
    TextSurvives(text);
    assert Packed(text)[..4] == ToLittleEndian(crc as int, 4) && Packed(text)[4..] == TextBytes(text);
  }

  // ---------- Printed documents are narrow ----------

  predicate NarrowDoc(d: Doc)
    decreases d
  {
    match d
    case Quoted(text) => Narrow(text)
    case Items(items) => forall i :: 0 <= i < |items| ==> NarrowDoc(items[i])
    case Fields(fields) => forall i :: 0 <= i < |fields| ==> Narrow(fields[i].0) && NarrowDoc(fields[i].1)
    case _ => true
  }

  lemma DigitsAreNarrow(s: string)
    requires Numerals.AllDigits(s)
    ensures Narrow(s)
  {
  }

  lemma HundredthsAreNarrow(negative: bool, count: nat)
    ensures Narrow(Print(Hundredths(negative, count)))
  {
    DigitsAreNarrow(Numerals.Decimal(count / 100));
    DigitsAreNarrow(Numerals.Fixed(count % 100, 2));
  }

  lemma NarrowAppend(a: string, b: string)
    requires Narrow(a) && Narrow(b)
    ensures Narrow(a + b)
  {
  }

  lemma {:induction false} PrintIsNarrow(d: Doc)
    requires NarrowDoc(d)
    ensures Narrow(Print(d))
    decreases d, 1
  {
    match d {
      case Nat(n) => DigitsAreNarrow(Numerals.Decimal(n));
      case Hundredths(negative, count) => HundredthsAreNarrow(negative, count);
      case Flag(truth) =>
      case Quoted(text) =>
      case Items(items) => ItemsAreNarrow(items);
      case Fields(fields) => FieldsAreNarrow(fields);
    }
  }

  lemma {:induction false} ItemsAreNarrow(items: seq<Doc>)
    requires forall i :: 0 <= i < |items| ==> NarrowDoc(items[i])
    ensures Narrow(PrintItems(items))
    decreases items, 0
  {
    hide Print;
    if |items| > 0 {
      PrintIsNarrow(items[0]);
      ItemsAreNarrow(items[1..]);
      NarrowAppend(",", PrintItems(items[1..]));
      NarrowAppend(Print(items[0]), if |items| == 1 then "" else "," + PrintItems(items[1..]));
    }
  }

  lemma {:induction false} FieldsAreNarrow(fields: seq<(string, Doc)>)
    requires forall i :: 0 <= i < |fields| ==> Narrow(fields[i].0) && NarrowDoc(fields[i].1)
    ensures Narrow(PrintFields(fields))
    decreases fields, 0
  {
    hide Print;
    if |fields| > 0 {
      var field := fields[0];
      assert field in fields && field.1 < field;
      PrintIsNarrow(field.1);
      NarrowAppend("\"" + field.0 + "\":", Print(field.1));
      FieldsAreNarrow(fields[1..]);
      NarrowAppend(",", PrintFields(fields[1..]));
      NarrowAppend(PrintField(field), if |fields| == 1 then "" else "," + PrintFields(fields[1..]));
    }
  }

  // ---------- The whole way ----------

  /** What the receiver takes out of a frame. */
  function Received(aead: Aead, key: seq<byte>, frame: seq<byte>, last: uint64): Option<Unpacked> {
    match Open(aead, key, frame, last)
    case Opened(plain, _) => Some(Unpack(plain))
    case Refused(_) => None
  }

  /** A sealed message with a new counter arrives as it was, checksum included. */
  lemma SealedTextArrives(aead: Aead, key: seq<byte>, counter: uint64, iv: seq<byte>, text: string, last: uint64)
    requires Lawful(aead) && |iv| == IV_LEN && last < counter && Narrow(text)
    ensures Received(aead, key, Seal(aead, key, counter, iv, Packed(text)), last)
         == Some(Unpacked(TextChecksum(text), text))
  {
    hide Seal, Open, Packed, Unpack, TextChecksum;
    SealOpens(aead, key, counter, iv, Packed(text), last);
    PackedIsUnpacked(text);
  }

  lemma NarrowNames()
    ensures Narrow("v") && Narrow("type") && Narrow("cmd") && Narrow("ts") && Narrow("seq")
    ensures Narrow("set_pwm") && Narrow("ch") && Narrow("duty") && Narrow("pwm_freq") && Narrow("freq")
    ensures Narrow("write_gpio") && Narrow("dev") && Narrow("port") && Narrow("mask") && Narrow("value")
    ensures Narrow("mcp0") && Narrow("mcp1") && Narrow("A") && Narrow("B")
  {
  }

  lemma CommandIsNarrow(m: Commands.Command)
    ensures Narrow(Commands.CommandText(m))
  {
    hide Narrow;
    NarrowNames();
    assert NarrowDoc(Commands.PwmDoc(m));
    assert NarrowDoc(Commands.FrequencyDoc(m));
    assert NarrowDoc(Commands.GpioDoc(m));
    assert NarrowDoc(Fields(Commands.HeadFields(m)));
    assert NarrowDoc(Fields(Commands.PartFields(m)));
    Commands.CommandTextIsPrinted(m);
    PrintIsNarrow(Fields(Commands.CommandFields(m)));
  }

  /** Every command that is sent is read by a receiver that has not seen its counter. */
  lemma CommandArrives(aead: Aead, key: seq<byte>, counter: uint64, iv: seq<byte>, m: Commands.Command, last: uint64)
    requires Lawful(aead) && |iv| == IV_LEN && last < counter
    ensures var got := Received(aead, key, Seal(aead, key, counter, iv, Packed(Commands.CommandText(m))), last);
            && got.Some? && Accepted(got.value.text, got.value.crc)
            && Commands.Interpreted(ValueRead(got.value.text)) == Commands.Normalised(m)
  {
    hide Received, Seal, Packed, TextChecksum, Accepted;
    hide Commands.CommandText, Commands.Interpreted, Commands.Normalised;
    var text := Commands.CommandText(m);
    CommandIsNarrow(m);
    SealedTextArrives(aead, key, counter, iv, text, last);
    Commands.CommandRoundTrip(m, TextChecksum(text));
  }

  lemma SensorNames()
    ensures Narrow("sensor_update") && Narrow("sht20") && Narrow("id") && Narrow("t") && Narrow("rh") && Narrow("ok")
    ensures Narrow("ds18b20") && Narrow("rom") && Narrow("gpio") && Narrow("pwm") && Narrow("pca9685")
  {
  }

  lemma {:induction false} HexIsNarrow(data: seq<byte>)
    ensures Narrow(Numerals.Hex(data, true))
  {
    if |data| > 0 {
      HexIsNarrow(data[1..]);
    }
  }

  lemma ReadingIsNarrow(r: SensorUpdates.Sht20Reading)
    requires Narrow(r.id)
    ensures NarrowDoc(SensorUpdates.Sht20Doc(r))
  {
    hide Narrow, SensorUpdates.Nearest;
    SensorNames();
  }

  lemma ProbeIsNarrow(r: SensorUpdates.Ds18b20Reading)
    ensures NarrowDoc(SensorUpdates.Ds18b20Doc(r))
  {
    hide Narrow, SensorUpdates.Nearest, Numerals.Hex;
    SensorNames();
    HexIsNarrow(r.rom);
  }

  lemma ReadingsAreNarrow(m: SensorUpdates.SensorUpdate)
    requires SensorUpdates.WellFormed(m) && NarrowIds(m)
    ensures NarrowDoc(Items(SensorUpdates.Sht20Docs(m))) && NarrowDoc(Items(SensorUpdates.Ds18b20Docs(m)))
  {
    hide Narrow, SensorUpdates.Sht20Doc, SensorUpdates.Ds18b20Doc;
    forall i | 0 <= i < m.sht20Count
      ensures NarrowDoc(SensorUpdates.Sht20Docs(m)[i])
    {
      ReadingIsNarrow(m.sht20[i]);
    }
    forall i | 0 <= i < m.ds18b20Count
      ensures NarrowDoc(SensorUpdates.Ds18b20Docs(m)[i])
    {
      ProbeIsNarrow(m.ds18b20[i]);
    }
  }

  lemma StateIsNarrow(m: SensorUpdates.SensorUpdate)
    requires SensorUpdates.WellFormed(m)
    ensures NarrowDoc(SensorUpdates.PortsDoc(m)) && NarrowDoc(SensorUpdates.PwmDoc(m))
  {
    hide Narrow;
    NarrowNames();
    SensorNames();
    assert NarrowDoc(SensorUpdates.PortDoc(m.mcp[0]));
    assert NarrowDoc(SensorUpdates.PortDoc(m.mcp[1]));
    assert NarrowDoc(Items(SensorUpdates.DutyDocs(m)));
    assert NarrowDoc(SensorUpdates.ChipDoc(m));
  }

  predicate NarrowIds(m: SensorUpdates.SensorUpdate)
    requires SensorUpdates.WellFormed(m)
  {
    forall i :: 0 <= i < m.sht20Count ==> Narrow(m.sht20[i].id)
  }

  lemma FieldsAppend(a: seq<(string, Doc)>, b: seq<(string, Doc)>)
    requires NarrowDoc(Fields(a)) && NarrowDoc(Fields(b))
    ensures NarrowDoc(Fields(a + b))
  {
  }

  lemma UpdateIsNarrow(m: SensorUpdates.SensorUpdate)
    requires SensorUpdates.WellFormed(m) && NarrowIds(m)
    ensures Narrow(SensorUpdates.UpdateText(m))
  {
    hide Narrow, NarrowIds, Print, SensorUpdates.Sht20Docs, SensorUpdates.Ds18b20Docs,
      SensorUpdates.PortsDoc, SensorUpdates.PwmDoc, SensorUpdates.UpdateText;
    NarrowNames();
    SensorNames();
    ReadingsAreNarrow(m);
    StateIsNarrow(m);
    assert NarrowDoc(Fields(SensorUpdates.HeadFields(m)));
    assert NarrowDoc(Fields(SensorUpdates.BodyFields(m)));
    FieldsAppend(SensorUpdates.HeadFields(m), SensorUpdates.BodyFields(m));
    SensorUpdates.UpdateTextIsPrinted(m);
    PrintIsNarrow(SensorUpdates.UpdateDoc(m));
  }

  /** Every sensor update that is sent is read by a receiver that has not seen its counter. */
  lemma UpdateArrives(aead: Aead, key: seq<byte>, counter: uint64, iv: seq<byte>,
                      m: SensorUpdates.SensorUpdate, last: uint64)
    requires Lawful(aead) && |iv| == IV_LEN && last < counter
    requires SensorUpdates.WellFormed(m) && SensorDecoding.PlainIds(m) && NarrowIds(m)
    ensures var got := Received(aead, key, Seal(aead, key, counter, iv, Packed(SensorUpdates.UpdateText(m))), last);
            && got.Some? && Accepted(got.value.text, got.value.crc)
            && SensorDecoding.SameButForRounding(SensorDecoding.Interpreted(ValueRead(got.value.text)), m)
  {
    hide Received, Seal, Packed, TextChecksum, Accepted, SensorUpdates.UpdateText, SensorDecoding.Interpreted,
      SensorDecoding.SameButForRounding, SensorDecoding.PlainIds, NarrowIds;
    var text := SensorUpdates.UpdateText(m);
    UpdateIsNarrow(m);
    SealedTextArrives(aead, key, counter, iv, text, last);
    SensorDecoding.SensorRoundTrip(m, TextChecksum(text));
  }
}
