/** The JSON decoder for sensor updates in common/proto/messages.c, and its round trip with the encoder. */
module SensorDecoding {
  import opened Bytes
  import opened Numerals
  import opened Json
  import opened JsonText
  import opened Lookup
  import opened Printing
  import opened SensorUpdates
  import Base32

  // ---------- Parts ----------

  function SkipSpace(s: string): (rest: string)
    ensures |rest| <= |s|
  {
    if |s| > 0 && Base32.IsSpace(s[0]) then SkipSpace(s[1..]) else s
  }

  /**
   * One scan of a hexadecimal number of at most two characters, after section 7.21.6.2 of the C
   * standard: blanks before it are skipped, one of the characters may be a sign, and a 0x without a
   * digit after it does not match. The number is cut to a byte.
   */
  function ScanByte(s: string): Option<byte> {
    var t := SkipSpace(s);
    if |t| == 0 then None
    else
      var first := HexValue(t[0]);
      var second := if |t| > 1 then HexValue(t[1]) else 255;
      if t[0] == '+' || t[0] == '-' then
        if second > 15 then None else Some(if t[0] == '+' then second else (256 - second) % 256)
      else if first > 15 || (t[0] == '0' && |t| > 1 && (t[1] == 'x' || t[1] == 'X')) then None
      else Some(if second > 15 then first else first * 16 + second)
  }

  /** Two digits give a byte, and one digit in front of something else its value. */
  lemma DigitsScan(high: char, low: char, rest: string)
    requires HexValue(high) < 16 && !(high == '0' && (low == 'x' || low == 'X'))
    ensures ScanByte([high, low] + rest)
         == Some(if HexValue(low) < 16 then HexValue(high) * 16 + HexValue(low) else HexValue(high))
  {
    assert !Base32.IsSpace(high);
  }

  /** A sign takes the place of one digit, and blanks in front do not count. What else there is does not scan. */
  lemma SignsScan(s: string)
    requires |s| > 0
    ensures s[0] == '+' ==> ScanByte(s) == if |s| > 1 && HexValue(s[1]) < 16 then Some(HexValue(s[1])) else None
    ensures s[0] == '-' && |s| > 1 && 0 < HexValue(s[1]) < 16 ==> ScanByte(s) == Some(256 - HexValue(s[1]))
    ensures s[0] == ' ' ==> ScanByte(s) == ScanByte(s[1..])
    ensures s[0] == '0' && |s| > 1 && s[1] == 'x' ==> ScanByte(s) == None
    ensures 'g' <= s[0] <= 'z' ==> ScanByte(s) == None
    ensures ScanByte("") == None
  {
  }

  /** How many of the first n pairs are read before one cannot be. */
  function ScannedPairs(s: string, n: nat): (k: nat)
    requires 2 * n <= |s|
    ensures k <= n
    ensures forall i :: 0 <= i < k ==> ScanByte(s[2 * i..]).Some?
    ensures k < n ==> ScanByte(s[2 * k..]) == None
  {
    if n == 0 then 0
    else
      var k := ScannedPairs(s, n - 1);
      if k == n - 1 && ScanByte(s[2 * k..]).Some? then n else k
  }

  /** The eight bytes after reading a ROM text over earlier bytes. */
  function RomAfter(s: string, before: seq<byte>): (rom: seq<byte>)
    requires |before| == 8
    ensures |rom| == 8
  {
    if |s| < 16 then before
    else
      var k := ScannedPairs(s, 8);
      seq(8, i requires 0 <= i < 8 => if i < k then ScanByte(s[2 * i..]).value else before[i])
  }

  /** Bytes are filled in up to the first pair that does not scan, and the others stay. */
  lemma RomIsFilledIn(s: string, before: seq<byte>, i: nat)
    requires |before| == 8 && i < 8
    ensures RomAfter(s, before)[i] ==
            if |s| >= 16 && forall j :: 0 <= j <= i ==> ScanByte(s[2 * j..]).Some?
            then ScanByte(s[2 * i..]).value else before[i]
  {
    hide ScanByte;
  }

  lemma ScanStarts(s: string)
    ensures ScannedPairs(s, 0) == 0
  {
  }

  lemma ScanStep(s: string, i: nat)
    requires 2 * i + 2 <= |s| && ScannedPairs(s, i) == i && ScanByte(s[2 * i..]).Some?
    ensures ScannedPairs(s, i + 1) == i + 1
  {
    hide ScanByte;
  }

  method ParseRom(s: string, out: array<byte>) returns (ok: bool)
    requires out.Length == 8
    modifies out
    ensures ok <==> |s| >= 16 && ScannedPairs(s, 8) == 8
    ensures out[..] == RomAfter(s, old(out[..]))
  {
    hide ScanByte, ScannedPairs;
    if |s| < 16 {
      return false;
    }
    ScanStarts(s);
    var i := 0;
    while i < 8
      invariant 0 <= i <= 8
      invariant ScannedPairs(s, i) == i
      invariant forall j :: 0 <= j < i ==> out[j] == ScanByte(s[2 * j..]).value
      invariant forall j :: i <= j < 8 ==> out[j] == old(out[j])
    {
      var value := ScanByte(s[2 * i..]);
      if value.None? {
        StopsAt(s, i, 8);
        return false;
      }
      ScanStep(s, i);
      out[i] := value.value;
      i := i + 1;
    }
    ok := true;
  }

  lemma {:induction false} StopsAt(s: string, k: nat, n: nat)
    requires k < n && 2 * n <= |s|
    requires ScannedPairs(s, k) == k && ScanByte(s[2 * k..]).None?
    ensures ScannedPairs(s, n) == k
  {
    if k + 1 < n {
      StopsAt(s, k, n - 1);
    }
  }

  /** A text cut to the room of an id. */
  function IdOf(text: Option<string>): (id: string)
    ensures |id| <= 15 && (text.Some? ==> id <= text.value && (|text.value| <= 15 ==> id == text.value))
    ensures text.Some? && |text.value| > 15 ==> |id| == 15
  {
    match text
    case None => ""
    case Some(s) => if |s| <= 15 then s else s[..15]
  }

  function AsReal(v: Option<Value>): real {
    if v.Some? && v.value.Number? then v.value.number else 0.0
  }

  function Sht20Of(item: Value): Sht20Reading {
    var v := Some(item);
    Sht20Reading(IdOf(TextOf(Member(v, "id"))), AsReal(Member(v, "t")), AsReal(Member(v, "rh")),
                 Member(v, "ok") == Some(Boolean(true)))
  }

  /** A value of the wrong type counts as a missing one: only true is valid, and only numbers and texts count. */
  lemma PartsOfReading(v: Value)
    ensures Sht20Of(Object([])) == NO_SHT20
    ensures Sht20Of(Object([("ok", v)])) == NO_SHT20.(valid := v == Boolean(true))
    ensures Sht20Of(Object([("t", v)])) == NO_SHT20.(temperature := if v.Number? then v.number else 0.0)
    ensures Sht20Of(Object([("rh", v)])) == NO_SHT20.(humidity := if v.Number? then v.number else 0.0)
    ensures v.Text? && |v.text| <= 15 ==> Sht20Of(Object([("id", v)])) == NO_SHT20.(id := v.text)
    ensures !v.Text? ==> Sht20Of(Object([("id", v)])) == NO_SHT20
  {
    NamesOfParts();
    hide SameName, Member;
    NothingFound("ok");
    NothingFound("t");
    NothingFound("rh");
    NothingFound("id");
    forall n, name: string
      ensures Member(Some(Object([(n, v)])), name) == if SameName(n, name) then Some(v) else None
    {
      OneField(n, v, name);
    }
  }

  lemma NamesOfParts()
    ensures SameName("ok", "ok") && !SameName("ok", "t") && !SameName("ok", "rh") && !SameName("ok", "id")
    ensures SameName("t", "t") && !SameName("t", "ok") && !SameName("t", "rh") && !SameName("t", "id")
    ensures SameName("rh", "rh") && !SameName("rh", "ok") && !SameName("rh", "t") && !SameName("rh", "id")
    ensures SameName("id", "id") && !SameName("id", "ok") && !SameName("id", "t") && !SameName("id", "rh")
  {
    assert "ok"[0] == 'o' && "rh"[0] == 'r' && "id"[0] == 'i';
  }

  function Ds18b20Of(item: Value): Ds18b20Reading {
    var rom := TextOf(Member(Some(item), "rom"));
    Ds18b20Reading(if rom.Some? then RomAfter(rom.value, NO_DS18B20.rom) else NO_DS18B20.rom,
                   AsReal(Member(Some(item), "t")))
  }

  function PortsOf(v: Option<Value>): PortState {
    PortState(AsUint(Member(v, "A"), 0x1_0000), AsUint(Member(v, "B"), 0x1_0000))
  }

  function DutyOf(item: Value): uint16 {
    AsUint(Some(item), 0x1_0000)
  }

  function ItemsOf(v: Option<Value>): seq<Value> {
    if v.Some? && v.value.List? then v.value.items else []
  }

  function Min(a: nat, b: nat): nat {
    if a < b then a else b
  }

  /** At most two readings; the rest of the room stays empty. */
  function Sht20sOf(items: seq<Value>): (readings: seq<Sht20Reading>)
    ensures |readings| == 2 && forall i :: 0 <= i < 2 ==> |readings[i].id| <= 15
  {
    seq(2, i requires 0 <= i < 2 => if i < |items| then Sht20Of(items[i]) else NO_SHT20)
  }

  function Ds18b20sOf(items: seq<Value>): (readings: seq<Ds18b20Reading>)
    ensures |readings| == 4 && forall i :: 0 <= i < 4 ==> |readings[i].rom| == 8
  {
    seq(4, i requires 0 <= i < 4 => if i < |items| then Ds18b20Of(items[i]) else NO_DS18B20)
  }

  function DutiesOf(items: seq<Value>): (duty: seq<uint16>)
    ensures |duty| == 16
  {
    seq(16, i requires 0 <= i < 16 => if i < |items| then DutyOf(items[i]) else 0)
  }

  /** The update that a parsed message stands for; what is missing is zero, what is too much is dropped. */
  function Interpreted(root: Option<Value>): (m: SensorUpdate)
    ensures WellFormed(m)
  {
    var sht20, ds18b20 := ItemsOf(Member(root, "sht20")), ItemsOf(Member(root, "ds18b20"));
    var gpio, chip := Member(root, "gpio"), Member(Member(root, "pwm"), "pca9685");
    SensorUpdate(
      AsUint(Member(root, "ts"), TWO32),
      AsUint(Member(root, "seq"), TWO32),
      Min(|sht20|, 2),
      Sht20sOf(sht20),
      Min(|ds18b20|, 4),
      Ds18b20sOf(ds18b20),
      [PortsOf(Member(gpio, "mcp0")), PortsOf(Member(gpio, "mcp1"))],
      AsUint(Member(chip, "freq"), 0x1_0000),
      DutiesOf(ItemsOf(Member(chip, "duty"))))
  }

  /** Whatever was read, slots that are not counted are empty. */
  lemma NothingAboveCounts(root: Option<Value>)
    ensures var m := Interpreted(root);
            && (forall i :: m.sht20Count <= i < 2 ==> m.sht20[i] == NO_SHT20)
            && (forall i :: m.ds18b20Count <= i < 4 ==> m.ds18b20[i] == NO_DS18B20)
  {
    hide Sht20Of, Ds18b20Of, DutyOf, Member;
  }

  // ---------- The decoder ----------

  method ReadSht20s(items: seq<Value>) returns (readings: seq<Sht20Reading>, count: nat)
    ensures count == Min(|items|, 2)
    ensures readings == Sht20sOf(items)
  {
    hide Sht20Of;
    readings, count := NO_UPDATE.sht20, 0;
    while count < |items| && count < 2
      invariant 0 <= count <= Min(|items|, 2) && |readings| == 2
      invariant forall i :: 0 <= i < 2 ==> readings[i] == if i < count then Sht20Of(items[i]) else NO_SHT20
    {
      readings := readings[count := Sht20Of(items[count])];
      count := count + 1;
    }
  }

  method ReadDs18b20s(items: seq<Value>) returns (readings: seq<Ds18b20Reading>, count: nat)
    ensures count == Min(|items|, 4)
    ensures readings == Ds18b20sOf(items)
  {
    hide RomAfter, Member;
    readings, count := NO_UPDATE.ds18b20, 0;
    while count < |items| && count < 4
      invariant 0 <= count <= Min(|items|, 4) && |readings| == 4
      invariant forall i :: 0 <= i < 4 ==> readings[i] == if i < count then Ds18b20Of(items[i]) else NO_DS18B20
    {
      var bytes := new byte[8](_ => 0);
      assert bytes[..] == NO_DS18B20.rom;
      var rom := TextOf(Member(Some(items[count]), "rom"));
      if rom.Some? {
        var _ := ParseRom(rom.value, bytes);
      }
      var reading := Ds18b20Reading(bytes[..], AsReal(Member(Some(items[count]), "t")));
      assert reading == Ds18b20Of(items[count]);
      readings := readings[count := reading];
      count := count + 1;
    }
  }

  method ReadDuties(items: seq<Value>) returns (duty: seq<uint16>)
    ensures duty == DutiesOf(items)
  {
    duty := NO_UPDATE.duty;
    var i := 0;
    while i < |items| && i < 16
      invariant 0 <= i <= Min(|items|, 16) && |duty| == 16
      invariant forall k :: 0 <= k < 16 ==> duty[k] == if k < i then DutyOf(items[k]) else 0
    {
      duty := duty[i := DutyOf(items[i])];
      i := i + 1;
    }
  }

  /** What is not an object has no members, and missing parts are zero. */
  lemma AbsentParts(v: Option<Value>, name: string)
    requires !IsObject(v)
    ensures Member(v, name) == None && PortsOf(v) == PortState(0, 0)
    ensures AsUint(None, 0x1_0000) == 0 && DutiesOf(ItemsOf(None)) == NO_UPDATE.duty
  {
  }

  method DecodeSensorUpdate(payload: string, expectedCrc: bv32, previous: SensorUpdate)
    returns (ok: bool, out: SensorUpdate)
    ensures ok <==> Accepted(payload, expectedCrc)
    ensures ok ==> out == Interpreted(ValueRead(payload))
    ensures !ok ==> out == previous || out == NO_UPDATE
  {
    hide TextChecksum, ParseValue, Member, Sht20sOf, Ds18b20sOf, DutiesOf, ItemsOf, PortsOf, AsUint;
    if expectedCrc != 0 {
      var crc := TextChecksum(payload);
      if crc != expectedCrc {
        return false, previous;
      }
    }
    out := NO_UPDATE;
    var parsed := ParseValue(payload);
    if parsed.Failed? {
      return false, out;
    }
    var root := Some(parsed.value);
    out := out.(timestampMs := AsUint(Member(root, "ts"), TWO32), sequenceId := AsUint(Member(root, "seq"), TWO32));
    var sht20, sht20Count := ReadSht20s(ItemsOf(Member(root, "sht20")));
    out := out.(sht20 := sht20, sht20Count := sht20Count);
    var ds18b20, ds18b20Count := ReadDs18b20s(ItemsOf(Member(root, "ds18b20")));
    out := out.(ds18b20 := ds18b20, ds18b20Count := ds18b20Count);
    var gpio := Member(root, "gpio");
    if IsObject(gpio) {
      var mcp0, mcp1 := Member(gpio, "mcp0"), Member(gpio, "mcp1");
      if IsObject(mcp0) {
        out := out.(mcp := out.mcp[0 := PortsOf(mcp0)]);
      } else {
        AbsentParts(mcp0, "A");
      }
      if IsObject(mcp1) {
        out := out.(mcp := out.mcp[1 := PortsOf(mcp1)]);
      } else {
        AbsentParts(mcp1, "A");
      }
    } else {
      AbsentParts(gpio, "mcp0");
      AbsentParts(gpio, "mcp1");
      AbsentParts(None, "A");
    }
    var pwm := Member(root, "pwm");
    if IsObject(pwm) {
      var chip := Member(pwm, "pca9685");
      if IsObject(chip) {
        out := out.(frequency := AsUint(Member(chip, "freq"), 0x1_0000));
        var duty := ReadDuties(ItemsOf(Member(chip, "duty")));
        out := out.(duty := duty);
      } else {
        AbsentParts(chip, "freq");
        AbsentParts(chip, "duty");
      }
    } else {
      AbsentParts(pwm, "pca9685");
      AbsentParts(None, "freq");
      AbsentParts(None, "duty");
    }
    ok := true;
  }

  // ---------- Round trip ----------

  lemma {:induction false} HexAt(data: seq<byte>, i: nat, upper: bool)
    requires i < |data|
    ensures Hex(data, upper)[2 * i] == HexDigit(data[i] / 16, upper)
    ensures Hex(data, upper)[2 * i + 1] == HexDigit(data[i] % 16, upper)
  {
    if i > 0 {
      HexAt(data[1..], i - 1, upper);
    }
  }

  lemma {:induction false} AllScan(s: string, n: nat)
    requires 2 * n <= |s| && forall i :: 0 <= i < n ==> ScanByte(s[2 * i..]).Some?
    ensures ScannedPairs(s, n) == n
  {
    hide ScanByte;
    if n > 0 {
      AllScan(s, n - 1);
    }
  }

  lemma ScannedByte(b: byte, rest: string)
    ensures ScanByte([HexDigit(b / 16, true), HexDigit(b % 16, true)] + rest) == Some(b)
  {
    HexDigitRoundTrip(b / 16, true);
    HexDigitRoundTrip(b % 16, true);
  }

  /** The printed ROM code scans to the ROM code, whatever was there before. */
  lemma RomRoundTrip(rom: seq<byte>, before: seq<byte>)
    requires |rom| == 8 && |before| == 8
    ensures RomAfter(Hex(rom, true), before) == rom
  {
    hide ScanByte, Hex, HexDigit, ScannedPairs;
    var s := Hex(rom, true);
    forall i | 0 <= i < 8
      ensures ScanByte(s[2 * i..]) == Some(rom[i])
    {
      HexAt(rom, i, true);
      var rest := s[2 * i + 2..];
      assert s[2 * i..] == [HexDigit(rom[i] / 16, true), HexDigit(rom[i] % 16, true)] + rest;
      ScannedByte(rom[i], rest);
    }
    AllScan(s, 8);
    assert forall i :: 0 <= i < 8 ==> RomAfter(s, before)[i] == rom[i];
  }

  predicate Near(x: real, y: real) {
    -0.005 <= x - y <= 0.005
  }

  lemma Sht20RoundTrip(r: Sht20Reading)
    requires |r.id| <= 15
    ensures var back := Sht20Of(ValueOf(Sht20Doc(r)));
            && back.id == r.id && back.valid == r.valid
            && Near(back.temperature, r.temperature) && Near(back.humidity, r.humidity)
  {
    var fields := Sht20Doc(r).fields;
    assert "id"[0] == 'i' && "rh"[0] == 'r' && "ok"[0] == 'o';
    MemberAt(fields, 0, "id");
    MemberAt(fields, 1, "t");
    MemberAt(fields, 2, "rh");
    MemberAt(fields, 3, "ok");
    hide Member, SameName, TwoPlaces;
    TwoPlacesError(r.temperature);
    TwoPlacesError(r.humidity);
  }

  lemma Ds18b20RoundTrip(r: Ds18b20Reading)
    requires |r.rom| == 8
    ensures var back := Ds18b20Of(ValueOf(Ds18b20Doc(r)));
            back.rom == r.rom && Near(back.temperature, r.temperature)
  {
    var fields := Ds18b20Doc(r).fields;
    MemberAt(fields, 0, "rom");
    MemberAt(fields, 1, "t");
    hide Member, SameName, TwoPlaces, RomAfter, Hex;
    RomRoundTrip(r.rom, NO_DS18B20.rom);
    TwoPlacesError(r.temperature);
  }

  lemma PortsRoundTrip(p: PortState)
    ensures PortsOf(Some(ValueOf(PortDoc(p)))) == p
  {
    var fields := PortDoc(p).fields;
    assert "A"[0] == 'A' && "B"[0] == 'B';
    MemberAt(fields, 0, "A");
    MemberAt(fields, 1, "B");
    NatIsKept(p.portA, 0x1_0000);
    NatIsKept(p.portB, 0x1_0000);
  }

  lemma {:induction false} ItemValueAt(items: seq<Doc>, i: nat)
    requires i < |items|
    ensures ItemValues(items)[i] == ValueOf(items[i])
  {
    hide ValueOf;
    if i > 0 {
      ItemValueAt(items[1..], i - 1);
    }
  }

  function UpdateFields(m: SensorUpdate): seq<(string, Doc)>
    requires WellFormed(m)
  {
    HeadFields(m) + BodyFields(m)
  }

  lemma FieldNames(m: SensorUpdate)
    requires WellFormed(m)
    ensures var f := UpdateFields(m);
            && |f| == 8
            && f[0].0 == "v" && f[1].0 == "type"
            && f[2] == ("ts", Nat(m.timestampMs)) && f[3] == ("seq", Nat(m.sequenceId))
            && f[4] == ("sht20", Items(Sht20Docs(m))) && f[5] == ("ds18b20", Items(Ds18b20Docs(m)))
            && f[6] == ("gpio", PortsDoc(m)) && f[7] == ("pwm", PwmDoc(m))
  {
  }

  lemma DistinctNames(m: SensorUpdate, k: nat)
    requires WellFormed(m) && k < 8
    ensures SameName(UpdateFields(m)[k].0, UpdateFields(m)[k].0)
    ensures forall i :: 0 <= i < k ==> !SameName(UpdateFields(m)[i].0, UpdateFields(m)[k].0)
  {
    FieldNames(m);
    assert "type"[0] == 't' && "gpio"[0] == 'g' && "seq"[0] == 's' && "pwm"[0] == 'p';
  }

  lemma MemberFound(m: SensorUpdate, k: nat)
    requires WellFormed(m) && k < 8
    ensures Member(Some(ValueOf(UpdateDoc(m))), UpdateFields(m)[k].0) == Some(ValueOf(UpdateFields(m)[k].1))
  {
    hide SameName, Member, HeadFields, BodyFields;
    FieldNames(m);
    DistinctNames(m, k);
    MemberAt(UpdateFields(m), k, UpdateFields(m)[k].0);
  }

  lemma MembersFound(m: SensorUpdate)
    requires WellFormed(m)
    ensures var root := Some(ValueOf(UpdateDoc(m)));
            && Member(root, "ts") == Some(Number(m.timestampMs as real))
            && Member(root, "seq") == Some(Number(m.sequenceId as real))
            && Member(root, "sht20") == Some(List(ItemValues(Sht20Docs(m))))
            && Member(root, "ds18b20") == Some(List(ItemValues(Ds18b20Docs(m))))
            && Member(root, "gpio") == Some(ValueOf(PortsDoc(m)))
            && Member(root, "pwm") == Some(ValueOf(PwmDoc(m)))
  {
    hide Member, UpdateDoc, UpdateFields, Sht20Docs, Ds18b20Docs, PortsDoc, PwmDoc;
    FieldNames(m);
    MemberFound(m, 2);
    MemberFound(m, 3);
    MemberFound(m, 4);
    MemberFound(m, 5);
    MemberFound(m, 6);
    MemberFound(m, 7);
  }

  lemma GpioFound(m: SensorUpdate)
    requires WellFormed(m)
    ensures var gpio := Some(ValueOf(PortsDoc(m)));
            PortsOf(Member(gpio, "mcp0")) == m.mcp[0] && PortsOf(Member(gpio, "mcp1")) == m.mcp[1]
  {
    var fields := PortsDoc(m).fields;
    assert "mcp0"[3] == '0' && "mcp1"[3] == '1';
    MemberAt(fields, 0, "mcp0");
    MemberAt(fields, 1, "mcp1");
    hide Member, SameName, PortsOf, PortDoc;
    PortsRoundTrip(m.mcp[0]);
    PortsRoundTrip(m.mcp[1]);
  }

  lemma ChipFound(m: SensorUpdate)
    requires WellFormed(m)
    ensures var chip := Member(Some(ValueOf(PwmDoc(m))), "pca9685");
            && AsUint(Member(chip, "freq"), 0x1_0000) == m.frequency
            && Member(chip, "duty") == Some(List(ItemValues(DutyDocs(m))))
  {
    MemberAt(PwmDoc(m).fields, 0, "pca9685");
    var fields := ChipDoc(m).fields;
    assert "freq"[0] == 'f' && "duty"[0] == 'd';
    MemberAt(fields, 0, "freq");
    MemberAt(fields, 1, "duty");
    hide Member, SameName, DutyDocs;
    NatIsKept(m.frequency, 0x1_0000);
  }

  lemma DutiesRoundTrip(m: SensorUpdate, i: nat)
    requires WellFormed(m) && i < 16
    ensures DutyOf(ItemValues(DutyDocs(m))[i]) == m.duty[i]
  {
    ItemValueAt(DutyDocs(m), i);
    NatIsKept(m.duty[i], 0x1_0000);
  }

  /** Equal but for temperatures and humidities, which may be off by half a hundredth. */
  predicate SameButForRounding(a: SensorUpdate, b: SensorUpdate)
    requires WellFormed(a) && WellFormed(b)
  {
    && a.timestampMs == b.timestampMs && a.sequenceId == b.sequenceId
    && a.sht20Count == b.sht20Count && a.ds18b20Count == b.ds18b20Count
    && (forall i :: 0 <= i < a.sht20Count ==> SameSht20(a.sht20[i], b.sht20[i]))
    && (forall i :: 0 <= i < a.ds18b20Count ==> SameDs18b20(a.ds18b20[i], b.ds18b20[i]))
    && a.mcp == b.mcp && a.frequency == b.frequency && a.duty == b.duty
  }

  predicate SameSht20(a: Sht20Reading, b: Sht20Reading) {
    a.id == b.id && a.valid == b.valid && Near(a.temperature, b.temperature) && Near(a.humidity, b.humidity)
  }

  predicate SameDs18b20(a: Ds18b20Reading, b: Ds18b20Reading) {
    a.rom == b.rom && Near(a.temperature, b.temperature)
  }

  lemma ReadingsRoundTrip(m: SensorUpdate)
    requires WellFormed(m)
    ensures forall i :: 0 <= i < m.sht20Count ==> SameSht20(Sht20Of(ItemValues(Sht20Docs(m))[i]), m.sht20[i])
    ensures forall i :: 0 <= i < m.ds18b20Count ==> SameDs18b20(Ds18b20Of(ItemValues(Ds18b20Docs(m))[i]), m.ds18b20[i])
  {
    hide Sht20Of, Ds18b20Of, Sht20Doc, Ds18b20Doc, ItemValues, ValueOf;
    forall i | 0 <= i < m.sht20Count
      ensures SameSht20(Sht20Of(ItemValues(Sht20Docs(m))[i]), m.sht20[i])
    {
      ItemValueAt(Sht20Docs(m), i);
      Sht20RoundTrip(m.sht20[i]);
    }
    forall i | 0 <= i < m.ds18b20Count
      ensures SameDs18b20(Ds18b20Of(ItemValues(Ds18b20Docs(m))[i]), m.ds18b20[i])
    {
      ItemValueAt(Ds18b20Docs(m), i);
      Ds18b20RoundTrip(m.ds18b20[i]);
    }
  }

  lemma UpdateIsInterpreted(m: SensorUpdate)
    requires WellFormed(m)
    ensures SameButForRounding(Interpreted(Some(ValueOf(UpdateDoc(m)))), m)
  {
    hide Member, Sht20Of, Ds18b20Of, DutyOf, PortsOf, ItemValues, UpdateDoc, PortsDoc, PwmDoc, ValueOf,
      SameSht20, SameDs18b20;
    MembersFound(m);
    GpioFound(m);
    ChipFound(m);
    NatIsKept(m.timestampMs, TWO32);
    NatIsKept(m.sequenceId, TWO32);
    ReadingsRoundTrip(m);
    var back := Interpreted(Some(ValueOf(UpdateDoc(m))));
    forall i | 0 <= i < 16
      ensures back.duty[i] == m.duty[i]
    {
      DutiesRoundTrip(m, i);
    }
  }

  /** Ids that need no escape. */
  predicate PlainIds(m: SensorUpdate)
    requires WellFormed(m)
  {
    forall i :: 0 <= i < m.sht20Count ==> IsPlain(m.sht20[i].id)
  }

  lemma {:induction false} HexIsPlain(data: seq<byte>)
    ensures IsPlain(Hex(data, true))
  {
    if |data| > 0 {
      HexIsPlain(data[1..]);
    }
  }

  lemma ReadingsArePrintable(m: SensorUpdate)
    requires WellFormed(m) && PlainIds(m)
    ensures Printable(Items(Sht20Docs(m))) && Printable(Items(Ds18b20Docs(m)))
  {
    hide TwoPlaces, Hex;
    forall i | 0 <= i < m.sht20Count
      ensures Printable(Sht20Docs(m)[i])
    {
      PlacesPrintable(m.sht20[i].temperature);
      PlacesPrintable(m.sht20[i].humidity);
    }
    forall i | 0 <= i < m.ds18b20Count
      ensures Printable(Ds18b20Docs(m)[i])
    {
      HexIsPlain(m.ds18b20[i].rom);
      PlacesPrintable(m.ds18b20[i].temperature);
    }
  }

  lemma PlacesPrintable(x: real)
    ensures Printable(TwoPlaces(x))
  {
  }

  lemma TwoPrintable(a: (string, Doc), b: (string, Doc))
    requires IsPlain(a.0) && IsPlain(b.0) && Printable(a.1) && Printable(b.1)
    ensures Printable(Fields([a, b]))
  {
    hide IsPlain;
  }

  lemma PortPrintable(p: PortState)
    ensures Printable(PortDoc(p))
  {
    TwoPrintable(("A", Nat(p.portA)), ("B", Nat(p.portB)));
  }

  lemma ChipPrintable(m: SensorUpdate)
    requires WellFormed(m)
    ensures Printable(ChipDoc(m))
  {
    assert Printable(Items(DutyDocs(m)));
    TwoPrintable(("freq", Nat(m.frequency)), ("duty", Items(DutyDocs(m))));
  }

  lemma StateIsPrintable(m: SensorUpdate)
    requires WellFormed(m)
    ensures Printable(PortsDoc(m)) && Printable(PwmDoc(m))
  {
    hide PortDoc, ChipDoc;
    PortPrintable(m.mcp[0]);
    PortPrintable(m.mcp[1]);
    ChipPrintable(m);
    TwoPrintable(("mcp0", PortDoc(m.mcp[0])), ("mcp1", PortDoc(m.mcp[1])));
  }

  lemma FourPrintable(a: (string, Doc), b: (string, Doc), c: (string, Doc), d: (string, Doc))
    requires IsPlain(a.0) && IsPlain(b.0) && IsPlain(c.0) && IsPlain(d.0)
    requires Printable(a.1) && Printable(b.1) && Printable(c.1) && Printable(d.1)
    ensures Printable(Fields([a, b, c, d]))
  {
    hide IsPlain;
  }

  lemma UpdateIsPrintable(m: SensorUpdate)
    requires WellFormed(m) && PlainIds(m)
    ensures Printable(UpdateDoc(m))
  {
    hide Sht20Docs, Ds18b20Docs, PortsDoc, PwmDoc, PlainIds, Printable;
    ReadingsArePrintable(m);
    StateIsPrintable(m);
    HeadIsPrintable(m);
    FourPrintable(("sht20", Items(Sht20Docs(m))), ("ds18b20", Items(Ds18b20Docs(m))),
                  ("gpio", PortsDoc(m)), ("pwm", PwmDoc(m)));
    AppendPrintable(HeadFields(m), BodyFields(m));
  }

  lemma HeadIsPrintable(m: SensorUpdate)
    ensures Printable(Fields(HeadFields(m)))
  {
    FourPrintable(("v", Nat(1)), ("type", Quoted("sensor_update")),
                  ("ts", Nat(m.timestampMs)), ("seq", Nat(m.sequenceId)));
  }

  /** The text of every update, with the checksum the encoder computes or without one, is read back. */
  lemma SensorRoundTrip(m: SensorUpdate, expectedCrc: bv32)
    requires WellFormed(m) && PlainIds(m)
    requires expectedCrc == 0 || expectedCrc == TextChecksum(UpdateText(m))
    ensures Accepted(UpdateText(m), expectedCrc)
    ensures SameButForRounding(Interpreted(ValueRead(UpdateText(m))), m)
  {
    hide ParseValue, Print, Printable, Interpreted, TextChecksum, UpdateText, UpdateDoc, SameButForRounding, PlainIds;
    UpdateTextIsPrinted(m);
    UpdateIsPrintable(m);
    PrintedIsRead(UpdateDoc(m), "");
    assert Print(UpdateDoc(m)) + "" == Print(UpdateDoc(m));
    UpdateIsInterpreted(m);
  }
}
