/**
 * The JSON form of a sensor update in common/proto/messages.c: encoder and decoder.
 *
 * Temperatures and humidities are real numbers here.
 */
module SensorUpdates {
  import opened Bytes
  import opened Numerals
  import opened Json
  import opened JsonText
  import opened Printing

  datatype Sht20Reading = Sht20Reading(id: string, temperature: real, humidity: real, valid: bool)

  datatype Ds18b20Reading = Ds18b20Reading(rom: seq<byte>, temperature: real)

  datatype PortState = PortState(portA: uint16, portB: uint16)

  datatype SensorUpdate = SensorUpdate(
    timestampMs: uint32,
    sequenceId: uint32,
    sht20Count: nat,
    sht20: seq<Sht20Reading>,
    ds18b20Count: nat,
    ds18b20: seq<Ds18b20Reading>,
    mcp: seq<PortState>,
    frequency: uint16,
    duty: seq<uint16>)

  const NO_SHT20 := Sht20Reading("", 0.0, 0.0, false)
  const NO_DS18B20 := Ds18b20Reading([0, 0, 0, 0, 0, 0, 0, 0], 0.0)
  const NO_UPDATE := SensorUpdate(
    0, 0, 0, [NO_SHT20, NO_SHT20], 0, [NO_DS18B20, NO_DS18B20, NO_DS18B20, NO_DS18B20],
    [PortState(0, 0), PortState(0, 0)], 0, [0, 0, 0, 0, 0, 0, 0, 0, 0, 0, 0, 0, 0, 0, 0, 0])

  /** The sizes that the C structure fixes: at most two and four readings, ids of up to 15 characters. */
  predicate WellFormed(m: SensorUpdate) {
    && |m.sht20| == 2 && m.sht20Count <= 2
    && |m.ds18b20| == 4 && m.ds18b20Count <= 4
    && |m.mcp| == 2 && |m.duty| == 16
    && (forall i :: 0 <= i < 2 ==> |m.sht20[i].id| <= 15)
    && (forall i :: 0 <= i < 4 ==> |m.ds18b20[i].rom| == 8)
  }

  // ---------- Two decimal places ----------

  /** The nearest whole number, to even on a tie. */
  function Nearest(x: real): (n: nat)
    requires x >= 0.0
    ensures -0.5 <= n as real - x <= 0.5
    ensures (n as real - x == 0.5 || x - n as real == 0.5) ==> n % 2 == 0
  {
    var whole := x.Floor;
    var over := x - whole as real;
    if over < 0.5 || (over == 0.5 && whole % 2 == 0) then whole else whole + 1
  }

  /** A number as the two-place format prints it. */
  function TwoPlaces(x: real): Doc {
    if x < 0.0 then Hundredths(true, Nearest(-x * 100.0)) else Hundredths(false, Nearest(x * 100.0))
  }

  /** The sign is printed for every negative value, even if it is rounded to zero. */
  lemma SignIsPrinted(x: real)
    ensures |Print(TwoPlaces(x))| > 0 && (Print(TwoPlaces(x))[0] == '-' <==> x < 0.0)
  {
    hide Decimal, Fixed, Nearest;
    var d := TwoPlaces(x);
    assert IsDigit(Decimal(d.count / 100)[0]);
  }

  /** What is read back is off by at most half a hundredth. */
  lemma TwoPlacesError(x: real)
    ensures ValueOf(TwoPlaces(x)).Number?
    ensures -0.005 <= ValueOf(TwoPlaces(x)).number - x <= 0.005
  {
  }

  // ---------- Encoding ----------

  function HeadText(m: SensorUpdate): string {
    "{\"v\":1" + ",\"type\":\"sensor_update\""
    + ",\"ts\":" + Decimal(m.timestampMs) + ",\"seq\":" + Decimal(m.sequenceId)
    + ",\"sht20\":["
  }

  /** Pieces separated by commas. */
  function Joined(pieces: seq<string>): string {
    var n := |pieces|;
    if n == 0 then "" else Joined(pieces[..n - 1]) + ((if n > 1 then "," else "") + pieces[n - 1])
  }

  function Sht20Text(r: Sht20Reading): string {
    "{\"id\":\"" + r.id + "\",\"t\":" + Print(TwoPlaces(r.temperature)) + ",\"rh\":" + Print(TwoPlaces(r.humidity))
    + ",\"ok\":" + (if r.valid then "true" else "false") + "}"
  }

  function Ds18b20Text(r: Ds18b20Reading): string {
    "{\"rom\":\"" + Hex(r.rom, true) + "\",\"t\":" + Print(TwoPlaces(r.temperature)) + "}"
  }

  function Sht20Pieces(m: SensorUpdate): seq<string>
    requires WellFormed(m)
  {
    seq(m.sht20Count, i requires 0 <= i < m.sht20Count => Sht20Text(m.sht20[i]))
  }

  function Ds18b20Pieces(m: SensorUpdate): seq<string>
    requires WellFormed(m)
  {
    seq(m.ds18b20Count, i requires 0 <= i < m.ds18b20Count => Ds18b20Text(m.ds18b20[i]))
  }

  function DutyPieces(m: SensorUpdate): seq<string>
    requires WellFormed(m)
  {
    seq(16, i requires 0 <= i < 16 => Decimal(m.duty[i]))
  }

  function PortsText(m: SensorUpdate): string
    requires WellFormed(m)
  {
    "],\"gpio\":{\"mcp0\":{\"A\":" + Decimal(m.mcp[0].portA) + ",\"B\":" + Decimal(m.mcp[0].portB)
    + "},\"mcp1\":{\"A\":" + Decimal(m.mcp[1].portA) + ",\"B\":" + Decimal(m.mcp[1].portB)
    + "}},\"pwm\":{\"pca9685\":{\"freq\":" + Decimal(m.frequency) + ",\"duty\":["
  }

  function ReadingsText(m: SensorUpdate): string
    requires WellFormed(m)
  {
    HeadText(m) + Joined(Sht20Pieces(m)) + "],\"ds18b20\":[" + Joined(Ds18b20Pieces(m))
  }

  function StateText(m: SensorUpdate): string
    requires WellFormed(m)
  {
    PortsText(m) + Joined(DutyPieces(m)) + "]}}}"
  }

  function UpdateText(m: SensorUpdate): string
    requires WellFormed(m)
  {
    ReadingsText(m) + StateText(m)
  }

  /** The upper-case form of a ROM code, byte by byte. */
  method RomText(rom: seq<byte>) returns (text: string)
    ensures text == Hex(rom, true)
  {
    text := "";
    var b := 0;
    while b < |rom|
      invariant 0 <= b <= |rom|
      invariant text == Hex(rom[..b], true)
    {
      assert rom[..b + 1] == rom[..b] + [rom[b]];
      HexAppend(rom[..b], [rom[b]], true);
      text := text + [HexDigit(rom[b] / 16, true), HexDigit(rom[b] % 16, true)];
      b := b + 1;
    }
    assert rom[..b] == rom;
  }

  method Ds18b20Texts(m: SensorUpdate) returns (pieces: seq<string>)
    requires WellFormed(m)
    ensures pieces == Ds18b20Pieces(m)
  {
    pieces := [];
    var i := 0;
    while i < m.ds18b20Count
      invariant 0 <= i <= m.ds18b20Count
      invariant |pieces| == i && forall k :: 0 <= k < i ==> pieces[k] == Ds18b20Text(m.ds18b20[k])
    {
      var rom := RomText(m.ds18b20[i].rom);
      pieces := pieces + ["{\"rom\":\"" + rom + "\",\"t\":" + Print(TwoPlaces(m.ds18b20[i].temperature)) + "}"];
      i := i + 1;
    }
  }

  lemma {:induction false} JoinedGrows(pieces: seq<string>, n: nat)
    requires n <= |pieces|
    ensures |Joined(pieces[..n])| <= |Joined(pieces)|
  {
    if n < |pieces| {
      assert pieces[..|pieces| - 1][..n] == pieces[..n];
      JoinedGrows(pieces[..|pieces| - 1], n);
    } else {
      assert pieces[..n] == pieces;
    }
  }

  lemma JoinedStep(pieces: seq<string>, i: nat)
    requires i < |pieces|
    ensures Joined(pieces[..i + 1]) == Joined(pieces[..i]) + ((if i > 0 then "," else "") + pieces[i])
  {
    assert pieces[..i + 1][..i] == pieces[..i];
  }

  lemma JoinedStarts(pieces: seq<string>)
    ensures Joined(pieces[..0]) == ""
  {
  }

  /** The loop of the encoder over a list: each piece is appended after a comma, but for the first. */
  method AppendJoined(pieces: seq<string>, buffer: array<char>, start: nat, room: nat)
    returns (ok: bool, cursor: nat, remaining: nat)
    requires start + room <= buffer.Length
    modifies buffer
    ensures cursor + remaining == start + room
    ensures room > 0 ==> (ok <==> |Joined(pieces)| < room)
    ensures room == 0 ==> (ok <==> |pieces| == 0)
    ensures ok ==> cursor == start + |Joined(pieces)| && buffer[..cursor] == old(buffer[..start]) + Joined(pieces)
    ensures forall i :: start + room <= i < buffer.Length ==> buffer[i] == old(buffer[i])
  {
    hide Joined;
    cursor, remaining := start, room;
    JoinedStarts(pieces);
    var i := 0;
    while i < |pieces|
      invariant 0 <= i <= |pieces|
      invariant cursor + remaining == start + room
      invariant i > 0 ==> |Joined(pieces[..i])| < room
      invariant cursor == start + |Joined(pieces[..i])|
      invariant buffer[..cursor] == old(buffer[..start]) + Joined(pieces[..i])
      invariant forall i :: start + room <= i < buffer.Length ==> buffer[i] == old(buffer[i])
    {
      JoinedGrows(pieces, i + 1);
      JoinedStep(pieces, i);
      ok, cursor, remaining := JsonAppend(buffer, cursor, remaining, (if i > 0 then "," else "") + pieces[i]);
      if !ok {
        return;
      }
      i := i + 1;
    }
    assert pieces[..i] == pieces;
    ok := true;
  }

  method AppendReadings(m: SensorUpdate, buffer: array<char>, room: nat)
    returns (ok: bool, cursor: nat, remaining: nat)
    requires WellFormed(m) && room <= buffer.Length
    modifies buffer
    ensures cursor + remaining == room
    ensures ok <==> |ReadingsText(m)| < room
    ensures ok ==> cursor == |ReadingsText(m)| && buffer[..cursor] == ReadingsText(m)
    ensures forall i :: room <= i < buffer.Length ==> buffer[i] == old(buffer[i])
  {
    hide HeadText, Joined, Sht20Pieces, Ds18b20Pieces;
    ok, cursor, remaining := JsonAppend(buffer, 0, room, HeadText(m));
    if !ok {
      return;
    }
    ok, cursor, remaining := AppendJoined(Sht20Pieces(m), buffer, cursor, remaining);
    if !ok {
      return;
    }
    ok, cursor, remaining := JsonAppend(buffer, cursor, remaining, "],\"ds18b20\":[");
    if !ok {
      return;
    }
    var roms := Ds18b20Texts(m);
    ok, cursor, remaining := AppendJoined(roms, buffer, cursor, remaining);
  }

  method AppendState(m: SensorUpdate, buffer: array<char>, start: nat, room: nat)
    returns (ok: bool, cursor: nat, remaining: nat)
    requires WellFormed(m) && start + room <= buffer.Length
    modifies buffer
    ensures cursor + remaining == start + room
    ensures ok <==> |StateText(m)| < room
    ensures ok ==> cursor == start + |StateText(m)| && buffer[..cursor] == old(buffer[..start]) + StateText(m)
    ensures forall i :: start + room <= i < buffer.Length ==> buffer[i] == old(buffer[i])
  {
    hide PortsText, Joined, DutyPieces;
    ok, cursor, remaining := JsonAppend(buffer, start, room, PortsText(m));
    if !ok {
      return;
    }
    ok, cursor, remaining := AppendJoined(DutyPieces(m), buffer, cursor, remaining);
    if !ok {
      return;
    }
    ok, cursor, remaining := JsonAppend(buffer, cursor, remaining, "]}}}");
  }

  /** Succeeds exactly when the whole text and a terminating zero fit. */
  method EncodeSensorUpdate(m: SensorUpdate, buffer: array<char>, bufferLen: nat)
    returns (ok: bool, newLen: nat, crc: bv32)
    requires WellFormed(m) && bufferLen <= buffer.Length
    modifies buffer
    ensures ok <==> |UpdateText(m)| < bufferLen
    ensures ok ==> newLen == |UpdateText(m)| && buffer[..newLen] == UpdateText(m) && crc == TextChecksum(UpdateText(m))
    ensures !ok ==> newLen == bufferLen
    ensures forall i :: bufferLen <= i < buffer.Length ==> buffer[i] == old(buffer[i])
  {
    hide ReadingsText, StateText, TextChecksum;
    newLen, crc := bufferLen, 0;
    if bufferLen == 0 {
      return false, newLen, crc;
    }
    var cursor, remaining;
    ok, cursor, remaining := AppendReadings(m, buffer, bufferLen);
    if !ok {
      return;
    }
    ok, cursor, remaining := AppendState(m, buffer, cursor, remaining);
    if !ok {
      return;
    }
    newLen := bufferLen - remaining;
    crc := TextChecksum(buffer[..newLen]);
  }

  // ---------- The text as a printed document ----------

  function Sht20Doc(r: Sht20Reading): Doc {
    Fields([("id", Quoted(r.id)), ("t", TwoPlaces(r.temperature)), ("rh", TwoPlaces(r.humidity)),
            ("ok", Flag(r.valid))])
  }

  function Ds18b20Doc(r: Ds18b20Reading): Doc {
    Fields([("rom", Quoted(Hex(r.rom, true))), ("t", TwoPlaces(r.temperature))])
  }

  function PortDoc(p: PortState): Doc {
    Fields([("A", Nat(p.portA)), ("B", Nat(p.portB))])
  }

  function Sht20Docs(m: SensorUpdate): seq<Doc>
    requires WellFormed(m)
  {
    seq(m.sht20Count, i requires 0 <= i < m.sht20Count => Sht20Doc(m.sht20[i]))
  }

  function Ds18b20Docs(m: SensorUpdate): seq<Doc>
    requires WellFormed(m)
  {
    seq(m.ds18b20Count, i requires 0 <= i < m.ds18b20Count => Ds18b20Doc(m.ds18b20[i]))
  }

  function DutyDocs(m: SensorUpdate): seq<Doc>
    requires WellFormed(m)
  {
    seq(16, i requires 0 <= i < 16 => Nat(m.duty[i]))
  }

  function PortsDoc(m: SensorUpdate): Doc
    requires WellFormed(m)
  {
    Fields([("mcp0", PortDoc(m.mcp[0])), ("mcp1", PortDoc(m.mcp[1]))])
  }

  function PwmDoc(m: SensorUpdate): Doc
    requires WellFormed(m)
  {
    Fields([("pca9685", ChipDoc(m))])
  }

  function ChipDoc(m: SensorUpdate): Doc
    requires WellFormed(m)
  {
    Fields([("freq", Nat(m.frequency)), ("duty", Items(DutyDocs(m)))])
  }

  function HeadFields(m: SensorUpdate): seq<(string, Doc)> {
    [("v", Nat(1)), ("type", Quoted("sensor_update")), ("ts", Nat(m.timestampMs)), ("seq", Nat(m.sequenceId))]
  }

  function BodyFields(m: SensorUpdate): seq<(string, Doc)>
    requires WellFormed(m)
  {
    [("sht20", Items(Sht20Docs(m))), ("ds18b20", Items(Ds18b20Docs(m))), ("gpio", PortsDoc(m)), ("pwm", PwmDoc(m))]
  }

  function UpdateDoc(m: SensorUpdate): Doc
    requires WellFormed(m)
  {
    Fields(HeadFields(m) + BodyFields(m))
  }

  lemma PrintItemsCons(item: Doc, rest: seq<Doc>)
    ensures PrintItems([item] + rest) == Print(item) + if |rest| == 0 then "" else "," + PrintItems(rest)
  {
    assert ([item] + rest)[1..] == rest;
  }

  lemma {:induction false} PrintItemsAppend(items: seq<Doc>, last: Doc)
    ensures PrintItems(items + [last]) == PrintItems(items) + ((if |items| > 0 then "," else "") + Print(last))
  {
    hide Print, PrintItems;
    PrintItemsCons(last, []);
    assert [last] + [] == [last];
    if |items| == 0 {
      assert items + [last] == [last];
      NothingPrinted(items);
    } else {
      var item, rest := items[0], items[1..];
      assert [item] + rest == items && [item] + (rest + [last]) == items + [last];
      PrintItemsAppend(rest, last);
      PrintItemsCons(item, rest);
      PrintItemsCons(item, rest + [last]);
      if |rest| == 0 {
        assert rest + [last] == [last];
      } else {
        AppendInside(Print(item), ",", PrintItems(rest), "," + Print(last));
      }
    }
  }

  lemma NothingPrinted(items: seq<Doc>)
    requires |items| == 0
    ensures PrintItems(items) == ""
  {
  }

  lemma AppendInside(a: string, k: string, b: string, c: string)
    ensures a + (k + (b + c)) == (a + (k + b)) + c
  {
  }

  /** Joining the printed items is printing the list. */
  lemma {:induction false} JoinedIsPrinted(pieces: seq<string>, items: seq<Doc>)
    requires |pieces| == |items| && forall i :: 0 <= i < |items| ==> pieces[i] == Print(items[i])
    ensures Joined(pieces) == PrintItems(items)
    decreases |items|
  {
    hide Print;
    var n := |items|;
    if n > 0 {
      JoinedIsPrinted(pieces[..n - 1], items[..n - 1]);
      PrintItemsAppend(items[..n - 1], items[n - 1]);
      assert items[..n - 1] + [items[n - 1]] == items;
    }
  }

  lemma ReadingLiterals()
    ensures "{\"id\":\"" == "{" + (Label("id") + "\"")
    ensures "\",\"t\":" == "\"" + ("," + Label("t"))
    ensures ",\"rh\":" == "," + Label("rh")
    ensures ",\"ok\":" == "," + Label("ok")
    ensures "{\"rom\":\"" == "{" + (Label("rom") + "\"")
  {
  }

  lemma Sht20Regroup(b: string, i: string, q: string, id: string, c: string, lt: string, t: string,
                     lr: string, rh: string, lo: string, ok: string, e: string)
    ensures (b + (i + q)) + id + (q + (c + lt)) + t + (c + lr) + rh + (c + lo) + ok + e
         == b + (i + ((q + id + q) + ((c + (lt + t)) + ((c + (lr + rh)) + ((c + (lo + ok)) + e)))))
  {
  }

  lemma Sht20Printed(r: Sht20Reading)
    ensures Sht20Text(r) == Print(Sht20Doc(r))
  {
    hide Label, TwoPlaces;
    var t, rh := TwoPlaces(r.temperature), TwoPlaces(r.humidity);
    ReadingLiterals();
    PrintedFour(("id", Quoted(r.id)), ("t", t), ("rh", rh), ("ok", Flag(r.valid)));
    Sht20Regroup("{", Label("id"), "\"", r.id, ",", Label("t"), Print(t), Label("rh"), Print(rh), Label("ok"),
                 Print(Flag(r.valid)), "}");
  }

  lemma Ds18b20Regroup(b: string, i: string, q: string, rom: string, c: string, lt: string, t: string, e: string)
    ensures (b + (i + q)) + rom + (q + (c + lt)) + t + e == b + (i + ((q + rom + q) + ((c + (lt + t)) + e)))
  {
  }

  lemma Ds18b20Printed(r: Ds18b20Reading)
    ensures Ds18b20Text(r) == Print(Ds18b20Doc(r))
  {
    hide Label, TwoPlaces, Hex;
    var t := TwoPlaces(r.temperature);
    ReadingLiterals();
    PrintedTwo(("rom", Quoted(Hex(r.rom, true))), ("t", t));
    Ds18b20Regroup("{", Label("rom"), "\"", Hex(r.rom, true), ",", Label("t"), Print(t), "}");
  }

  lemma ListLiterals()
    ensures ",\"sht20\":[" == "," + (Label("sht20") + "[")
    ensures "],\"ds18b20\":[" == "]" + ("," + (Label("ds18b20") + "["))
  {
  }

  lemma HeadLiterals()
    ensures "\"v\":1" == Label("v") + Decimal(1)
    ensures ",\"type\":\"sensor_update\"" == "," + (Label("type") + "\"sensor_update\"")
    ensures ",\"ts\":" == "," + Label("ts")
    ensures ",\"seq\":" == "," + Label("seq")
  {
    DecimalOne();
  }

  lemma HeadRegroup(o: string, v: string, k: string, a: string, l: string, t: string, s: string, q: string,
                    rest: string)
    ensures (o + v) + (k + a) + (k + l) + t + (k + s) + q + rest
         == (o + (v + (k + (a + (k + ((l + t) + (k + (s + q)))))))) + rest
  {
  }

  lemma HeadPrinted(m: SensorUpdate)
    ensures HeadText(m) == ("{" + PrintFields(HeadFields(m))) + ("," + (Label("sht20") + "["))
  {
    var t, q := m.timestampMs, m.sequenceId;
    hide Label, Decimal, PrintField, PrintFields;
    ListLiterals();
    HeadLiterals();
    assert "{\"v\":1" == "{" + "\"v\":1";
    PrintFour(("v", Nat(1)), ("type", Quoted("sensor_update")), ("ts", Nat(t)), ("seq", Nat(q)));
    FieldPrinted(("v", Nat(1)));
    FieldPrinted(("type", Quoted("sensor_update")));
    FieldPrinted(("ts", Nat(t)));
    FieldPrinted(("seq", Nat(q)));
    assert "\"" + "sensor_update" + "\"" == "\"sensor_update\"";
    HeadRegroup("{", "\"v\":1", ",", Label("type") + "\"sensor_update\"", Label("ts"), Decimal(t),
                Label("seq"), Decimal(q), "," + (Label("sht20") + "["));
  }

  lemma PortLiterals()
    ensures "],\"gpio\":{\"mcp0\":{\"A\":"
         == "]" + ("," + (Label("gpio") + ("{" + (Label("mcp0") + ("{" + Label("A"))))))
    ensures ",\"B\":" == "," + Label("B")
    ensures "},\"mcp1\":{\"A\":" == "}" + ("," + (Label("mcp1") + ("{" + Label("A"))))
  {
  }

  lemma DutyLiteral()
    ensures ",\"duty\":[" == "," + (Label("duty") + "[")
  {
  }

  lemma ChipLiterals()
    ensures "}},\"pwm\":{\"pca9685\":{\"freq\":"
         == "}" + ("}" + ("," + (Label("pwm") + ("{" + (Label("pca9685") + ("{" + Label("freq")))))))
  {
  }

  lemma PortsRegroup(k: string, c: string, g: string, o: string, m0: string, A: string, a0: string, B: string,
                     b0: string, e: string, m1: string, a1: string, b1: string, rest: string)
    ensures (k + (c + (g + (o + (m0 + (o + A)))))) + a0 + (c + B) + b0 + (e + (c + (m1 + (o + A)))) + a1 + (c + B) + b1
            + (e + (e + rest))
         == k + ((c + (g + (o + (m0 + ((o + (A + (a0 + ((c + (B + b0)) + e)))) +
                ((c + (m1 + (o + (A + (a1 + ((c + (B + b1)) + e)))))) + e)))))) + rest)
  {
  }

  /** The start of the last object, up to the list of duties. */
  function ChipStart(m: SensorUpdate): string {
    "," + (Label("pwm") + ("{" + (Label("pca9685")
      + ("{" + (Label("freq") + (Decimal(m.frequency) + ("," + (Label("duty") + "["))))))))
  }

  lemma PortsPrinted(m: SensorUpdate)
    requires WellFormed(m)
    ensures PortsText(m) == "]" + (Further("gpio", PortsDoc(m)) + ChipStart(m))
  {
    hide Label, Decimal;
    var p, q := m.mcp[0], m.mcp[1];
    PortLiterals();
    ChipLiterals();
    DutyLiteral();
    PrintedTwo(("A", Nat(p.portA)), ("B", Nat(p.portB)));
    PrintedTwo(("A", Nat(q.portA)), ("B", Nat(q.portB)));
    PrintedTwo(("mcp0", PortDoc(p)), ("mcp1", PortDoc(q)));
    var chip := "," + (Label("pwm") + ("{" + (Label("pca9685") + ("{" + Label("freq")))));
    var tail := Decimal(m.frequency) + ("," + (Label("duty") + "["));
    var front := ("]" + ("," + (Label("gpio") + ("{" + (Label("mcp0") + ("{" + Label("A")))))))
      + Decimal(p.portA) + ("," + Label("B")) + Decimal(p.portB) + ("}" + ("," + (Label("mcp1") + ("{" + Label("A")))))
      + Decimal(q.portA) + ("," + Label("B")) + Decimal(q.portB);
    Append3(front, "}", "}", chip, Decimal(m.frequency), "," + (Label("duty") + "["));
    PortsRegroup("]", ",", Label("gpio"), "{", Label("mcp0"), Label("A"), Decimal(p.portA), Label("B"),
                 Decimal(p.portB), "}", Label("mcp1"), Decimal(q.portA), Decimal(q.portB), chip + tail);
    ChipRegroup(",", Label("pwm"), "{", Label("pca9685"), Label("freq"), tail);
  }

  lemma Append3(front: string, e: string, f: string, chip: string, number: string, tail: string)
    ensures front + (e + (f + chip)) + number + tail == front + (e + (f + (chip + (number + tail))))
  {
  }

  lemma ChipRegroup(c: string, pw: string, o: string, pc: string, fr: string, tail: string)
    ensures (c + (pw + (o + (pc + (o + fr))))) + tail == c + (pw + (o + (pc + (o + (fr + tail)))))
  {
  }

  lemma ListsPrinted(m: SensorUpdate)
    requires WellFormed(m)
    ensures Joined(Sht20Pieces(m)) == PrintItems(Sht20Docs(m))
    ensures Joined(Ds18b20Pieces(m)) == PrintItems(Ds18b20Docs(m))
    ensures Joined(DutyPieces(m)) == PrintItems(DutyDocs(m))
  {
    hide Sht20Text, Ds18b20Text, Joined, PrintItems, Sht20Doc, Ds18b20Doc;
    forall i | 0 <= i < m.sht20Count
      ensures Sht20Pieces(m)[i] == Print(Sht20Docs(m)[i])
    {
      Sht20Printed(m.sht20[i]);
    }
    forall i | 0 <= i < m.ds18b20Count
      ensures Ds18b20Pieces(m)[i] == Print(Ds18b20Docs(m)[i])
    {
      Ds18b20Printed(m.ds18b20[i]);
    }
    JoinedIsPrinted(Sht20Pieces(m), Sht20Docs(m));
    JoinedIsPrinted(Ds18b20Pieces(m), Ds18b20Docs(m));
    JoinedIsPrinted(DutyPieces(m), DutyDocs(m));
  }

  lemma PrintBody(a: (string, Doc), b: (string, Doc), c: (string, Doc), d: (string, Doc))
    ensures PrintTail([a, b, c, d]) == Further(a.0, a.1) + (Further(b.0, b.1) + (Further(c.0, c.1) + Further(d.0, d.1)))
  {
    PrintFour(a, b, c, d);
  }

  lemma PwmPrinted(m: SensorUpdate)
    requires WellFormed(m)
    ensures Further("pwm", PwmDoc(m)) == ChipStart(m) + PrintItems(DutyDocs(m)) + "]}}"
  {
    hide Label, PrintItems, Decimal, DutyDocs;
    PrintedTwo(("freq", Nat(m.frequency)), ("duty", Items(DutyDocs(m))));
    PrintedOne(("pca9685", ChipDoc(m)));
    assert "]}}" == "]" + ("}" + "}");
    PwmRegroup(",", Label("pwm"), "{", Label("pca9685"), Label("freq"), Decimal(m.frequency), Label("duty"), "[",
               PrintItems(DutyDocs(m)), "]", "}");
  }

  lemma PwmRegroup(c: string, pw: string, o: string, pc: string, fr: string, f: string, du: string, k: string,
                   items: string, l: string, e: string)
    ensures c + (pw + (o + (pc + ((o + (fr + (f + ((c + (du + (k + items + l))) + e)))) + e))))
         == (c + (pw + (o + (pc + (o + (fr + (f + (c + (du + k))))))))) + items + (l + (e + e))
  {
  }

  lemma ListField(name: string, items: seq<Doc>)
    ensures Further(name, Items(items)) == "," + (Label(name) + ("[" + PrintItems(items) + "]"))
  {
  }

  lemma UpdateRegroup(o: string, f: string, c: string, ls: string, k: string, j1: string, l: string, ld: string,
                      j2: string, g: string, chip: string, j3: string, e: string)
    ensures (o + f) + (c + (ls + k)) + j1 + (l + (c + (ld + k))) + j2 + ((l + (g + chip)) + j3 + (l + (e + e) + e))
         == o + (f + ((c + (ls + (k + j1 + l))) + ((c + (ld + (k + j2 + l))) + (g + (chip + j3 + (l + (e + e))))))) + e
  {
  }

  lemma UpdateDocPrinted(m: SensorUpdate)
    requires WellFormed(m)
    ensures Print(UpdateDoc(m)) == "{" + (PrintFields(HeadFields(m))
      + (Further("sht20", Items(Sht20Docs(m))) + (Further("ds18b20", Items(Ds18b20Docs(m)))
      + (Further("gpio", PortsDoc(m)) + Further("pwm", PwmDoc(m)))))) + "}"
  {
    assert |HeadFields(m)| > 0;
    hide Further, PrintFields, PrintTail;
    PrintFieldsAppend(HeadFields(m), BodyFields(m));
    PrintBody(("sht20", Items(Sht20Docs(m))), ("ds18b20", Items(Ds18b20Docs(m))),
              ("gpio", PortsDoc(m)), ("pwm", PwmDoc(m)));
  }

  /** The encoder's text is the printed form of the update's fields. */
  lemma UpdateTextIsPrinted(m: SensorUpdate)
    requires WellFormed(m)
    ensures UpdateText(m) == Print(UpdateDoc(m))
  {
    hide HeadText, PortsText, Joined, Sht20Pieces, Ds18b20Pieces, DutyPieces, Print, Further, ChipStart,
      PrintItems, PrintFields, HeadFields, Sht20Docs, Ds18b20Docs, DutyDocs, PortsDoc, PwmDoc, UpdateDoc, Label;
    HeadPrinted(m);
    ListsPrinted(m);
    ListLiterals();
    PortsPrinted(m);
    UpdateDocPrinted(m);
    ListField("sht20", Sht20Docs(m));
    ListField("ds18b20", Ds18b20Docs(m));
    PwmPrinted(m);
    assert "]}}}" == "]" + ("}" + "}") + "}" && "]}}" == "]" + ("}" + "}");
    UpdateRegroup("{", PrintFields(HeadFields(m)), ",", Label("sht20"), "[", PrintItems(Sht20Docs(m)), "]",
                  Label("ds18b20"), PrintItems(Ds18b20Docs(m)), Further("gpio", PortsDoc(m)), ChipStart(m),
                  PrintItems(DutyDocs(m)), "}");
  }
}
