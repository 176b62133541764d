/** The JSON form of a command in common/proto/messages.c: encoder and decoder. */
module Commands {
  import opened Bytes
  import opened Numerals
  import opened Json
  import opened JsonText
  import opened Lookup
  import opened Printing

  const MAX_COMMAND_SIZE := 512

  datatype Command = Command(
    timestampMs: uint32,
    sequenceId: uint32,
    hasPwmUpdate: bool,
    channel: byte,
    dutyCycle: uint16,
    hasPwmFrequency: bool,
    pwmFrequency: uint16,
    hasGpioWrite: bool,
    deviceIndex: byte,
    port: byte,
    mask: uint16,
    value: uint16)

  // ---------- Encoding ----------

  function HeadText(m: Command): string {
    "{\"v\":1" + ",\"type\":\"cmd\"" + ",\"ts\":" + Decimal(m.timestampMs) + ",\"seq\":" + Decimal(m.sequenceId)
  }

  function PwmText(m: Command): string {
    if m.hasPwmUpdate
    then ",\"set_pwm\":{\"ch\":" + Decimal(m.channel) + ",\"duty\":" + Decimal(m.dutyCycle) + "}"
    else ""
  }

  function FrequencyText(m: Command): string {
    if m.hasPwmFrequency then ",\"pwm_freq\":{\"freq\":" + Decimal(m.pwmFrequency) + "}" else ""
  }

  function DeviceName(index: byte): string {
    if index == 0 then "mcp0" else "mcp1"
  }

  function PortName(port: byte): string {
    if port == 0 then "A" else "B"
  }

  function GpioText(m: Command): string {
    if m.hasGpioWrite
    then ",\"write_gpio\":{\"dev\":\"" + DeviceName(m.deviceIndex) + "\",\"port\":\"" + PortName(m.port)
         + "\",\"mask\":" + Decimal(m.mask) + ",\"value\":" + Decimal(m.value) + "}"
    else ""
  }

  function CommandText(m: Command): string {
    HeadText(m) + PwmText(m) + FrequencyText(m) + GpioText(m) + "}"
  }

  lemma CommandTextParts(m: Command)
    ensures CommandText(m) == HeadText(m) + PwmText(m) + FrequencyText(m) + GpioText(m) + "}"
  {
  }

  /** Succeeds exactly when the whole text and a terminating zero fit. */
  method EncodeCommand(m: Command, buffer: array<char>, bufferLen: nat) returns (ok: bool, newLen: nat, crc: bv32)
    requires bufferLen <= buffer.Length
    modifies buffer
    ensures ok <==> |CommandText(m)| < bufferLen
    ensures ok ==>
              && newLen == |CommandText(m)| && buffer[..newLen] == CommandText(m)
              && crc == TextChecksum(CommandText(m))
    ensures !ok ==> newLen == bufferLen
    ensures forall i :: bufferLen <= i < buffer.Length ==> buffer[i] == old(buffer[i])
  {
    hide *;
    CommandTextParts(m);
    newLen, crc := bufferLen, 0;
    if bufferLen == 0 {
      return false, newLen, crc;
    }
    var cursor, remaining := 0, bufferLen;
    ok, cursor, remaining := JsonAppend(buffer, cursor, remaining, HeadText(m));
    if !ok {
      return;
    }
    ok, cursor, remaining := JsonAppend(buffer, cursor, remaining, PwmText(m));
    if !ok {
      return;
    }
    ok, cursor, remaining := JsonAppend(buffer, cursor, remaining, FrequencyText(m));
    if !ok {
      return;
    }
    ok, cursor, remaining := JsonAppend(buffer, cursor, remaining, GpioText(m));
    if !ok {
      return;
    }
    ok, cursor, remaining := JsonAppend(buffer, cursor, remaining, "}");
    if !ok {
      return;
    }
    newLen := bufferLen - remaining;
    crc := TextChecksum(buffer[..newLen]);
  }

  lemma PartsFit(m: Command)
    ensures |PwmText(m)| <= 34
    ensures |FrequencyText(m)| <= 26
    ensures |GpioText(m)| <= 66
  {
    Pow10Values();
    DecimalLength(m.channel, 3);
    DecimalLength(m.dutyCycle, 5);
    DecimalLength(m.pwmFrequency, 5);
    DecimalLength(m.mask, 5);
    DecimalLength(m.value, 5);
  }

  lemma HeadFits(m: Command)
    ensures |HeadText(m)| <= 52
  {
    Pow10Values();
    DecimalLength(m.timestampMs, 10);
    DecimalLength(m.sequenceId, 10);
  }

  /** No command needs more than 179 characters, so the buffer of the callers is always enough. */
  lemma CommandFits(m: Command)
    ensures |CommandText(m)| <= 179 < MAX_COMMAND_SIZE
  {
    hide HeadText, PwmText, FrequencyText, GpioText;
    HeadFits(m);
    PartsFit(m);
  }

  // ---------- The text as a printed document ----------

  function PwmDoc(m: Command): Doc {
    Fields([("ch", Nat(m.channel)), ("duty", Nat(m.dutyCycle))])
  }

  function FrequencyDoc(m: Command): Doc {
    Fields([("freq", Nat(m.pwmFrequency))])
  }

  function GpioDoc(m: Command): Doc {
    Fields([("dev", Quoted(DeviceName(m.deviceIndex))), ("port", Quoted(PortName(m.port))),
            ("mask", Nat(m.mask)), ("value", Nat(m.value))])
  }

  function HeadFields(m: Command): seq<(string, Doc)> {
    [("v", Nat(1)), ("type", Quoted("cmd")), ("ts", Nat(m.timestampMs)), ("seq", Nat(m.sequenceId))]
  }

  /** A field that is there only under a condition. */
  function When(present: bool, name: string, d: Doc): seq<(string, Doc)> {
    if present then [(name, d)] else []
  }

  function PartFields(m: Command): seq<(string, Doc)> {
    When(m.hasPwmUpdate, "set_pwm", PwmDoc(m))
    + (When(m.hasPwmFrequency, "pwm_freq", FrequencyDoc(m)) + When(m.hasGpioWrite, "write_gpio", GpioDoc(m)))
  }

  function CommandFields(m: Command): seq<(string, Doc)> {
    HeadFields(m) + PartFields(m)
  }

  lemma HeadLiterals()
    ensures "\"v\":1" == Label("v") + Decimal(1)
    ensures ",\"type\":\"cmd\"" == "," + (Label("type") + "\"cmd\"")
    ensures ",\"ts\":" == "," + Label("ts")
    ensures ",\"seq\":" == "," + Label("seq")
  {
    DecimalOne();
  }

  lemma HeadRegroup(o: string, v: string, k: string, a: string, l: string, t: string, s: string, q: string)
    ensures (o + v) + (k + a) + (k + l) + t + (k + s) + q == o + (v + (k + (a + (k + ((l + t) + (k + (s + q)))))))
  {
  }

  lemma HeadPrinted(m: Command)
    ensures HeadText(m) == "{" + PrintFields(HeadFields(m))
  {
    var t, q := m.timestampMs, m.sequenceId;
    hide Label, Decimal, PrintField, PrintFields;
    HeadLiterals();
    assert "{\"v\":1" == "{" + "\"v\":1";
    PrintFour(("v", Nat(1)), ("type", Quoted("cmd")), ("ts", Nat(t)), ("seq", Nat(q)));
    FieldPrinted(("v", Nat(1)));
    FieldPrinted(("type", Quoted("cmd")));
    FieldPrinted(("ts", Nat(t)));
    FieldPrinted(("seq", Nat(q)));
    assert "\"" + "cmd" + "\"" == "\"cmd\"";
    HeadRegroup("{", "\"v\":1", ",", Label("type") + "\"cmd\"", Label("ts"), Decimal(t), Label("seq"), Decimal(q));
  }

  lemma PwmLiterals()
    ensures ",\"set_pwm\":{\"ch\":" == "," + (Label("set_pwm") + ("{" + Label("ch")))
    ensures ",\"duty\":" == "," + Label("duty")
  {
  }

  lemma Regroup2(p: string, q: string, r: string, s: string, a: string, t: string, u: string, b: string, e: string)
    ensures (p + (q + (r + s))) + a + (t + u) + b + e == p + (q + (r + (s + (a + ((t + (u + b)) + e)))))
  {
  }

  lemma PwmPrinted(m: Command)
    ensures PwmText(m) == PrintTail(When(m.hasPwmUpdate, "set_pwm", PwmDoc(m)))
  {
    if m.hasPwmUpdate {
      hide Label, Decimal;
      PwmLiterals();
      TailOfOne("set_pwm", PwmDoc(m));
      PrintedTwo(("ch", Nat(m.channel)), ("duty", Nat(m.dutyCycle)));
      Regroup2(",", Label("set_pwm"), "{", Label("ch"), Decimal(m.channel),
               ",", Label("duty"), Decimal(m.dutyCycle), "}");
    }
  }

  lemma FrequencyLiteral()
    ensures ",\"pwm_freq\":{\"freq\":" == "," + (Label("pwm_freq") + ("{" + Label("freq")))
  {
  }

  lemma Regroup1(p: string, q: string, r: string, s: string, a: string, e: string)
    ensures (p + (q + (r + s))) + a + e == p + (q + (r + (s + (a + e))))
  {
  }

  lemma FrequencyPrinted(m: Command)
    ensures FrequencyText(m) == PrintTail(When(m.hasPwmFrequency, "pwm_freq", FrequencyDoc(m)))
  {
    if m.hasPwmFrequency {
      hide Label, Decimal;
      FrequencyLiteral();
      TailOfOne("pwm_freq", FrequencyDoc(m));
      PrintedOne(("freq", Nat(m.pwmFrequency)));
      Regroup1(",", Label("pwm_freq"), "{", Label("freq"), Decimal(m.pwmFrequency), "}");
    }
  }

  lemma GpioLiterals()
    ensures ",\"write_gpio\":{\"dev\":\"" == "," + (Label("write_gpio") + ("{" + (Label("dev") + "\"")))
  {
  }

  lemma GpioFieldLiterals()
    ensures "\",\"port\":\"" == "\"" + ("," + (Label("port") + "\""))
    ensures "\",\"mask\":" == "\"" + ("," + Label("mask"))
    ensures ",\"value\":" == "," + Label("value")
  {
  }

  lemma Regroup4(p: string, q: string, r: string, s: string, u: string, dev: string, t: string, pl: string,
                 port: string, ml: string, mask: string, vl: string, value: string, e: string)
    ensures (p + (q + (r + (s + u)))) + dev + (u + (t + (pl + u))) + port + (u + (t + ml)) + mask + (t + vl) + value + e
         == p + (q + (r + (s + ((u + dev + u) + ((t + (pl + (u + port + u)))
            + ((t + (ml + mask)) + ((t + (vl + value)) + e)))))))
  {
  }

  lemma GpioPrinted(m: Command)
    ensures GpioText(m) == PrintTail(When(m.hasGpioWrite, "write_gpio", GpioDoc(m)))
  {
    if m.hasGpioWrite {
      hide Label, Decimal, DeviceName, PortName;
      GpioLiterals();
      GpioFieldLiterals();
      TailOfOne("write_gpio", GpioDoc(m));
      PrintedFour(("dev", Quoted(DeviceName(m.deviceIndex))), ("port", Quoted(PortName(m.port))),
                  ("mask", Nat(m.mask)), ("value", Nat(m.value)));
      Regroup4(",", Label("write_gpio"), "{", Label("dev"), "\"", DeviceName(m.deviceIndex), ",", Label("port"),
               PortName(m.port), Label("mask"), Decimal(m.mask), Label("value"), Decimal(m.value), "}");
    }
  }

  /** The encoder's text is the printed form of the command's fields. */
  lemma CommandTextIsPrinted(m: Command)
    ensures CommandText(m) == Print(Fields(CommandFields(m)))
  {
    hide HeadText, PwmText, FrequencyText, GpioText, PrintTail, When, HeadFields;
    var pwm := When(m.hasPwmUpdate, "set_pwm", PwmDoc(m));
    var frequency := When(m.hasPwmFrequency, "pwm_freq", FrequencyDoc(m));
    var gpio := When(m.hasGpioWrite, "write_gpio", GpioDoc(m));
    HeadPrinted(m);
    PwmPrinted(m);
    FrequencyPrinted(m);
    GpioPrinted(m);
    PrintTailAppend(frequency, gpio);
    PrintTailAppend(pwm, frequency + gpio);
    HeadIsThere(m);
    PrintFieldsAppend(HeadFields(m), PartFields(m));
  }

  lemma HeadIsThere(m: Command)
    ensures |HeadFields(m)| > 0
  {
  }

  // ---------- Decoding ----------

  /** The command that a parsed message stands for; what is missing is zero. */
  function Interpreted(root: Option<Value>): Command {
    var pwm, frequency, gpio := Member(root, "set_pwm"), Member(root, "pwm_freq"), Member(root, "write_gpio");
    Command(
      AsUint(Member(root, "ts"), TWO32),
      AsUint(Member(root, "seq"), TWO32),
      IsObject(pwm),
      AsUint(Member(pwm, "ch"), 0x100),
      AsUint(Member(pwm, "duty"), 0x1_0000),
      IsObject(frequency),
      AsUint(Member(frequency, "freq"), 0x1_0000),
      IsObject(gpio),
      if TextOf(Member(gpio, "dev")) == Some("mcp1") then 1 else 0,
      if StartsWithB(TextOf(Member(gpio, "port"))) then 1 else 0,
      AsUint(Member(gpio, "mask"), 0x1_0000),
      AsUint(Member(gpio, "value"), 0x1_0000))
  }

  predicate StartsWithB(text: Option<string>) {
    text.Some? && |text.value| > 0 && text.value[0] == 'B'
  }

  /** Only the name mcp1 is the second expander, and only ports that start with a B are port B. */
  lemma NamesAreRead(name: string, port: string, others: seq<(string, Value)>)
    ensures var write := Object([("dev", Text(name)), ("port", Text(port))] + others);
            var m := Interpreted(Some(Object([("write_gpio", write)])));
            && m.hasGpioWrite
            && m.deviceIndex == (if name == "mcp1" then 1 else 0)
            && m.port == (if |port| > 0 && port[0] == 'B' then 1 else 0)
  {
    var inner := [("dev", Text(name)), ("port", Text(port))] + others;
    assert inner[0] == ("dev", Text(name)) && inner[1] == ("port", Text(port)) && inner[1..][0] == inner[1];
    assert SameName("dev", "dev") && !SameName("dev", "port") && SameName("port", "port");
    assert SameName("write_gpio", "write_gpio");
    assert Find(inner, "dev") == Some(Text(name)) && Find(inner, "port") == Some(Text(port));
  }

  /** A part that is not an object counts as missing. */
  lemma PartsMustBeObjects(v: Value)
    ensures Interpreted(Some(Object([("set_pwm", v)]))).hasPwmUpdate <==> v.Object?
    ensures Interpreted(Some(Object([("pwm_freq", v)]))).hasPwmFrequency <==> v.Object?
    ensures Interpreted(Some(Object([("write_gpio", v)]))).hasGpioWrite <==> v.Object?
  {
    assert SameName("set_pwm", "set_pwm") && SameName("pwm_freq", "pwm_freq") && SameName("write_gpio", "write_gpio");
    hide SameName, Member;
    OneField("set_pwm", v, "set_pwm");
    OneField("pwm_freq", v, "pwm_freq");
    OneField("write_gpio", v, "write_gpio");
  }

  const NO_COMMAND := Command(0, 0, false, 0, 0, false, 0, false, 0, 0, 0, 0)

  method DecodeCommand(payload: string, expectedCrc: bv32, previous: Command) returns (ok: bool, out: Command)
    ensures ok <==> Accepted(payload, expectedCrc)
    ensures ok ==> out == Interpreted(ValueRead(payload))
    ensures !ok ==> out == previous || out == NO_COMMAND
  {
    hide TextChecksum, ParseValue, Find;
    if expectedCrc != 0 {
      var crc := TextChecksum(payload);
      if crc != expectedCrc {
        return false, previous;
      }
    }
    out := NO_COMMAND;
    var parsed := ParseValue(payload);
    if parsed.Failed? {
      return false, out;
    }
    var root := Some(parsed.value);
    out := out.(timestampMs := AsUint(Member(root, "ts"), TWO32), sequenceId := AsUint(Member(root, "seq"), TWO32));
    var pwm := Member(root, "set_pwm");
    if IsObject(pwm) {
      out := out.(channel := AsUint(Member(pwm, "ch"), 0x100),
                  dutyCycle := AsUint(Member(pwm, "duty"), 0x1_0000),
                  hasPwmUpdate := true);
    }
    var frequency := Member(root, "pwm_freq");
    if IsObject(frequency) {
      out := out.(pwmFrequency := AsUint(Member(frequency, "freq"), 0x1_0000), hasPwmFrequency := true);
    }
    var gpio := Member(root, "write_gpio");
    if IsObject(gpio) {
      out := out.(deviceIndex := if TextOf(Member(gpio, "dev")) == Some("mcp1") then 1 else 0,
                  port := if StartsWithB(TextOf(Member(gpio, "port"))) then 1 else 0,
                  mask := AsUint(Member(gpio, "mask"), 0x1_0000),
                  value := AsUint(Member(gpio, "value"), 0x1_0000),
                  hasGpioWrite := true);
    }
    ok := true;
  }

  // ---------- Round trip ----------

  /** What the reader makes of a command: device and port are 0 or 1, absent parts are zero. */
  function Normalised(m: Command): Command {
    Command(
      m.timestampMs, m.sequenceId,
      m.hasPwmUpdate, if m.hasPwmUpdate then m.channel else 0, if m.hasPwmUpdate then m.dutyCycle else 0,
      m.hasPwmFrequency, if m.hasPwmFrequency then m.pwmFrequency else 0,
      m.hasGpioWrite,
      if m.hasGpioWrite && m.deviceIndex != 0 then 1 else 0,
      if m.hasGpioWrite && m.port != 0 then 1 else 0,
      if m.hasGpioWrite then m.mask else 0,
      if m.hasGpioWrite then m.value else 0)
  }

  lemma HeadFieldFound(m: Command)
    ensures FindDoc(HeadFields(m), "ts") == Some(Nat(m.timestampMs))
    ensures FindDoc(HeadFields(m), "seq") == Some(Nat(m.sequenceId))
  {
    FindAt(HeadFields(m), 2, "ts");
    FindAt(HeadFields(m), 3, "seq");
  }

  lemma HeadLacks(m: Command, name: string)
    requires !SameName("v", name) && !SameName("type", name) && !SameName("ts", name) && !SameName("seq", name)
    ensures FindDoc(HeadFields(m), name) == None
  {
    hide SameName;
    var kind, stamp, sequence := ("type", Quoted("cmd")), ("ts", Nat(m.timestampMs)), ("seq", Nat(m.sequenceId));
    FindPast("v", Nat(1), [kind, stamp, sequence], name);
    FindPast("type", Quoted("cmd"), [stamp, sequence], name);
    FindPast("ts", Nat(m.timestampMs), [sequence], name);
    FindPast("seq", Nat(m.sequenceId), [], name);
    assert [("v", Nat(1))] + [kind, stamp, sequence] == HeadFields(m);
    assert [kind] + [stamp, sequence] == [kind, stamp, sequence];
    assert [stamp] + [sequence] == [stamp, sequence];
    assert [sequence] + [] == [sequence];
  }

  lemma FindWhen(present: bool, name: string, d: Doc, query: string)
    ensures FindDoc(When(present, name, d), query) == if present && SameName(name, query) then Some(d) else None
  {
  }

  lemma PartFound(m: Command, name: string)
    requires name == "set_pwm" || name == "pwm_freq" || name == "write_gpio"
    ensures FindDoc(CommandFields(m), name) ==
            if name == "set_pwm" then (if m.hasPwmUpdate then Some(PwmDoc(m)) else None)
            else if name == "pwm_freq" then (if m.hasPwmFrequency then Some(FrequencyDoc(m)) else None)
            else (if m.hasGpioWrite then Some(GpioDoc(m)) else None)
  {
    HeadLacks(m, name);
    assert SameName("set_pwm", name) <==> name == "set_pwm";
    assert SameName("pwm_freq", name) <==> name == "pwm_freq";
    assert SameName("write_gpio", name) <==> name == "write_gpio";
    hide *;
    var pwm := When(m.hasPwmUpdate, "set_pwm", PwmDoc(m));
    var frequency := When(m.hasPwmFrequency, "pwm_freq", FrequencyDoc(m));
    var gpio := When(m.hasGpioWrite, "write_gpio", GpioDoc(m));
    FindWhen(m.hasPwmUpdate, "set_pwm", PwmDoc(m), name);
    FindWhen(m.hasPwmFrequency, "pwm_freq", FrequencyDoc(m), name);
    FindWhen(m.hasGpioWrite, "write_gpio", GpioDoc(m), name);
    FindDocAppend(frequency, gpio, name);
    FindDocAppend(pwm, frequency + gpio, name);
    FindDocAppend(HeadFields(m), PartFields(m), name);
    CommandFieldsAre(m);
  }

  lemma CommandFieldsAre(m: Command)
    ensures CommandFields(m) == HeadFields(m) + PartFields(m)
    ensures PartFields(m) == When(m.hasPwmUpdate, "set_pwm", PwmDoc(m))
      + (When(m.hasPwmFrequency, "pwm_freq", FrequencyDoc(m)) + When(m.hasGpioWrite, "write_gpio", GpioDoc(m)))
  {
  }

  lemma PwmFieldFound(m: Command)
    ensures Member(Some(ValueOf(PwmDoc(m))), "ch") == Some(Number(m.channel as real))
    ensures Member(Some(ValueOf(PwmDoc(m))), "duty") == Some(Number(m.dutyCycle as real))
  {
    MemberAt(PwmDoc(m).fields, 0, "ch");
    MemberAt(PwmDoc(m).fields, 1, "duty");
  }

  lemma FrequencyFieldFound(m: Command)
    ensures Member(Some(ValueOf(FrequencyDoc(m))), "freq") == Some(Number(m.pwmFrequency as real))
  {
    MemberAt(FrequencyDoc(m).fields, 0, "freq");
  }

  lemma GpioFieldFound(m: Command)
    ensures Member(Some(ValueOf(GpioDoc(m))), "dev") == Some(Text(DeviceName(m.deviceIndex)))
    ensures Member(Some(ValueOf(GpioDoc(m))), "port") == Some(Text(PortName(m.port)))
    ensures Member(Some(ValueOf(GpioDoc(m))), "mask") == Some(Number(m.mask as real))
    ensures Member(Some(ValueOf(GpioDoc(m))), "value") == Some(Number(m.value as real))
  {
    assert "port"[0] == 'p' && "mask"[0] == 'm' && !SameName("port", "mask");
    MemberAt(GpioDoc(m).fields, 0, "dev");
    MemberAt(GpioDoc(m).fields, 1, "port");
    MemberAt(GpioDoc(m).fields, 2, "mask");
    MemberAt(GpioDoc(m).fields, 3, "value");
  }

  lemma MembersFound(m: Command)
    ensures var root := Some(ValueOf(Fields(CommandFields(m))));
            && Member(root, "ts") == Some(Number(m.timestampMs as real))
            && Member(root, "seq") == Some(Number(m.sequenceId as real))
            && Member(root, "set_pwm") == (if m.hasPwmUpdate then Some(ValueOf(PwmDoc(m))) else None)
            && Member(root, "pwm_freq") == (if m.hasPwmFrequency then Some(ValueOf(FrequencyDoc(m))) else None)
            && Member(root, "write_gpio") == (if m.hasGpioWrite then Some(ValueOf(GpioDoc(m))) else None)
  {
    var fields := CommandFields(m);
    HeadFieldFound(m);
    hide FindDoc, Find, CommandFields, PwmDoc, FrequencyDoc, GpioDoc, SameName, HeadFields, PartFields;
    CommandFieldsAre(m);
    FindPrinted(fields, "ts");
    FindPrinted(fields, "seq");
    FindPrinted(fields, "set_pwm");
    FindPrinted(fields, "pwm_freq");
    FindPrinted(fields, "write_gpio");
    FindDocAppend(HeadFields(m), PartFields(m), "ts");
    FindDocAppend(HeadFields(m), PartFields(m), "seq");
    PartFound(m, "set_pwm");
    PartFound(m, "pwm_freq");
    PartFound(m, "write_gpio");
  }

  lemma PartsAreObjects(m: Command)
    ensures ValueOf(PwmDoc(m)).Object? && ValueOf(FrequencyDoc(m)).Object? && ValueOf(GpioDoc(m)).Object?
  {
  }

  /** Reading the fields back gives the normalised command. */
  lemma FieldsAreInterpreted(m: Command)
    ensures Interpreted(Some(ValueOf(Fields(CommandFields(m))))) == Normalised(m)
  {
    hide Member, ValueOf, FindDoc, Find, CommandFields, PwmDoc, FrequencyDoc, GpioDoc, SameName, Printable, Print;
    MembersFound(m);
    PartsAreObjects(m);
    PwmFieldFound(m);
    FrequencyFieldFound(m);
    GpioFieldFound(m);
    MemberOfNothing("ch");
    MemberOfNothing("duty");
    MemberOfNothing("freq");
    MemberOfNothing("dev");
    MemberOfNothing("port");
    MemberOfNothing("mask");
    MemberOfNothing("value");
  }

  lemma WhenPrintable(present: bool, name: string, d: Doc)
    requires IsPlain(name) && Printable(d)
    ensures Printable(Fields(When(present, name, d)))
  {
  }

  lemma PartsPrintable(m: Command)
    ensures Printable(PwmDoc(m)) && Printable(FrequencyDoc(m)) && Printable(GpioDoc(m))
    ensures Printable(Fields(HeadFields(m)))
  {
  }

  lemma CommandIsPrintable(m: Command)
    ensures Printable(Fields(CommandFields(m)))
  {
    assert IsPlain("set_pwm") && IsPlain("pwm_freq") && IsPlain("write_gpio");
    hide *;
    var pwm := When(m.hasPwmUpdate, "set_pwm", PwmDoc(m));
    var frequency := When(m.hasPwmFrequency, "pwm_freq", FrequencyDoc(m));
    var gpio := When(m.hasGpioWrite, "write_gpio", GpioDoc(m));
    PartsPrintable(m);
    WhenPrintable(m.hasPwmUpdate, "set_pwm", PwmDoc(m));
    WhenPrintable(m.hasPwmFrequency, "pwm_freq", FrequencyDoc(m));
    WhenPrintable(m.hasGpioWrite, "write_gpio", GpioDoc(m));
    AppendPrintable(frequency, gpio);
    AppendPrintable(pwm, frequency + gpio);
    AppendPrintable(HeadFields(m), PartFields(m));
    CommandFieldsAre(m);
  }

  /** The text of every command, with the checksum the encoder computes or without one, is read back. */
  lemma CommandRoundTrip(m: Command, expectedCrc: bv32)
    requires expectedCrc == 0 || expectedCrc == TextChecksum(CommandText(m))
    ensures Accepted(CommandText(m), expectedCrc)
    ensures Interpreted(ValueRead(CommandText(m))) == Normalised(m)
  {
    var d := Fields(CommandFields(m));
    CommandTextIsPrinted(m);
    CommandIsPrintable(m);
    hide ParseValue, Print, Printable, Interpreted, Normalised, TextChecksum, CommandText, CommandFields;
    PrintedIsRead(d, "");
    assert Print(d) + "" == Print(d);
    FieldsAreInterpreted(m);
  }
}
