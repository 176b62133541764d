/**
 * The messages that the application reads at the end of one direction of the secure channel, over
 * whole runs of the network.
 */
module ChannelMessages {
  import opened Bytes
  import opened Channel
  import opened FramePath
  import opened Json
  import opened JsonText
  import opened Lookup
  import opened Numerals
  import Commands
  import SensorDecoding
  import SensorUpdates

  /** The checksum is taken off binary frames only; other payloads are texts without one. */
  function TakenApart(d: Delivery): Unpacked {
    match d
    case FromSealed(plain) => Unpack(plain)
    case Unopened(payload) => Unpacked(0, BytesText(payload))
  }

  /** What the command reader makes of a delivery. */
  function CommandRead(d: Delivery): Option<Commands.Command> {
    var u := TakenApart(d);
    if Accepted(u.text, u.crc) then Some(Commands.Interpreted(ValueRead(u.text))) else None
  }

  function UpdateRead(d: Delivery): Option<SensorUpdates.SensorUpdate> {
    var u := TakenApart(d);
    if Accepted(u.text, u.crc) then Some(SensorDecoding.Interpreted(ValueRead(u.text))) else None
  }

  /** Every message sent in the run was one of these commands, in this order. */
  ghost predicate SendsCommands(log: seq<Sent>, commands: seq<Commands.Command>) {
    |log| == |commands| && forall i :: 0 <= i < |log| ==> log[i].plain == Packed(Commands.CommandText(commands[i]))
  }

  ghost predicate Sendable(m: SensorUpdates.SensorUpdate) {
    SensorUpdates.WellFormed(m) && SensorDecoding.PlainIds(m) && NarrowIds(m)
  }

  ghost predicate SendsUpdates(log: seq<Sent>, updates: seq<SensorUpdates.SensorUpdate>) {
    && |log| == |updates|
    && forall i :: 0 <= i < |log| ==>
         Sendable(updates[i]) && log[i].plain == Packed(SensorUpdates.UpdateText(updates[i]))
  }

  /** The plaintexts are read as the commands at increasing positions, normalised. */
  ghost predicate ReadAsCommands(plains: seq<seq<byte>>, commands: seq<Commands.Command>, idx: seq<nat>) {
    && |idx| == |plains| && Increasing(idx)
    && forall k :: 0 <= k < |idx| ==>
         idx[k] < |commands| && CommandRead(FromSealed(plains[k])) == Some(Commands.Normalised(commands[idx[k]]))
  }

  ghost predicate ReadAsUpdate(plain: seq<byte>, m: SensorUpdates.SensorUpdate) {
    && SensorUpdates.WellFormed(m) && UpdateRead(FromSealed(plain)).Some?
    && SensorDecoding.SameButForRounding(UpdateRead(FromSealed(plain)).value, m)
  }

  /** The plaintexts are read as the updates at increasing positions, up to rounding. */
  ghost predicate ReadAsUpdates(plains: seq<seq<byte>>, updates: seq<SensorUpdates.SensorUpdate>, idx: seq<nat>) {
    && |idx| == |plains| && Increasing(idx)
    && forall k :: 0 <= k < |idx| ==> idx[k] < |updates| && ReadAsUpdate(plains[k], updates[idx[k]])
  }

  lemma PackedCommandIsRead(m: Commands.Command)
    ensures CommandRead(FromSealed(Packed(Commands.CommandText(m)))) == Some(Commands.Normalised(m))
  {
    hide Unpack, Packed, Accepted, ValueRead, Commands.CommandText, Commands.Interpreted, Commands.Normalised;
    CommandIsNarrow(m);
    PackedIsUnpacked(Commands.CommandText(m));
    Commands.CommandRoundTrip(m, Unpack(Packed(Commands.CommandText(m))).crc);
  }

  lemma PackedUpdateIsRead(m: SensorUpdates.SensorUpdate)
    requires Sendable(m)
    ensures ReadAsUpdate(Packed(SensorUpdates.UpdateText(m)), m)
  {
    hide Unpack, Packed, Accepted, ValueRead, SensorUpdates.UpdateText, SensorDecoding.Interpreted,
      SensorDecoding.SameButForRounding, SensorDecoding.PlainIds, NarrowIds;
    UpdateIsNarrow(m);
    PackedIsUnpacked(SensorUpdates.UpdateText(m));
    SensorDecoding.SensorRoundTrip(m, Unpack(Packed(SensorUpdates.UpdateText(m))).crc);
  }

  lemma PickedCommandsAreRead(log: seq<Sent>, commands: seq<Commands.Command>, idx: seq<nat>, plains: seq<seq<byte>>)
    requires SendsCommands(log, commands) && SentAt(log, idx, plains)
    ensures ReadAsCommands(plains, commands, idx)
  {
    hide CommandRead, Packed, Commands.CommandText, Commands.Normalised;
    forall k | 0 <= k < |idx|
      ensures CommandRead(FromSealed(plains[k])) == Some(Commands.Normalised(commands[idx[k]]))
    {
      PackedCommandIsRead(commands[idx[k]]);
    }
  }

  lemma PickedUpdatesAreRead(log: seq<Sent>, updates: seq<SensorUpdates.SensorUpdate>, idx: seq<nat>,
                             plains: seq<seq<byte>>)
    requires SendsUpdates(log, updates) && SentAt(log, idx, plains)
    ensures ReadAsUpdates(plains, updates, idx)
  {
    hide ReadAsUpdate, Packed, SensorUpdates.UpdateText, Sendable;
    forall k | 0 <= k < |idx|
      ensures ReadAsUpdate(plains[k], updates[idx[k]])
    {
      PackedUpdateIsRead(updates[idx[k]]);
    }
  }

  /**
   * In every run and for every connection, the commands read from sealed frames are a subsequence of
   * the commands sent, normalised: in order, none twice, none invented, none unreadable.
   */
  lemma CommandsReadAreCommandsSent(e: Setup, steps: seq<Step>, id: nat, commands: seq<Commands.Command>)
    requires IsRun(e, steps) && id < |Run(e, steps).connections|
    requires SendsCommands(Run(e, steps).log, commands)
    ensures exists idx: seq<nat> :: ReadAsCommands(OpenedOf(Run(e, steps).connections[id].delivered), commands, idx)
  {
    hide IsRun, SendsCommands, ReadAsCommands, SentAt;
    DeliveredIsSubsequence(e, steps, id);
    var idx: seq<nat> :| SentAt(Run(e, steps).log, idx, OpenedOf(Run(e, steps).connections[id].delivered));
    PickedCommandsAreRead(Run(e, steps).log, commands, idx, OpenedOf(Run(e, steps).connections[id].delivered));
  }

  /** The same for sensor updates, which are broadcast to any number of connections. */
  lemma UpdatesReadAreUpdatesSent(e: Setup, steps: seq<Step>, id: nat, updates: seq<SensorUpdates.SensorUpdate>)
    requires IsRun(e, steps) && id < |Run(e, steps).connections|
    requires SendsUpdates(Run(e, steps).log, updates)
    ensures exists idx: seq<nat> :: ReadAsUpdates(OpenedOf(Run(e, steps).connections[id].delivered), updates, idx)
  {
    hide IsRun, SendsUpdates, ReadAsUpdates, SentAt;
    DeliveredIsSubsequence(e, steps, id);
    var idx: seq<nat> :| SentAt(Run(e, steps).log, idx, OpenedOf(Run(e, steps).connections[id].delivered));
    PickedUpdatesAreRead(Run(e, steps).log, updates, idx, OpenedOf(Run(e, steps).connections[id].delivered));
  }

  /** If a connection's sealed frames arrive in order with none repeated, the command of every one is read. */
  lemma InOrderCommandsAreRead(e: Setup, steps: seq<Step>, id: nat, idx: seq<nat>, commands: seq<Commands.Command>)
    requires IsRun(e, steps) && id < |Run(e, steps).connections|
    requires FramesAt(e, Run(e, steps).log, idx, BinaryOf(Run(e, steps).connections[id].arrived))
    requires SendsCommands(Run(e, steps).log, commands)
    ensures ReadAsCommands(OpenedOf(Run(e, steps).connections[id].delivered), commands, idx)
  {
    hide IsRun, SendsCommands, ReadAsCommands, SentAt, FramesAt;
    InOrderArrivalsAreDelivered(e, steps, id, idx);
    PickedCommandsAreRead(Run(e, steps).log, commands, idx, OpenedOf(Run(e, steps).connections[id].delivered));
  }

  // ---------- All deliveries ----------

  lemma {:induction false} OpenedAt(ds: seq<Delivery>)
    requires AllFromSealed(ds)
    ensures |OpenedOf(ds)| == |ds| && forall k :: 0 <= k < |ds| ==> ds[k] == FromSealed(OpenedOf(ds)[k])
    decreases |ds|
  {
    if |ds| > 0 {
      OpenedAt(ds[..|ds| - 1]);
    }
  }

  /** Every delivery is read as the command sent at its position. */
  ghost predicate EachReadAsSent(ds: seq<Delivery>, commands: seq<Commands.Command>, idx: seq<nat>) {
    && |idx| == |ds| && Increasing(idx)
    && forall k :: 0 <= k < |idx| ==>
         idx[k] < |commands| && CommandRead(ds[k]) == Some(Commands.Normalised(commands[idx[k]]))
  }

  /** If all data frames that arrived were binary, then everything the application reads was sent. */
  lemma OnlySentCommandsAreRead(e: Setup, steps: seq<Step>, id: nat, commands: seq<Commands.Command>)
    requires IsRun(e, steps) && id < |Run(e, steps).connections|
    requires SendsCommands(Run(e, steps).log, commands)
    requires OnlyBinary(e, Run(e, steps).connections[id].arrived)
    ensures exists idx: seq<nat> :: EachReadAsSent(Run(e, steps).connections[id].delivered, commands, idx)
  {
    hide IsRun, SendsCommands, CommandRead, Commands.Normalised;
    var ds := Run(e, steps).connections[id].delivered;
    AllOpenedExactlyWhen(e, steps, id);
    OpenedAt(ds);
    CommandsReadAreCommandsSent(e, steps, id, commands);
    var idx: seq<nat> :| ReadAsCommands(OpenedOf(ds), commands, idx);
    assert EachReadAsSent(ds, commands, idx);
  }

  ghost predicate EachReadAsUpdateSent(ds: seq<Delivery>, updates: seq<SensorUpdates.SensorUpdate>, idx: seq<nat>) {
    && |idx| == |ds| && Increasing(idx)
    && forall k :: 0 <= k < |idx| ==>
         idx[k] < |updates| && ds[k].FromSealed? && ReadAsUpdate(ds[k].plain, updates[idx[k]])
  }

  lemma OnlySentUpdatesAreRead(e: Setup, steps: seq<Step>, id: nat, updates: seq<SensorUpdates.SensorUpdate>)
    requires IsRun(e, steps) && id < |Run(e, steps).connections|
    requires SendsUpdates(Run(e, steps).log, updates)
    requires OnlyBinary(e, Run(e, steps).connections[id].arrived)
    ensures exists idx: seq<nat> :: EachReadAsUpdateSent(Run(e, steps).connections[id].delivered, updates, idx)
  {
    hide IsRun, SendsUpdates, ReadAsUpdate;
    var ds := Run(e, steps).connections[id].delivered;
    AllOpenedExactlyWhen(e, steps, id);
    OpenedAt(ds);
    UpdatesReadAreUpdatesSent(e, steps, id, updates);
    var idx: seq<nat> :| ReadAsUpdates(OpenedOf(ds), updates, idx);
    assert EachReadAsUpdateSent(ds, updates, idx);
  }

  /** A payload that was not opened is read as it stands, with the checksum test off. */
  lemma UnopenedReadsAsItStands(text: string)
    requires Narrow(text)
    ensures CommandRead(Unopened(TextBytes(text)))
         == if ValueRead(text).Some? then Some(Commands.Interpreted(ValueRead(text))) else None
  {
    hide ValueRead, Commands.Interpreted;
    TextSurvives(text);
  }

  // ---------- A text frame that nobody sealed ----------

  const GPIO_FIELD :=
    "\"write_gpio\":" + "{\"dev\":\"mcp0\"" + ",\"port\":\"A\"" + ",\"mask\":1" + ",\"value\":1" + "}"
  const GPIO_TEXT := "{" + GPIO_FIELD + "}"

  /** The first pin of the first expander is set. */
  const GPIO_COMMAND := Commands.NO_COMMAND.(hasGpioWrite := true, mask := 1, value := 1)

  lemma GpioLiterals()
    ensures ",\"write_gpio\":{\"dev\":\"" == "," + ("\"write_gpio\":" + "{\"dev\":\"")
    ensures "{\"dev\":\"mcp0\"" == "{\"dev\":\"" + ("mcp0" + "\"")
    ensures "\",\"port\":\"" == "\"" + ",\"port\":\""
    ensures ",\"port\":\"A\"" == ",\"port\":\"" + ("A" + "\"")
    ensures "\",\"mask\":" == "\"" + ",\"mask\":"
    ensures ",\"mask\":1" == ",\"mask\":" + "1"
    ensures ",\"value\":1" == ",\"value\":" + "1"
  {
  }

  lemma GpioRegroup(c: string, w: string, o: string, m: string, q: string, p: string, a: string, k: string, one: string,
                    v: string, e: string)
    ensures (c + (w + o)) + m + (q + p) + a + (q + k) + one + v + one + e
         == c + (w + (o + (m + q)) + (p + (a + q)) + (k + one) + (v + one) + e)
  {
  }

  lemma GpioTextParts()
    ensures Commands.GpioText(GPIO_COMMAND) == ",\"write_gpio\":{\"dev\":\"" + "mcp0" + "\",\"port\":\"" + "A"
      + "\",\"mask\":" + Decimal(1) + ",\"value\":" + Decimal(1) + "}"
  {
    hide Decimal;
  }

  lemma GpioTextIsPrinted()
    ensures GPIO_TEXT == Print(Fields(Commands.When(true, "write_gpio", Commands.GpioDoc(GPIO_COMMAND))))
  {
    hide Decimal, PrintFields, Commands.GpioText;
    var fields := Commands.When(true, "write_gpio", Commands.GpioDoc(GPIO_COMMAND));
    DecimalOne();
    GpioTextParts();
    GpioLiterals();
    GpioRegroup(",", "\"write_gpio\":", "{\"dev\":\"", "mcp0", "\"", ",\"port\":\"", "A", ",\"mask\":", "1",
                ",\"value\":", "}");
    Commands.GpioPrinted(GPIO_COMMAND);
    assert ("," + GPIO_FIELD)[1..] == GPIO_FIELD && ("," + PrintFields(fields))[1..] == PrintFields(fields);
  }

  lemma GpioTextIsNarrow()
    ensures Narrow(GPIO_TEXT)
  {
    hide Narrow;
    NarrowNames();
    assert NarrowDoc(Commands.GpioDoc(GPIO_COMMAND));
    PrintIsNarrow(Fields(Commands.When(true, "write_gpio", Commands.GpioDoc(GPIO_COMMAND))));
    GpioTextIsPrinted();
  }

  lemma GpioTextIsRead()
    ensures ValueRead(GPIO_TEXT).Some? && Commands.Interpreted(ValueRead(GPIO_TEXT)) == GPIO_COMMAND
  {
    hide ParseValue, Print, Printable, Member, ValueOf, Commands.GpioDoc, Commands.When, GPIO_TEXT;
    var d := Fields(Commands.When(true, "write_gpio", Commands.GpioDoc(GPIO_COMMAND)));
    GpioTextIsPrinted();
    GpioIsPrintable();
    PrintedIsRead(d, "");
    assert Print(d) + "" == Print(d);
    GpioFieldsFound();
    MemberOfNothing("ch");
    MemberOfNothing("duty");
    MemberOfNothing("freq");
    Commands.GpioFieldFound(GPIO_COMMAND);
    Commands.PartsAreObjects(GPIO_COMMAND);
  }

  lemma GpioIsPrintable()
    ensures Printable(Fields(Commands.When(true, "write_gpio", Commands.GpioDoc(GPIO_COMMAND))))
  {
    Commands.PartsPrintable(GPIO_COMMAND);
    Commands.WhenPrintable(true, "write_gpio", Commands.GpioDoc(GPIO_COMMAND));
  }

  lemma GpioFieldsFound()
    ensures var root := Some(ValueOf(Fields(Commands.When(true, "write_gpio", Commands.GpioDoc(GPIO_COMMAND)))));
            && Member(root, "write_gpio") == Some(ValueOf(Commands.GpioDoc(GPIO_COMMAND)))
            && Member(root, "ts") == None && Member(root, "seq") == None
            && Member(root, "set_pwm") == None && Member(root, "pwm_freq") == None
  {
    var fields := Commands.When(true, "write_gpio", Commands.GpioDoc(GPIO_COMMAND));
    assert !SameName("write_gpio", "ts") && !SameName("write_gpio", "seq");
    assert !SameName("write_gpio", "set_pwm") && !SameName("write_gpio", "pwm_freq");
    assert SameName("write_gpio", "write_gpio");
    hide SameName, Commands.GpioDoc, Find, FindDoc, Commands.When;
    GpioFieldsFoundAs("write_gpio");
    GpioFieldsFoundAs("ts");
    GpioFieldsFoundAs("seq");
    GpioFieldsFoundAs("set_pwm");
    GpioFieldsFoundAs("pwm_freq");
  }

  lemma GpioFieldsFoundAs(name: string)
    ensures var fields := Commands.When(true, "write_gpio", Commands.GpioDoc(GPIO_COMMAND));
            Member(Some(ValueOf(Fields(fields))), name) ==
            if SameName("write_gpio", name) then Some(ValueOf(Commands.GpioDoc(GPIO_COMMAND))) else None
  {
    var fields := Commands.When(true, "write_gpio", Commands.GpioDoc(GPIO_COMMAND));
    hide SameName, Commands.GpioDoc, Find, FindDoc, Commands.When;
    Commands.FindWhen(true, "write_gpio", Commands.GpioDoc(GPIO_COMMAND), name);
    FindPrinted(fields, name);
  }

  /**
   * Nothing is sent and one text frame arrives: its command is read, on either end, although it was
   * never sealed and carries no checksum.
   */
  lemma TextFrameIsRead(e: Setup)
    requires SecureFrame.Lawful(e.aead)
    ensures var steps := UnsealedRun(Other, TextBytes(GPIO_TEXT));
            && IsRun(e, steps) && Run(e, steps).log == [] && |Run(e, steps).connections| == 1
            && var ds := Run(e, steps).connections[0].delivered;
               |ds| == 1 && CommandRead(ds[0]) == Some(GPIO_COMMAND)
  {
    assert |GPIO_TEXT| > 0;
    hide CommandRead, IsRun, Run, GPIO_TEXT;
    GpioTextIsNarrow();
    UnsealedDataIsDelivered(e, Other, TextBytes(GPIO_TEXT));
    UnopenedReadsAsItStands(GPIO_TEXT);
    GpioTextIsRead();
  }
}
