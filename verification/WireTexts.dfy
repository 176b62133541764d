/**
 * What the messages look like on the wire, which other programs rely on: the texts of the two messages
 * in common/proto/tests/test_messages.c.
 */
module WireTexts {
  import opened Json
  import opened Lookup
  import opened Numerals
  import opened SensorUpdates
  import Commands

  const COMMAND := Commands.Command(4321, 7, true, 2, 2048, true, 800, true, 1, 0, 3, 2)

  lemma DecimalStep(n: nat)
    requires n >= 10
    ensures Decimal(n) == Decimal(n / 10) + [DigitChar(n % 10)]
  {
  }

  lemma Numbers()
    ensures Decimal(4321) == "4321" && Decimal(2048) == "2048" && Decimal(1234) == "1234"
    ensures Decimal(800) == "800" && Decimal(500) == "500" && Decimal(240) == "240"
    ensures Decimal(42) == "42" && Decimal(15) == "15"
  {
    Digits();
    hide Decimal;
    DecimalStep(43);
    DecimalStep(432);
    DecimalStep(4321);
    DecimalStep(20);
    DecimalStep(204);
    DecimalStep(2048);
    DecimalStep(12);
    DecimalStep(123);
    DecimalStep(1234);
    DecimalStep(80);
    DecimalStep(800);
    DecimalStep(50);
    DecimalStep(500);
    DecimalStep(24);
    DecimalStep(240);
    DecimalStep(42);
    DecimalStep(15);
  }

  lemma Digits()
    ensures Decimal(0) == "0" && Decimal(1) == "1" && Decimal(2) == "2" && Decimal(3) == "3" && Decimal(4) == "4"
    ensures Decimal(5) == "5" && Decimal(7) == "7" && Decimal(8) == "8"
  {
  }

  /** The command of the test. */
  lemma SampleCommand()
    ensures Commands.CommandText(COMMAND)
         == ("{\"v\":1" + ",\"type\":\"cmd\"" + ",\"ts\":" + "4321" + ",\"seq\":" + "7")
          + (",\"set_pwm\":{\"ch\":" + "2" + ",\"duty\":" + "2048" + "}")
          + (",\"pwm_freq\":{\"freq\":" + "800" + "}")
          + (",\"write_gpio\":{\"dev\":\"" + "mcp1" + "\",\"port\":\"" + "A" + "\",\"mask\":" + "3"
             + ",\"value\":" + "2" + "}")
          + "}"
  {
    hide Decimal;
    Numbers();
    Digits();
  }

  /** The test sets the port to 1 and then to 0, which counts. It reads back as 0, although the test expects 1. */
  lemma SampleCommandIsForPortA()
    ensures Commands.Interpreted(ValueRead(Commands.CommandText(COMMAND))) == COMMAND && COMMAND.port == 0
  {
    hide Commands.CommandText, ValueRead, Commands.Interpreted;
    Commands.CommandRoundTrip(COMMAND, 0);
  }

  const UPDATE := NO_UPDATE.(
    timestampMs := 1234, sequenceId := 42,
    sht20Count := 1, sht20 := [Sht20Reading("SHT20_1", 25.5, 48.2, true), NO_SHT20],
    ds18b20Count := 1, ds18b20 := [Ds18b20Reading([65, 66, 67, 68, 69, 70, 71, 72], 22.75), NO_DS18B20, NO_DS18B20,
                                   NO_DS18B20],
    mcp := [PortState(15, 240), PortState(0, 0)],
    frequency := 500, duty := [1234, 0, 0, 0, 0, 0, 0, 0, 0, 0, 0, 0, 0, 0, 0, 0])

  lemma Temperatures()
    ensures TwoPlaces(25.5) == Hundredths(false, 2550) && TwoPlaces(48.2) == Hundredths(false, 4820)
    ensures TwoPlaces(22.75) == Hundredths(false, 2275)
  {
  }

  lemma TwoDigits()
    ensures Decimal(25) == "25" && Decimal(48) == "48" && Decimal(22) == "22"
    ensures Fixed(50, 2) == "50" && Fixed(20, 2) == "20" && Fixed(75, 2) == "75"
  {
  }

  lemma PrintedTemperatures()
    ensures Print(TwoPlaces(25.5)) == "" + "25" + "." + "50"
    ensures Print(TwoPlaces(48.2)) == "" + "48" + "." + "20"
    ensures Print(TwoPlaces(22.75)) == "" + "22" + "." + "75"
  {
    hide TwoPlaces, Decimal, Fixed;
    Temperatures();
    TwoDigits();
  }

  lemma SampleAmbient()
    ensures Sht20Text(UPDATE.sht20[0])
         == "{\"id\":\"" + "SHT20_1" + "\",\"t\":" + ("" + "25" + "." + "50")
          + ",\"rh\":" + ("" + "48" + "." + "20") + ",\"ok\":" + "true" + "}"
  {
    hide Print, TwoPlaces;
    PrintedTemperatures();
  }

  lemma FourBytes()
    ensures Hex([65, 66, 67, 68], true) == "41424344" && Hex([69, 70, 71, 72], true) == "45464748"
  {
    assert [65, 66, 67, 68][1..] == [66, 67, 68] && [66, 67, 68][1..] == [67, 68] && [67, 68][1..] == [68];
    assert [69, 70, 71, 72][1..] == [70, 71, 72] && [70, 71, 72][1..] == [71, 72] && [71, 72][1..] == [72];
  }

  lemma RomCode()
    ensures Hex([65, 66, 67, 68, 69, 70, 71, 72], true) == "41424344" + "45464748"
  {
    hide Hex;
    FourBytes();
    HexAppend([65, 66, 67, 68], [69, 70, 71, 72], true);
    assert [65, 66, 67, 68] + [69, 70, 71, 72] == [65, 66, 67, 68, 69, 70, 71, 72];
  }

  lemma SampleProbe()
    ensures Ds18b20Text(UPDATE.ds18b20[0])
         == "{\"rom\":\"" + ("41424344" + "45464748") + "\",\"t\":" + ("" + "22" + "." + "75") + "}"
  {
    hide Print, TwoPlaces, Hex;
    RomCode();
    PrintedTemperatures();
  }

  lemma SamplePorts()
    ensures PortsText(UPDATE)
         == "],\"gpio\":{\"mcp0\":{\"A\":" + "15" + ",\"B\":" + "240"
          + "},\"mcp1\":{\"A\":" + "0" + ",\"B\":" + "0"
          + "}},\"pwm\":{\"pca9685\":{\"freq\":" + "500" + ",\"duty\":["
  {
    hide Decimal;
    Numbers();
    Digits();
  }

  lemma SampleHead()
    ensures HeadText(UPDATE)
         == "{\"v\":1" + ",\"type\":\"sensor_update\"" + ",\"ts\":" + "1234" + ",\"seq\":" + "42" + ",\"sht20\":["
  {
    hide Decimal;
    Numbers();
  }

  lemma OnePiece(s: string)
    ensures Joined([s]) == s
  {
    assert [s][..0] == [] && "" + ("" + s) == s;
  }

  /** The update of the test, up to the list of its duties. */
  lemma SampleUpdate()
    ensures UpdateText(UPDATE)
         == (("{\"v\":1" + ",\"type\":\"sensor_update\"" + ",\"ts\":" + "1234" + ",\"seq\":" + "42" + ",\"sht20\":[")
             + ("{\"id\":\"" + "SHT20_1" + "\",\"t\":" + ("" + "25" + "." + "50")
                + ",\"rh\":" + ("" + "48" + "." + "20") + ",\"ok\":" + "true" + "}")
             + "],\"ds18b20\":["
             + ("{\"rom\":\"" + ("41424344" + "45464748") + "\",\"t\":" + ("" + "22" + "." + "75") + "}"))
          + (("],\"gpio\":{\"mcp0\":{\"A\":" + "15" + ",\"B\":" + "240"
              + "},\"mcp1\":{\"A\":" + "0" + ",\"B\":" + "0"
              + "}},\"pwm\":{\"pca9685\":{\"freq\":" + "500" + ",\"duty\":[")
             + Joined(["1234", "0", "0", "0", "0", "0", "0", "0", "0", "0", "0", "0", "0", "0", "0", "0"]) + "]}}}")
  {
    hide HeadText, PortsText, Sht20Text, Ds18b20Text, Joined, Decimal;
    SampleHead();
    SampleAmbient();
    SampleProbe();
    SamplePorts();
    Numbers();
    Digits();
    assert Sht20Pieces(UPDATE) == [Sht20Text(UPDATE.sht20[0])];
    assert Ds18b20Pieces(UPDATE) == [Ds18b20Text(UPDATE.ds18b20[0])];
    OnePiece(Sht20Text(UPDATE.sht20[0]));
    OnePiece(Ds18b20Text(UPDATE.ds18b20[0]));
    assert DutyPieces(UPDATE)
        == ["1234", "0", "0", "0", "0", "0", "0", "0", "0", "0", "0", "0", "0", "0", "0", "0"];
  }
}
