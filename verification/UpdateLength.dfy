/** How long the text of a sensor update can be. */
module UpdateLength {
  import opened Numerals
  import opened Json
  import opened SensorUpdates

  /** Below 10^39 in size, as every finite single-precision number is. */
  predicate InFloatRange(x: real) {
    -(Pow10(39) as real) < x < Pow10(39) as real
  }

  predicate FiniteReadings(m: SensorUpdate)
    requires WellFormed(m)
  {
    && (forall i :: 0 <= i < m.sht20Count ==> InFloatRange(m.sht20[i].temperature) && InFloatRange(m.sht20[i].humidity))
    && (forall i :: 0 <= i < m.ds18b20Count ==> InFloatRange(m.ds18b20[i].temperature))
  }

  lemma NearestBound(x: real, p: nat)
    requires 0.0 <= x < p as real
    ensures Nearest(x * 100.0) / 100 <= p
  {
    var n := Nearest(x * 100.0);
    assert n as real <= x * 100.0 + 0.5 < p as real * 100.0 + 0.5;
    assert n <= p * 100;
  }

  lemma TwoPlacesLength(x: real)
    requires InFloatRange(x)
    ensures |Print(TwoPlaces(x))| <= 44
  {
    hide Pow10, Nearest;
    var size := if x < 0.0 then -x else x;
    NearestBound(size, Pow10(39));
    TenTimes(39);
    DecimalLength(Nearest(size * 100.0) / 100, 40);
  }

  lemma TenTimes(n: nat)
    ensures Pow10(n) < Pow10(n + 1)
  {
  }

  lemma Sht20Length(r: Sht20Reading)
    requires |r.id| <= 15 && InFloatRange(r.temperature) && InFloatRange(r.humidity)
    ensures |Sht20Text(r)| <= 134
  {
    hide TwoPlaces, Print;
    TwoPlacesLength(r.temperature);
    TwoPlacesLength(r.humidity);
  }

  lemma Ds18b20Length(r: Ds18b20Reading)
    requires |r.rom| == 8 && InFloatRange(r.temperature)
    ensures |Ds18b20Text(r)| <= 75
  {
    hide TwoPlaces, Print, Hex;
    TwoPlacesLength(r.temperature);
  }

  lemma {:induction false} JoinedLength(pieces: seq<string>, size: nat)
    requires forall i :: 0 <= i < |pieces| ==> |pieces[i]| <= size
    ensures |Joined(pieces)| <= |pieces| * (size + 1)
  {
    var n := |pieces|;
    if n > 0 {
      JoinedLength(pieces[..n - 1], size);
      assert n * (size + 1) == (n - 1) * (size + 1) + (size + 1);
    }
  }

  lemma ReadingsLength(m: SensorUpdate)
    requires WellFormed(m) && FiniteReadings(m)
    ensures |ReadingsText(m)| <= 659
  {
    hide Sht20Text, Ds18b20Text, Joined, InFloatRange;
    forall i | 0 <= i < m.sht20Count
      ensures |Sht20Pieces(m)[i]| <= 134
    {
      Sht20Length(m.sht20[i]);
    }
    forall i | 0 <= i < m.ds18b20Count
      ensures |Ds18b20Pieces(m)[i]| <= 75
    {
      Ds18b20Length(m.ds18b20[i]);
    }
    JoinedLength(Sht20Pieces(m), 134);
    JoinedLength(Ds18b20Pieces(m), 75);
    Pow10Values();
    DecimalLength(m.timestampMs, 10);
    DecimalLength(m.sequenceId, 10);
  }

  lemma StateLength(m: SensorUpdate)
    requires WellFormed(m)
    ensures |StateText(m)| <= 213
  {
    hide Joined;
    Pow10Values();
    forall i | 0 <= i < 16
      ensures |DutyPieces(m)[i]| <= 5
    {
      DecimalLength(m.duty[i], 5);
    }
    JoinedLength(DutyPieces(m), 5);
    PortsLength(m);
  }

  lemma PortsLength(m: SensorUpdate)
    requires WellFormed(m)
    ensures |PortsText(m)| <= 113
  {
    Pow10Values();
    DecimalLength(m.mcp[0].portA, 5);
    DecimalLength(m.mcp[0].portB, 5);
    DecimalLength(m.mcp[1].portA, 5);
    DecimalLength(m.mcp[1].portB, 5);
    DecimalLength(m.frequency, 5);
  }

  /** The text of every update with finite readings is far shorter than a staging buffer. */
  lemma UpdateFits(m: SensorUpdate)
    requires WellFormed(m) && FiniteReadings(m)
    ensures |UpdateText(m)| <= 872
  {
    hide ReadingsText, StateText;
    ReadingsLength(m);
    StateLength(m);
  }
}
