/** Numbers as text: hexadecimal bytes and decimal digits, printed and parsed. */
module Numerals {
  import opened Bytes

  // ---------- Hexadecimal ----------

  function HexDigit(v: nat, upper: bool): char
    requires v < 16
  {
    if v < 10 then ('0' as int + v) as char
    else if upper then ('A' as int + v - 10) as char
    else ('a' as int + v - 10) as char
  }

  /** The value of a hexadecimal digit in either case; 255 for any other character. */
  function HexValue(c: char): (v: byte)
    ensures v < 16 || v == 255
  {
    if '0' <= c <= '9' then c as int - '0' as int
    else if 'a' <= c <= 'f' then c as int - 'a' as int + 10
    else if 'A' <= c <= 'F' then c as int - 'A' as int + 10
    else 255
  }

  lemma HexDigitRoundTrip(v: nat, upper: bool)
    requires v < 16
    ensures HexValue(HexDigit(v, upper)) == v
  {
  }

  function Hex(data: seq<byte>, upper: bool): (s: string)
    ensures |s| == 2 * |data|
  {
    if |data| == 0 then ""
    else [HexDigit(data[0] / 16, upper), HexDigit(data[0] % 16, upper)] + Hex(data[1..], upper)
  }

  /** The digits, and which characters are read as them. */
  lemma HexDigitsAre(v: nat, c: char)
    requires v < 16
    ensures HexDigit(v, false) == "0123456789abcdef"[v] && HexDigit(v, true) == "0123456789ABCDEF"[v]
    ensures HexValue(c) == v <==> c == "0123456789abcdef"[v] || c == "0123456789ABCDEF"[v]
  {
  }

  predicate IsHex(s: string) {
    forall i :: 0 <= i < |s| ==> HexValue(s[i]) < 16
  }

  /** The bytes that pairs of digits stand for; a last single digit is ignored. */
  function FromHex(s: string): (data: seq<byte>)
    requires IsHex(s)
    ensures |data| == |s| / 2
  {
    if |s| < 2 then [] else [HexValue(s[0]) * 16 + HexValue(s[1])] + FromHex(s[2..])
  }

  /** Parsing the printed form, in either case, gives the bytes back. */
  lemma {:induction false} HexRoundTrip(data: seq<byte>, upper: bool)
    ensures IsHex(Hex(data, upper)) && FromHex(Hex(data, upper)) == data
  {
    if |data| > 0 {
      HexRoundTrip(data[1..], upper);
      HexDigitRoundTrip(data[0] / 16, upper);
      HexDigitRoundTrip(data[0] % 16, upper);
      var s := Hex(data, upper);
      assert s[2..] == Hex(data[1..], upper);
      forall i | 0 <= i < |s|
        ensures HexValue(s[i]) < 16
      {
        if i >= 2 {
          assert s[i] == s[2..][i - 2];
        }
      }
    }
  }

  lemma {:induction false} HexAppend(a: seq<byte>, b: seq<byte>, upper: bool)
    ensures Hex(a + b, upper) == Hex(a, upper) + Hex(b, upper)
  {
    if |a| == 0 {
      assert a + b == b;
    } else {
      assert (a + b)[1..] == a[1..] + b;
      HexAppend(a[1..], b, upper);
    }
  }

  lemma {:induction false} FromHexAppend(a: string, b: string)
    requires IsHex(a + b) && |a| % 2 == 0
    ensures IsHex(a) && IsHex(b) && FromHex(a + b) == FromHex(a) + FromHex(b)
    decreases |a|
  {
    forall i | 0 <= i < |a|
      ensures HexValue(a[i]) < 16
    {
      assert (a + b)[i] == a[i];
    }
    forall i | 0 <= i < |b|
      ensures HexValue(b[i]) < 16
    {
      assert (a + b)[|a| + i] == b[i];
    }
    if |a| == 0 {
      assert a + b == b;
    } else {
      assert (a + b)[2..] == a[2..] + b;
      FromHexAppend(a[2..], b);
    }
  }

  /** The lower-case printer of common/net/ws_client.c. */
  method BytesToHex(input: array<byte>, len: nat, out: array<char>)
    requires len <= input.Length && out.Length >= 2 * len + 1
    modifies out
    ensures out[..2 * len] == Hex(input[..len], false)
    ensures out[2 * len] == '\0'
  {
    var i := 0;
    while i < len
      invariant 0 <= i <= len
      invariant out[..2 * i] == Hex(input[..i], false)
    {
      ghost var before := out[..2 * i];
      out[2 * i] := HexDigit(input[i] / 16, false);
      out[2 * i + 1] := HexDigit(input[i] % 16, false);
      assert input[..i + 1] == input[..i] + [input[i]];
      HexAppend(input[..i], [input[i]], false);
      assert Hex([input[i]], false) == [HexDigit(input[i] / 16, false), HexDigit(input[i] % 16, false)];
      assert out[..2 * i + 2] == before + [out[2 * i], out[2 * i + 1]];
      i := i + 1;
    }
    out[2 * len] := '\0';
  }

  lemma EmptyHex()
    ensures IsHex("") && FromHex("") == []
  {
  }

  lemma FromHexPair(hex: string, n: nat)
    requires n + 2 <= |hex| && n % 2 == 0 && IsHex(hex[..n])
    ensures IsHex(hex[..n + 2]) <==> HexValue(hex[n]) < 16 && HexValue(hex[n + 1]) < 16
    ensures IsHex(hex[..n + 2]) ==>
      FromHex(hex[..n + 2]) == FromHex(hex[..n]) + [HexValue(hex[n]) * 16 + HexValue(hex[n + 1])]
  {
    hide HexValue;
    var pair := [hex[n], hex[n + 1]];
    assert hex[..n + 2] == hex[..n] + pair;
    assert hex[..n + 2][n] == hex[n] && hex[..n + 2][n + 1] == hex[n + 1];
    if IsHex(hex[..n + 2]) {
      FromHexAppend(hex[..n], pair);
    }
  }

  /** The nonce parser of common/net/ws_server.c. */
  method ParseHex(hex: string, out: array<byte>) returns (ok: bool)
    requires |hex| == 2 * out.Length
    modifies out
    ensures ok <==> IsHex(hex)
    ensures ok ==> out[..] == FromHex(hex)
  {
    hide FromHex, HexValue;
    EmptyHex();
    var i := 0;
    assert hex[..0] == "";
    while i < out.Length
      invariant 0 <= i <= out.Length
      invariant IsHex(hex[..2 * i]) && out[..i] == FromHex(hex[..2 * i])
    {
      var hi, lo := HexValue(hex[2 * i]), HexValue(hex[2 * i + 1]);
      FromHexPair(hex, 2 * i);
      if hi > 15 || lo > 15 {
        return false;
      }
      ghost var before := out[..i];
      out[i] := hi * 16 + lo;
      assert out[..i + 1] == before + [hi * 16 + lo];
      i := i + 1;
    }
    assert hex[..2 * i] == hex;
    return true;
  }

  // ---------- Decimal ----------

  predicate IsDigit(c: char) {
    '0' <= c <= '9'
  }

  predicate AllDigits(s: string) {
    forall i :: 0 <= i < |s| ==> IsDigit(s[i])
  }

  function DigitChar(v: nat): (c: char)
    requires v < 10
    ensures IsDigit(c)
  {
    ('0' as int + v) as char
  }

  function DigitValue(c: char): (v: nat)
    requires IsDigit(c)
    ensures v < 10
  {
    c as int - '0' as int
  }

  function Pow10(n: nat): (p: nat)
    ensures p > 0
  {
    if n == 0 then 1 else 10 * Pow10(n - 1)
  }

  /** The shortest decimal form. */
  function Decimal(n: nat): (s: string)
    ensures |s| > 0 && AllDigits(s)
  {
    if n < 10 then [DigitChar(n)] else Decimal(n / 10) + [DigitChar(n % 10)]
  }

  /** Exactly width digits, with leading zeros; higher digits are cut. */
  function Fixed(n: nat, width: nat): (s: string)
    ensures |s| == width && AllDigits(s)
  {
    if width == 0 then "" else Fixed(n / 10, width - 1) + [DigitChar(n % 10)]
  }

  /** At least width characters, with leading zeros, as the zero-padded print format gives. */
  function Padded(n: nat, width: nat): string {
    if n < Pow10(width) then Fixed(n, width) else Decimal(n)
  }

  function DecimalValue(s: string): nat
    requires AllDigits(s)
  {
    if |s| == 0 then 0 else 10 * DecimalValue(s[..|s| - 1]) + DigitValue(s[|s| - 1])
  }

  lemma {:induction false} DecimalRoundTrip(n: nat)
    ensures DecimalValue(Decimal(n)) == n
  {
    if n >= 10 {
      DecimalRoundTrip(n / 10);
      assert Decimal(n)[..|Decimal(n)| - 1] == Decimal(n / 10);
    }
  }

  lemma SplitDigit(n: nat, p: nat)
    requires n < 10 * p
    ensures n / 10 < p && n == 10 * (n / 10) + n % 10
  {
  }

  lemma DigitRoundTrip(v: nat)
    requires v < 10
    ensures DigitValue(DigitChar(v)) == v
  {
  }

  lemma {:induction false} FixedRoundTrip(n: nat, width: nat)
    requires n < Pow10(width)
    ensures DecimalValue(Fixed(n, width)) == n
  {
    hide DigitChar, DigitValue;
    if width > 0 {
      SplitDigit(n, Pow10(width - 1));
      DigitRoundTrip(n % 10);
      FixedRoundTrip(n / 10, width - 1);
      assert Fixed(n, width)[..width - 1] == Fixed(n / 10, width - 1);
      assert Fixed(n, width)[width - 1] == DigitChar(n % 10);
    }
  }

  lemma {:induction false} DecimalValueBound(s: string)
    requires AllDigits(s)
    ensures DecimalValue(s) < Pow10(|s|)
  {
    if |s| > 0 {
      DecimalValueBound(s[..|s| - 1]);
    }
  }

  lemma {:induction false} DecimalLength(n: nat, width: nat)
    requires width > 0 && n < Pow10(width)
    ensures |Decimal(n)| <= width
  {
    if n >= 10 {
      DecimalLength(n / 10, width - 1);
    }
  }

  lemma {:induction false} Pow10Monotone(a: nat, b: nat)
    requires a <= b
    ensures Pow10(a) <= Pow10(b)
    decreases b
  {
    if a < b {
      Pow10Monotone(a, b - 1);
    }
  }

  lemma Pow10Values()
    ensures Pow10(3) == 1_000 && Pow10(5) == 100_000 && Pow10(8) == 100_000_000 && Pow10(10) == 10_000_000_000
  {
    assert Pow10(3) == 1_000;
    assert Pow10(5) == 100_000;
    assert Pow10(7) == 10_000_000;
  }

  /** The one-time code parser of common/net/ws_server.c. */
  method ParseDecimalHeader(value: string, digits: byte) returns (ok: bool, code: uint32)
    ensures ok <==> 1 <= digits <= 8 && |value| == digits && AllDigits(value)
    ensures ok ==> code == DecimalValue(value)
  {
    if digits < 1 || digits > 8 || |value| != digits {
      return false, 0;
    }
    var acc: uint32 := 0;
    var i := 0;
    while i < |value|
      invariant 0 <= i <= |value|
      invariant AllDigits(value[..i]) && acc == DecimalValue(value[..i])
    {
      if !IsDigit(value[i]) {
        return false, 0;
      }
      assert value[..i + 1] == value[..i] + [value[i]];
      DecimalValueBound(value[..i + 1]);
      Pow10Monotone(i + 1, 8);
      Pow10Values();
      acc := (acc * 10 + DigitValue(value[i])) % TWO32;
      i := i + 1;
    }
    assert value[..i] == value;
    return true, acc;
  }
}
