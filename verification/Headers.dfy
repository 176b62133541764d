/**
 * HTTP header lines: how the client writes them and how a server reads them back.
 *
 * The HTTP library itself is not part of this model; reading follows section 3.2 of RFC 7230
 * (field-name ":" OWS field-value OWS, lines ended by CRLF).
 */
module Headers {
  import opened Bytes

  function HeaderLine(name: string, value: string): string {
    name + ": " + value + "\r\n"
  }

  predicate IsBlank(c: char) {
    c == ' ' || c == '\t'
  }

  /** The text without blanks at either end. */
  function Strip(s: string): string {
    if |s| == 0 then ""
    else if IsBlank(s[0]) then Strip(s[1..])
    else if IsBlank(s[|s| - 1]) then Strip(s[..|s| - 1])
    else s
  }

  predicate AllBlank(s: string) {
    forall i :: 0 <= i < |s| ==> IsBlank(s[i])
  }

  lemma Regroup(a: string, b: string, c: string, d: string)
    ensures a + (b + c + d) == a + b + c + d && a + b + c + d == a + b + (c + d)
  {
  }

  /** Exactly the blanks at both ends are taken off. */
  lemma {:induction false} StripMeans(s: string) returns (before: string, after: string)
    ensures AllBlank(before) && AllBlank(after) && s == before + Strip(s) + after
    ensures var r := Strip(s);
            |r| > 0 ==> !IsBlank(r[0]) && !IsBlank(r[|r| - 1])
    decreases |s|
  {
    hide IsBlank;
    before, after := "", "";
    if |s| > 0 && IsBlank(s[0]) {
      before, after := StripMeans(s[1..]);
      Regroup([s[0]], before, Strip(s), after);
      before := [s[0]] + before;
      assert s == [s[0]] + s[1..];
    } else if |s| > 0 && IsBlank(s[|s| - 1]) {
      before, after := StripMeans(s[..|s| - 1]);
      Regroup(before, Strip(s), after, [s[|s| - 1]]);
      after := after + [s[|s| - 1]];
      assert s == s[..|s| - 1] + [s[|s| - 1]];
    } else {
      assert "" + s + "" == s;
    }
  }

  /** The position of the first CRLF, or the length. */
  function LineEnd(s: string): (n: nat)
    ensures n <= |s|
  {
    if |s| < 2 then |s|
    else if s[0] == '\r' && s[1] == '\n' then 0
    else 1 + LineEnd(s[1..])
  }

  /** The position of the first colon, or the length. */
  function Colon(s: string): (n: nat)
    ensures n <= |s|
  {
    if |s| == 0 || s[0] == ':' then 0 else 1 + Colon(s[1..])
  }

  type HeaderMap = map<string, string>

  /** The fields of a header block; of several with one name the first counts. */
  function ParseHeaders(block: string): HeaderMap
    decreases |block|
  {
    var end := LineEnd(block);
    if |block| == 0 || end + 2 > |block| then map[]
    else
      var line, rest := block[..end], ParseHeaders(block[end + 2..]);
      var colon := Colon(line);
      if colon == |line| then rest else rest[line[..colon] := Strip(line[colon + 1..])]
  }

  /** A value that survives the trip: no carriage return, no blank at either end, not empty. */
  predicate IsClean(value: string) {
    && |value| > 0
    && !IsBlank(value[0]) && !IsBlank(value[|value| - 1])
    && '\r' !in value
  }

  predicate IsName(name: string) {
    '\r' !in name && ':' !in name
  }

  lemma {:induction false} LineEndFinds(line: string, rest: string)
    requires '\r' !in line
    ensures LineEnd(line + "\r\n" + rest) == |line|
  {
    var s := line + "\r\n" + rest;
    if |line| > 0 {
      assert s[0] == line[0];
      assert s[1..] == line[1..] + "\r\n" + rest;
      LineEndFinds(line[1..], rest);
    }
  }

  lemma {:induction false} ColonFinds(name: string, rest: string)
    requires ':' !in name
    ensures Colon(name + ":" + rest) == |name|
  {
    var s := name + ":" + rest;
    if |name| > 0 {
      assert s[0] == name[0];
      assert s[1..] == name[1..] + ":" + rest;
      ColonFinds(name[1..], rest);
    }
  }

  /** Reading a written line gives its name and value, in front of what follows. */
  lemma LineRoundTrip(name: string, value: string, rest: string)
    requires IsName(name) && IsClean(value)
    ensures ParseHeaders(HeaderLine(name, value) + rest) == ParseHeaders(rest)[name := value]
  {
    var line := name + ": " + value;
    var block := HeaderLine(name, value) + rest;
    assert block == line + "\r\n" + rest;
    LineEndFinds(line, rest);
    assert block[..|line|] == line && block[|line| + 2..] == rest;
    assert line == name + ":" + (" " + value);
    ColonFinds(name, " " + value);
    assert line[..|name|] == name;
    var field := line[|name| + 1..];
    assert field == " " + value && field[1..] == value;
    assert Strip(field) == Strip(value) == value;
  }

  /**
   * Looking a field up into a buffer: it fails when the field is missing or when the value and
   * its terminating zero do not fit.
   */
  function HeaderValue(headers: HeaderMap, name: string, size: nat): Option<string> {
    if name in headers && |headers[name]| < size then Some(headers[name]) else None
  }
}
