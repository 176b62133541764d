/**
 * A reader for JSON, after sections 2 to 7 of RFC 8259, and the compact printed form that it reads back.
 *
 * A character is one byte; texts and names end at their first zero byte, as strings do in C.
 */
module Json {
  import opened Bytes
  import opened Numerals

  datatype Value =
    | Null
    | Boolean(truth: bool)
    | Number(number: real)
    | Text(text: string)
    | List(items: seq<Value>)
    | Object(fields: seq<(string, Value)>)

  // ---------- Reading ----------

  /** What was read and the characters after it. */
  datatype Parsed<+T> = Failed | Read(value: T, rest: string)

  predicate IsBlank(c: char) {
    c == ' ' || c == '\t' || c == '\n' || c == '\r'
  }

  function SkipBlanks(s: string): (rest: string)
    ensures |rest| <= |s|
  {
    if |s| > 0 && IsBlank(s[0]) then SkipBlanks(s[1..]) else s
  }

  function Escaped(c: char): Option<char> {
    match c
    case '"' => Some('"')
    case '\\' => Some('\\')
    case '/' => Some('/')
    case 'n' => Some('\n')
    case 'r' => Some('\r')
    case 't' => Some('\t')
    case 'b' => Some(8 as char)
    case 'f' => Some(12 as char)
    case _ => None
  }

  /** The number that four hexadecimal digits at the given place stand for. */
  function Hex4(s: string, at: nat): (code: Option<nat>)
    ensures code.Some? ==> at + 4 <= |s| && code.value < 0x1_0000
  {
    if |s| < at + 4 || !IsHex(s[at..at + 4]) then None
    else
      var data := FromHex(s[at..at + 4]);
      var high: nat := data[0];
      Some(high * 256 + data[1])
  }

  /** A code point and the number of characters of its escape, which starts with the letter u. */
  datatype CodePoint = NoCode | CodePoint(code: nat, length: nat)

  /** One escape, or a pair of them for a code point beyond 16 bits; half a pair stands for nothing. */
  function UnicodeEscape(s: string): (p: CodePoint)
    requires |s| > 0 && s[0] == 'u'
    ensures p.CodePoint? ==> 0 < p.length <= |s| && p.code < 0x11_0000
  {
    var first := Hex4(s, 1);
    if first == None || 0xDC00 <= first.value < 0xE000 then NoCode
    else if first.value < 0xD800 || first.value >= 0xE000 then CodePoint(first.value, 5)
    else if |s| < 7 || s[5] != '\\' || s[6] != 'u' then NoCode
    else
      var second := Hex4(s, 7);
      if second == None || second.value < 0xDC00 || second.value >= 0xE000 then NoCode
      else CodePoint(0x1_0000 + (first.value - 0xD800) * 0x400 + (second.value - 0xDC00), 11)
  }

  /** The UTF-8 bytes of a code point. */
  function Utf8(code: nat): string
    requires code < 0x11_0000
  {
    if code < 0x80 then [code as char]
    else if code < 0x800 then [(0xC0 + code / 0x40) as char, (0x80 + code % 0x40) as char]
    else if code < 0x1_0000 then
      [(0xE0 + code / 0x1000) as char, (0x80 + code / 0x40 % 0x40) as char, (0x80 + code % 0x40) as char]
    else
      [(0xF0 + code / 0x4_0000) as char, (0x80 + code / 0x1000 % 0x40) as char,
       (0x80 + code / 0x40 % 0x40) as char, (0x80 + code % 0x40) as char]
  }

  /** The characters up to the closing quote. */
  function ParseChars(s: string): (p: Parsed<string>)
    ensures p.Read? ==> |p.rest| < |s|
    decreases |s|, 1
  {
    if |s| == 0 || s[0] < ' ' then Failed
    else if s[0] == '"' then Read("", s[1..])
    else if s[0] == '\\' then ParseEscape(s)
    else match ParseChars(s[1..])
      case Failed => Failed
      case Read(text, rest) => Read([s[0]] + text, rest)
  }

  /** The same for a text that starts with an escape. */
  function ParseEscape(s: string): (p: Parsed<string>)
    requires |s| > 0
    ensures p.Read? ==> |p.rest| < |s|
    decreases |s|, 0
  {
    if |s| < 2 then Failed
    else if s[1] == 'u' then
      match UnicodeEscape(s[1..])
      case NoCode => Failed
      case CodePoint(code, length) =>
        match ParseChars(s[1 + length..])
        case Failed => Failed
        case Read(text, rest) => Read(Utf8(code) + text, rest)
    else if Escaped(s[1]) == None then Failed
    else match ParseChars(s[2..])
      case Failed => Failed
      case Read(text, rest) => Read([Escaped(s[1]).value] + text, rest)
  }

  /** A text up to its first zero byte. */
  function CString(text: string): string {
    if |text| == 0 || text[0] == '\0' then "" else [text[0]] + CString(text[1..])
  }

  /** The text up to its first zero character. */
  lemma {:induction false} CStringMeans(text: string)
    ensures var c := CString(text);
            c <= text && '\0' !in c && (c != text ==> text[|c|] == '\0')
  {
    if |text| > 0 && text[0] != '\0' {
      CStringMeans(text[1..]);
      assert text == [text[0]] + text[1..];
    }
  }

  /** The longest run of digits at the front. */
  function Digits(s: string): (digits: string)
    ensures AllDigits(digits) && |digits| <= |s| && digits == s[..|digits|]
  {
    if |s| == 0 || !IsDigit(s[0]) then "" else [s[0]] + Digits(s[1..])
  }

  function Signed(negative: bool, value: real): real {
    if negative then -value else value
  }

  /** The digits after a decimal point. */
  function FractionValue(digits: string): real
    requires AllDigits(digits)
  {
    DecimalValue(digits) as real / Pow10(|digits|) as real
  }

  /** Digits without superfluous zeros and an optional fraction. */
  function ParseMantissa(s: string): (p: Parsed<real>)
    ensures p.Read? ==> |p.rest| < |s|
  {
    var whole := Digits(s);
    if whole == "" || (|whole| > 1 && whole[0] == '0') then Failed
    else
      var rest := s[|whole|..];
      if |rest| == 0 || rest[0] != '.' then Read(DecimalValue(whole) as real, rest)
      else
        var fraction := Digits(rest[1..]);
        if fraction == "" then Failed
        else Read(DecimalValue(whole) as real + FractionValue(fraction), rest[1 + |fraction|..])
  }

  /** A power of ten, if one is written at the front. */
  function ParseExponent(s: string): (p: Parsed<int>)
    ensures p.Read? ==> |p.rest| <= |s|
  {
    if |s| == 0 || (s[0] != 'e' && s[0] != 'E') then Read(0, s)
    else
      var signed := |s| > 1 && (s[1] == '+' || s[1] == '-');
      var start := if signed then 2 else 1;
      var digits := Digits(s[start..]);
      if digits == "" then Failed
      else
        var size: int := DecimalValue(digits);
        Read(if s[1] == '-' then -size else size, s[start + |digits|..])
  }

  function Scaled(value: real, exponent: int): real {
    if exponent >= 0 then value * Pow10(exponent) as real else value / Pow10(-exponent) as real
  }

  function ParseUnsigned(s: string, negative: bool): (p: Parsed<real>)
    ensures p.Read? ==> |p.rest| < |s|
  {
    match ParseMantissa(s)
    case Failed => Failed
    case Read(value, rest) =>
      match ParseExponent(rest)
      case Failed => Failed
      case Read(exponent, last) => Read(Signed(negative, Scaled(value, exponent)), last)
  }

  function ParseNumber(s: string): (p: Parsed<real>)
    ensures p.Read? ==> |p.rest| < |s|
  {
    if |s| > 0 && s[0] == '-' then ParseUnsigned(s[1..], true) else ParseUnsigned(s, false)
  }

  function ParseValue(s: string): (p: Parsed<Value>)
    ensures p.Read? ==> |p.rest| < |s|
    decreases |s|, 1
  {
    var t := SkipBlanks(s);
    if |t| == 0 then Failed
    else if t[0] == '{' then
      var u := SkipBlanks(t[1..]);
      if |u| > 0 && u[0] == '}' then Read(Object([]), u[1..])
      else match ParseMembers(u)
        case Failed => Failed
        case Read(fields, rest) => Read(Object(fields), rest)
    else if t[0] == '[' then
      var u := SkipBlanks(t[1..]);
      if |u| > 0 && u[0] == ']' then Read(List([]), u[1..])
      else match ParseItems(u)
        case Failed => Failed
        case Read(items, rest) => Read(List(items), rest)
    else if t[0] == '"' then
      match ParseChars(t[1..])
      case Failed => Failed
      case Read(text, rest) => Read(Text(CString(text)), rest)
    else if t[0] == '-' || IsDigit(t[0]) then
      match ParseNumber(t)
      case Failed => Failed
      case Read(number, rest) => Read(Number(number), rest)
    else if "true" <= t then Read(Boolean(true), t[4..])
    else if "false" <= t then Read(Boolean(false), t[5..])
    else if "null" <= t then Read(Null, t[4..])
    else Failed
  }

  /** Name and value pairs up to the closing brace. */
  function ParseMembers(s: string): (p: Parsed<seq<(string, Value)>>)
    ensures p.Read? ==> |p.rest| < |s|
    decreases |s|, 0
  {
    if |s| == 0 || s[0] != '"' then Failed
    else match ParseChars(s[1..])
      case Failed => Failed
      case Read(name, afterName) =>
        var colon := SkipBlanks(afterName);
        if |colon| == 0 || colon[0] != ':' then Failed
        else match ParseValue(colon[1..])
          case Failed => Failed
          case Read(value, afterValue) =>
            var next := SkipBlanks(afterValue);
            if |next| == 0 then Failed
            else if next[0] == '}' then Read([(CString(name), value)], next[1..])
            else if next[0] == ',' then
              match ParseMembers(SkipBlanks(next[1..]))
              case Failed => Failed
              case Read(fields, rest) => Read([(CString(name), value)] + fields, rest)
            else Failed
  }

  /** Values up to the closing bracket. */
  function ParseItems(s: string): (p: Parsed<seq<Value>>)
    ensures p.Read? ==> |p.rest| < |s|
    decreases |s|, 2
  {
    match ParseValue(s)
    case Failed => Failed
    case Read(value, afterValue) =>
      var next := SkipBlanks(afterValue);
      if |next| == 0 then Failed
      else if next[0] == ']' then Read([value], next[1..])
      else if next[0] == ',' then
        match ParseItems(next[1..])
        case Failed => Failed
        case Read(items, rest) => Read([value] + items, rest)
      else Failed
  }

  // ---------- Printing ----------

  /** A value in the forms that the encoders print: natural numbers and fixed two-place decimals. */
  datatype Doc =
    | Nat(n: nat)
    | Hundredths(negative: bool, count: nat)
    | Flag(truth: bool)
    | Quoted(text: string)
    | Items(items: seq<Doc>)
    | Fields(fields: seq<(string, Doc)>)

  function Print(d: Doc): string
    decreases d
  {
    match d
    case Nat(n) => Decimal(n)
    case Hundredths(negative, count) =>
      (if negative then "-" else "") + Decimal(count / 100) + "." + Fixed(count % 100, 2)
    case Flag(truth) => if truth then "true" else "false"
    case Quoted(text) => "\"" + text + "\""
    case Items(items) => "[" + PrintItems(items) + "]"
    case Fields(fields) => "{" + PrintFields(fields) + "}"
  }

  function PrintItems(items: seq<Doc>): string
    decreases items
  {
    if |items| == 0 then ""
    else Print(items[0]) + if |items| == 1 then "" else "," + PrintItems(items[1..])
  }

  function PrintField(field: (string, Doc)): string
    decreases field
  {
    "\"" + field.0 + "\":" + Print(field.1)
  }

  function PrintFields(fields: seq<(string, Doc)>): string
    decreases fields
  {
    if |fields| == 0 then ""
    else PrintField(fields[0]) + if |fields| == 1 then "" else "," + PrintFields(fields[1..])
  }

  /** The value that a printed form stands for. */
  function ValueOf(d: Doc): Value
    decreases d
  {
    match d
    case Nat(n) => Number(n as real)
    case Hundredths(negative, count) => Number(Signed(negative, count as real / 100.0))
    case Flag(truth) => Boolean(truth)
    case Quoted(text) => Text(text)
    case Items(items) => List(ItemValues(items))
    case Fields(fields) => Object(FieldValues(fields))
  }

  function ItemValues(items: seq<Doc>): (values: seq<Value>)
    ensures |values| == |items|
    decreases items
  {
    if |items| == 0 then [] else [ValueOf(items[0])] + ItemValues(items[1..])
  }

  function FieldValue(field: (string, Doc)): (string, Value)
    decreases field
  {
    (field.0, ValueOf(field.1))
  }

  function FieldValues(fields: seq<(string, Doc)>): (values: seq<(string, Value)>)
    ensures |values| == |fields|
    decreases fields
  {
    if |fields| == 0 then [] else [FieldValue(fields[0])] + FieldValues(fields[1..])
  }

  /** Text that needs no escape inside quotes. */
  predicate IsPlain(s: string) {
    forall i :: 0 <= i < |s| ==> s[i] >= ' ' && s[i] != '"' && s[i] != '\\'
  }

  predicate Printable(d: Doc)
    decreases d
  {
    match d
    case Quoted(text) => IsPlain(text)
    case Items(items) => forall i :: 0 <= i < |items| ==> Printable(items[i])
    case Fields(fields) => forall i :: 0 <= i < |fields| ==> IsPlain(fields[i].0) && Printable(fields[i].1)
    case _ => true
  }

  /** What may follow a value: nothing, or a character that no value continues with. */
  predicate Ends(rest: string) {
    |rest| == 0 || rest[0] == ',' || rest[0] == '}' || rest[0] == ']'
  }

  // ---------- Reading what was printed ----------

  lemma {:induction false} CharsRoundTrip(text: string, rest: string)
    requires IsPlain(text)
    ensures ParseChars(text + "\"" + rest) == Read(text, rest)
  {
    var s := text + "\"" + rest;
    if |text| == 0 {
      assert s[1..] == rest;
    } else {
      assert s[0] == text[0] && s[1..] == text[1..] + "\"" + rest;
      CharsRoundTrip(text[1..], rest);
      assert [text[0]] + text[1..] == text;
    }
  }

  lemma {:induction false} DigitsFound(digits: string, rest: string)
    requires AllDigits(digits) && (|rest| == 0 || !IsDigit(rest[0]))
    ensures Digits(digits + rest) == digits
  {
    var s := digits + rest;
    if |digits| == 0 {
      assert s == rest;
    } else {
      assert s[0] == digits[0] && s[1..] == digits[1..] + rest;
      DigitsFound(digits[1..], rest);
    }
  }

  lemma {:induction false} NoLeadingZero(n: nat)
    ensures |Decimal(n)| > 1 ==> Decimal(n)[0] != '0'
    ensures IsDigit(Decimal(n)[0])
  {
    if n >= 10 {
      NoLeadingZero(n / 10);
    }
  }

  lemma NoExponent(value: real, negative: bool, s: string, rest: string)
    requires Ends(rest) && ParseMantissa(s) == Read(value, rest)
    ensures ParseUnsigned(s, negative) == Read(Signed(negative, value), rest)
  {
    hide ParseMantissa, Signed;
  }

  lemma NatRoundTrip(n: nat, rest: string)
    requires Ends(rest)
    ensures ParseNumber(Decimal(n) + rest) == Read(n as real, rest)
  {
    var s := Decimal(n) + rest;
    NoLeadingZero(n);
    assert s[0] == Decimal(n)[0];
    DigitsFound(Decimal(n), rest);
    DecimalRoundTrip(n);
    assert s[|Decimal(n)|..] == rest;
    NoExponent(n as real, false, s, rest);
  }

  lemma HundredthsValue(count: nat)
    ensures DecimalValue(Decimal(count / 100)) as real + FractionValue(Fixed(count % 100, 2)) == count as real / 100.0
  {
    DecimalRoundTrip(count / 100);
    assert Pow10(2) == 100;
    FixedRoundTrip(count % 100, 2);
    assert count as real == (count / 100) as real * 100.0 + (count % 100) as real;
  }

  lemma DigitsThen(digits: string, rest: string)
    requires AllDigits(digits) && |digits| > 0 && (|rest| == 0 || !IsDigit(rest[0]))
    ensures var s := digits + rest;
            s[0] == digits[0] && Digits(s) == digits && s[|digits|..] == rest
  {
    DigitsFound(digits, rest);
  }

  lemma FractionStep(s: string, fraction: string)
    requires var whole := Digits(s);
             && |whole| > 0 && (|whole| > 1 ==> whole[0] != '0')
             && |whole| < |s| && s[|whole|] == '.'
             && Digits(s[|whole|..][1..]) == fraction && |fraction| > 0
    ensures ParseMantissa(s)
         == Read(DecimalValue(Digits(s)) as real + FractionValue(fraction), s[|Digits(s)|..][1 + |fraction|..])
  {
    hide Digits, DecimalValue, FractionValue;
  }

  lemma FractionRead(negative: bool, whole: string, fraction: string, rest: string)
    requires AllDigits(whole) && |whole| > 0 && (|whole| > 1 ==> whole[0] != '0')
    requires AllDigits(fraction) && |fraction| > 0 && Ends(rest)
    ensures ParseUnsigned(whole + ("." + (fraction + rest)), negative)
         == Read(Signed(negative, DecimalValue(whole) as real + FractionValue(fraction)), rest)
  {
    hide Digits, DecimalValue, FractionValue, Signed, ParseUnsigned, ParseMantissa;
    var after := "." + (fraction + rest);
    DigitsThen(whole, after);
    DigitsThen(fraction, rest);
    assert after[1..] == fraction + rest;
    assert after[1 + |fraction|..] == rest;
    FractionStep(whole + after, fraction);
    NoExponent(DecimalValue(whole) as real + FractionValue(fraction), negative, whole + after, rest);
  }

  lemma HundredthsRoundTrip(negative: bool, count: nat, rest: string)
    requires Ends(rest)
    ensures var s := Print(Hundredths(negative, count)) + rest;
            && (s[0] == '-' || IsDigit(s[0]))
            && ParseNumber(s) == Read(Signed(negative, count as real / 100.0), rest)
  {
    hide DecimalValue, FractionValue, Decimal, Fixed, ParseUnsigned, Signed;
    var whole, fraction := Decimal(count / 100), Fixed(count % 100, 2);
    var unsigned := whole + ("." + (fraction + rest));
    NoLeadingZero(count / 100);
    HundredthsValue(count);
    FractionRead(negative, whole, fraction, rest);
    var s := Print(Hundredths(negative, count)) + rest;
    if negative {
      assert s[1..] == unsigned;
    } else {
      assert s == unsigned;
      assert unsigned[0] == whole[0];
    }
  }

  // ---------- Steps of the reader ----------

  lemma StartsBlankFree(s: string)
    requires |s| > 0 && !IsBlank(s[0])
    ensures SkipBlanks(s) == s
  {
  }

  lemma NumberStep(s: string, number: real, rest: string)
    requires |s| > 0 && (s[0] == '-' || IsDigit(s[0])) && ParseNumber(s) == Read(number, rest)
    ensures ParseValue(s) == Read(Number(number), rest)
  {
    hide ParseNumber;
  }

  lemma {:induction false} PlainIsWhole(text: string)
    requires IsPlain(text)
    ensures CString(text) == text
  {
    if |text| > 0 {
      PlainIsWhole(text[1..]);
    }
  }

  lemma TextStep(s: string, text: string, rest: string)
    requires |s| > 0 && s[0] == '"' && ParseChars(s[1..]) == Read(text, rest) && IsPlain(text)
    ensures ParseValue(s) == Read(Text(text), rest)
  {
    hide ParseChars, CString, IsPlain;
    PlainIsWhole(text);
  }

  lemma FlagStep(truth: bool, rest: string)
    ensures ParseValue(Print(Flag(truth)) + rest) == Read(Boolean(truth), rest)
  {
    var s := Print(Flag(truth)) + rest;
    assert s[0] == if truth then 't' else 'f';
    assert (if truth then "true" else "false") <= s;
    assert s[|Print(Flag(truth))|..] == rest;
  }

  lemma EmptyStep(rest: string)
    ensures ParseValue("[]" + rest) == Read(List([]), rest)
    ensures ParseValue("{}" + rest) == Read(Object([]), rest)
  {
    var s, t := "[]" + rest, "{}" + rest;
    assert s[1..] == "]" + rest && s[1..][1..] == rest;
    assert t[1..] == "}" + rest && t[1..][1..] == rest;
  }

  lemma ListStep(s: string, items: seq<Value>, rest: string)
    requires |s| > 1 && s[0] == '[' && !IsBlank(s[1]) && s[1] != ']' && ParseItems(s[1..]) == Read(items, rest)
    ensures ParseValue(s) == Read(List(items), rest)
  {
    hide ParseItems;
    StartsBlankFree(s[1..]);
  }

  lemma ObjectStep(s: string, fields: seq<(string, Value)>, rest: string)
    requires |s| > 1 && s[0] == '{' && s[1] == '"' && ParseMembers(s[1..]) == Read(fields, rest)
    ensures ParseValue(s) == Read(Object(fields), rest)
  {
    hide ParseMembers;
    StartsBlankFree(s[1..]);
  }

  lemma LastItemStep(s: string, value: Value, rest: string)
    requires ParseValue(s) == Read(value, "]" + rest)
    ensures ParseItems(s) == Read([value], rest)
  {
    hide ParseValue;
    StartsBlankFree("]" + rest);
    assert ("]" + rest)[1..] == rest;
  }

  lemma ItemStep(s: string, value: Value, others: string, items: seq<Value>, rest: string)
    requires ParseValue(s) == Read(value, "," + others) && ParseItems(others) == Read(items, rest)
    ensures ParseItems(s) == Read([value] + items, rest)
  {
    hide ParseValue;
    StartsBlankFree("," + others);
    assert ("," + others)[1..] == others;
  }

  /** A name, a colon and a value at the front of the text. */
  ghost predicate IsMember(s: string, name: string, value: Value, rest: string) {
    && |s| > 0 && s[0] == '"'
    && ParseChars(s[1..]).Read? && CString(ParseChars(s[1..]).value) == name
    && var after := ParseChars(s[1..]).rest;
       |after| > 0 && after[0] == ':' && ParseValue(after[1..]) == Read(value, rest)
  }

  lemma LastMemberStep(s: string, name: string, value: Value, rest: string)
    requires IsMember(s, name, value, "}" + rest)
    ensures ParseMembers(s) == Read([(name, value)], rest)
  {
    hide ParseValue, ParseChars, CString;
    StartsBlankFree(ParseChars(s[1..]).rest);
    StartsBlankFree("}" + rest);
    assert ("}" + rest)[1..] == rest;
  }

  lemma MemberStep(s: string, name: string, value: Value, others: string, fields: seq<(string, Value)>, rest: string)
    requires IsMember(s, name, value, "," + others)
    requires |others| > 0 && others[0] == '"' && ParseMembers(others) == Read(fields, rest)
    ensures ParseMembers(s) == Read([(name, value)] + fields, rest)
  {
    hide ParseValue, ParseChars, CString;
    StartsBlankFree(ParseChars(s[1..]).rest);
    StartsBlankFree("," + others);
    assert ("," + others)[1..] == others;
    StartsBlankFree(others);
  }

  // ---------- Induction over what was printed ----------

  /** A printed value starts with something that is neither blank nor a closing bracket. */
  lemma PrintStarts(d: Doc)
    ensures |Print(d)| > 0 && !IsBlank(Print(d)[0]) && Print(d)[0] != ']'
  {
    match d
    case Nat(n) => NoLeadingZero(n);
    case Hundredths(negative, count) => NoLeadingZero(count / 100);
    case _ =>
  }

  lemma ItemsWrapped(items: seq<Doc>, rest: string)
    requires |items| > 0
    requires ParseItems(PrintItems(items) + "]" + rest) == Read(ItemValues(items), rest)
    ensures ParseValue(Print(Items(items)) + rest) == Read(ValueOf(Items(items)), rest)
  {
    hide ParseValue, ParseItems, ItemValues;
    var s := Print(Items(items)) + rest;
    assert s[1..] == PrintItems(items) + "]" + rest;
    PrintStarts(items[0]);
    assert s[1] == PrintItems(items)[0] == Print(items[0])[0];
    ListStep(s, ItemValues(items), rest);
  }

  lemma FieldsWrapped(fields: seq<(string, Doc)>, rest: string)
    requires |fields| > 0
    requires ParseMembers(PrintFields(fields) + "}" + rest) == Read(FieldValues(fields), rest)
    ensures ParseValue(Print(Fields(fields)) + rest) == Read(ValueOf(Fields(fields)), rest)
  {
    hide ParseValue, ParseMembers, FieldValues;
    var s := Print(Fields(fields)) + rest;
    assert s[1..] == PrintFields(fields) + "}" + rest;
    assert s[1] == PrintFields(fields)[0] == '"';
    ObjectStep(s, FieldValues(fields), rest);
  }

  /** Reading a printed value gives the value, and stops where it ends. */
  lemma {:induction false} PrintedIsRead(d: Doc, rest: string)
    requires Printable(d) && Ends(rest)
    ensures ParseValue(Print(d) + rest) == Read(ValueOf(d), rest)
    decreases d, 1
  {
    hide ParseValue, ParseItems, ParseMembers, ParseNumber, ParseChars, Decimal, Fixed;
    var s := Print(d) + rest;
    match d {
      case Nat(n) =>
        NoLeadingZero(n);
        NatRoundTrip(n, rest);
        NumberStep(s, n as real, rest);
      case Hundredths(negative, count) =>
        HundredthsRoundTrip(negative, count, rest);
        NumberStep(s, Signed(negative, count as real / 100.0), rest);
      case Flag(truth) =>
        FlagStep(truth, rest);
      case Quoted(text) =>
        assert s[1..] == text + "\"" + rest;
        CharsRoundTrip(text, rest);
        TextStep(s, text, rest);
      case Items(items) =>
        if |items| == 0 {
          assert Print(d) == "[]";
          EmptyStep(rest);
        } else {
          ItemsAreRead(items, rest);
          ItemsWrapped(items, rest);
        }
      case Fields(fields) =>
        if |fields| == 0 {
          assert Print(d) == "{}";
          EmptyStep(rest);
        } else {
          FieldsAreRead(fields, rest);
          FieldsWrapped(fields, rest);
        }
    }
  }

  lemma {:induction false} ItemsAreRead(items: seq<Doc>, rest: string)
    requires |items| > 0 && forall i :: 0 <= i < |items| ==> Printable(items[i])
    ensures ParseItems(PrintItems(items) + "]" + rest) == Read(ItemValues(items), rest)
    decreases items, 0
  {
    hide ParseValue, ParseItems, Print, ValueOf;
    var first := Print(items[0]);
    var s := PrintItems(items) + "]" + rest;
    if |items| == 1 {
      assert s == first + ("]" + rest);
      PrintedIsRead(items[0], "]" + rest);
      assert ItemValues(items) == [ValueOf(items[0])] + ItemValues(items[1..]) == [ValueOf(items[0])];
      LastItemStep(s, ValueOf(items[0]), rest);
    } else {
      var others := PrintItems(items[1..]) + "]" + rest;
      assert s == first + ("," + others);
      PrintedIsRead(items[0], "," + others);
      ItemsAreRead(items[1..], rest);
      ItemStep(s, ValueOf(items[0]), others, ItemValues(items[1..]), rest);
    }
  }

  lemma {:induction false} FieldIsRead(field: (string, Doc), rest: string)
    requires IsPlain(field.0) && Printable(field.1) && Ends(rest)
    ensures IsMember(PrintField(field) + rest, field.0, ValueOf(field.1), rest)
    decreases field
  {
    hide ParseValue, ParseChars, Print, ValueOf;
    var s := PrintField(field) + rest;
    var after := ":" + Print(field.1) + rest;
    assert s[1..] == field.0 + "\"" + after;
    CharsRoundTrip(field.0, after);
    PlainIsWhole(field.0);
    assert after[1..] == Print(field.1) + rest;
    PrintedIsRead(field.1, rest);
  }

  lemma {:induction false} FieldsAreRead(fields: seq<(string, Doc)>, rest: string)
    requires |fields| > 0
    requires forall i :: 0 <= i < |fields| ==> IsPlain(fields[i].0) && Printable(fields[i].1)
    ensures ParseMembers(PrintFields(fields) + "}" + rest) == Read(FieldValues(fields), rest)
    decreases fields, 0
  {
    hide ParseValue, ParseMembers, ParseChars, Print, ValueOf, IsMember;
    var field := fields[0];
    var s := PrintFields(fields) + "}" + rest;
    if |fields| == 1 {
      assert s == PrintField(field) + ("}" + rest);
      FieldIsRead(field, "}" + rest);
      assert FieldValues(fields) == [FieldValue(field)] + FieldValues(fields[1..]) == [FieldValue(field)];
      LastMemberStep(s, field.0, ValueOf(field.1), rest);
    } else {
      var others := PrintFields(fields[1..]) + "}" + rest;
      assert s == PrintField(field) + ("," + others);
      FieldIsRead(field, "," + others);
      FieldsAreRead(fields[1..], rest);
      assert others[0] == '"';
      MemberStep(s, field.0, ValueOf(field.1), others, FieldValues(fields[1..]), rest);
    }
  }
}
