/**
 * The grammar of sections 2 to 7 of RFC 8259 with all its choices: blanks, escapes, fractions and
 * exponents. However a value is spelled, the reader reads that value.
 */
module JsonGrammar {
  import opened Bytes
  import opened Json
  import opened Numerals

  // ---------- Characters of a text ----------

  /** A character as it is, after a backslash, or as the hexadecimal digits of its code or of two halves. */
  datatype Piece = Plain(c: char) | Short(letter: char) | Unit(digits: string) | Pair(high: string, low: string)

  predicate AreFourDigits(digits: string) {
    |digits| == 4 && IsHex(digits)
  }

  function Code(digits: string): nat
    requires AreFourDigits(digits)
  {
    var d0: nat, d1: nat, d2: nat, d3: nat :=
      HexValue(digits[0]), HexValue(digits[1]), HexValue(digits[2]), HexValue(digits[3]);
    0x1000 * d0 + 0x100 * d1 + 0x10 * d2 + d3
  }

  predicate IsHighHalf(digits: string) {
    AreFourDigits(digits) && 0xD800 <= Code(digits) < 0xDC00
  }

  predicate IsLowHalf(digits: string) {
    AreFourDigits(digits) && 0xDC00 <= Code(digits) < 0xE000
  }

  predicate IsPiece(p: Piece) {
    match p
    case Plain(c) => c >= ' ' && c != '"' && c != '\\'
    case Short(letter) => letter in "\"\\/bfnrt"
    case Unit(digits) => AreFourDigits(digits) && !IsHighHalf(digits) && !IsLowHalf(digits)
    case Pair(high, low) => IsHighHalf(high) && IsLowHalf(low)
  }

  function PieceText(p: Piece): string {
    match p
    case Plain(c) => [c]
    case Short(letter) => ['\\', letter]
    case Unit(digits) => "\\u" + digits
    case Pair(high, low) => "\\u" + (high + ("\\u" + low))
  }

  function Meant(letter: char): string {
    if letter == 'b' then [8 as char]
    else if letter == 't' then [9 as char]
    else if letter == 'n' then [10 as char]
    else if letter == 'f' then [12 as char]
    else if letter == 'r' then [13 as char]
    else [letter]
  }

  function PieceMeaning(p: Piece): string
    requires IsPiece(p)
  {
    match p
    case Plain(c) => [c]
    case Short(letter) => Meant(letter)
    case Unit(digits) => Utf8(Code(digits))
    case Pair(high, low) => Utf8(0x1_0000 + 0x400 * (Code(high) - 0xD800) + (Code(low) - 0xDC00))
  }

  predicate ArePieces(ps: seq<Piece>) {
    forall i :: 0 <= i < |ps| ==> IsPiece(ps[i])
  }

  function PiecesText(ps: seq<Piece>): string
    requires ArePieces(ps)
  {
    if |ps| == 0 then "" else PieceText(ps[0]) + PiecesText(ps[1..])
  }

  function PiecesMeaning(ps: seq<Piece>): string
    requires ArePieces(ps)
  {
    if |ps| == 0 then "" else PieceMeaning(ps[0]) + PiecesMeaning(ps[1..])
  }

  /** The number in the bits of a byte below those that mark it. */
  function Below(c: char, mark: int): int {
    c as int - mark
  }

  /** The bytes of a code, after section 3 of RFC 3629: marked by their upper bits, and of the least number. */
  ghost predicate IsUtf8(s: string, code: nat) {
    && (forall i :: 0 < i < |s| ==> 0 <= Below(s[i], 0x80) < 0x40)
    && if code < 0x80 then |s| == 1 && code == Below(s[0], 0)
       else if code < 0x800 then
         |s| == 2 && 0 <= Below(s[0], 0xC0) < 0x20 && code == 0x40 * Below(s[0], 0xC0) + Below(s[1], 0x80)
       else if code < 0x1_0000 then
         && |s| == 3 && 0 <= Below(s[0], 0xE0) < 0x10
         && code == 0x1000 * Below(s[0], 0xE0) + 0x40 * Below(s[1], 0x80) + Below(s[2], 0x80)
       else
         && |s| == 4 && 0 <= Below(s[0], 0xF0) < 0x08
         && code == 0x4_0000 * Below(s[0], 0xF0) + 0x1000 * Below(s[1], 0x80) + 0x40 * Below(s[2], 0x80)
                    + Below(s[3], 0x80)
  }

  lemma Utf8Bytes(code: nat)
    requires code < 0x11_0000
    ensures IsUtf8(Utf8(code), code)
  {
    var s := Utf8(code);
    SixBits(code);
    SixBits(code / 0x40);
    SixBits(code / 0x1000);
    if code < 0x80 {
    } else if code < 0x800 {
      assert |s| == 2 && Below(s[0], 0xC0) == code / 0x40 && Below(s[1], 0x80) == code % 0x40;
    } else if code < 0x1_0000 {
      assert |s| == 3 && Below(s[0], 0xE0) == code / 0x1000;
      assert Below(s[1], 0x80) == code / 0x40 % 0x40 && Below(s[2], 0x80) == code % 0x40;
    } else {
      assert |s| == 4 && Below(s[0], 0xF0) == code / 0x4_0000 && Below(s[1], 0x80) == code / 0x1000 % 0x40;
      assert Below(s[2], 0x80) == code / 0x40 % 0x40 && Below(s[3], 0x80) == code % 0x40;
    }
  }

  lemma SixBits(n: nat)
    ensures n == 0x40 * (n / 0x40) + n % 0x40
    ensures n / 0x40 / 0x40 == n / 0x1000 && n / 0x1000 / 0x40 == n / 0x4_0000
  {
  }

  lemma CodeIsRead(digits: string, s: string, at: nat)
    requires AreFourDigits(digits) && at + 4 <= |s| && s[at..at + 4] == digits
    ensures Hex4(s, at) == Some(Code(digits))
  {
    var data := FromHex(digits);
    assert digits[2..][2..] == [] && FromHex(digits[2..]) == [HexValue(digits[2]) * 16 + HexValue(digits[3])];
    assert data == [HexValue(digits[0]) * 16 + HexValue(digits[1]), HexValue(digits[2]) * 16 + HexValue(digits[3])];
  }

  lemma UnitParts(digits: string, rest: string)
    requires |digits| == 4
    ensures var s := ("\\u" + digits + rest)[1..];
            |s| >= 5 && s[0] == 'u' && s[1..5] == digits && s[5..] == rest
  {
  }

  lemma PairParts(high: string, low: string, rest: string)
    requires |high| == 4 && |low| == 4
    ensures var s := ("\\u" + (high + ("\\u" + low)) + rest)[1..];
            && |s| >= 11 && s[0] == 'u' && s[1..5] == high && s[5] == '\\' && s[6] == 'u' && s[7..11] == low
            && s[11..] == rest
  {
    var back := "\\u" + low;
    assert "\\u" + (high + back) + rest == "\\u" + high + (back + rest);
    var s := ("\\u" + high + (back + rest))[1..];
    assert s == "u" + high + (back + rest);
    assert s[5..] == back + rest && s[5..][2..6] == s[7..11];
  }

  lemma UnitMeans(s: string, digits: string)
    requires |s| >= 5 && s[0] == 'u' && s[1..5] == digits && IsPiece(Unit(digits))
    ensures UnicodeEscape(s) == CodePoint(Code(digits), 5)
  {
    hide IsHex, HexValue, Code, Hex4;
    CodeIsRead(digits, s, 1);
  }

  lemma PairMeans(s: string, high: string, low: string)
    requires |s| >= 11 && s[0] == 'u' && s[1..5] == high && s[5] == '\\' && s[6] == 'u' && s[7..11] == low
    requires IsPiece(Pair(high, low))
    ensures UnicodeEscape(s) == CodePoint(0x1_0000 + 0x400 * (Code(high) - 0xD800) + (Code(low) - 0xDC00), 11)
  {
    hide IsHex, HexValue, Code, Hex4;
    CodeIsRead(high, s, 1);
    CodeIsRead(low, s, 7);
  }

  lemma EscapeIsRead(p: Piece, rest: string)
    requires IsPiece(p) && (p.Unit? || p.Pair?)
    ensures var s := (PieceText(p) + rest)[1..];
            && |s| > 0 && s[0] == 'u' && UnicodeEscape(s).CodePoint?
            && UnicodeEscape(s).length == |PieceText(p)| - 1 && PieceMeaning(p) == Utf8(UnicodeEscape(s).code)
            && s[|PieceText(p)| - 1..] == rest
  {
    hide IsHex, Code, Utf8, UnicodeEscape;
    var s := (PieceText(p) + rest)[1..];
    match p
    case Unit(digits) =>
      UnitParts(digits, rest);
      UnitMeans(s, digits);
    case Pair(high, low) =>
      PairParts(high, low, rest);
      PairMeans(s, high, low);
  }

  /** One piece in front of others. */
  lemma PieceIsRead(p: Piece, others: string, text: string, rest: string)
    requires IsPiece(p) && ParseChars(others) == Read(text, rest)
    ensures ParseChars(PieceText(p) + others) == Read(PieceMeaning(p) + text, rest)
  {
    hide UnicodeEscape, Utf8, Code, IsHex;
    var s := PieceText(p) + others;
    match p
    case Plain(c) =>
      assert s[1..] == others;
    case Short(letter) =>
      assert s[2..] == others && s[1] == letter;
    case _ =>
      EscapeIsRead(p, others);
      assert s[1..][|PieceText(p)| - 1..] == s[|PieceText(p)|..];
  }

  /** Every spelling of a text is read as that text. */
  lemma {:induction false} TextIsRead(ps: seq<Piece>, rest: string)
    requires ArePieces(ps)
    ensures ParseChars(PiecesText(ps) + ("\"" + rest)) == Read(PiecesMeaning(ps), rest)
    decreases |ps|
  {
    hide ParseChars, PieceText, PieceMeaning;
    if |ps| == 0 {
      QuoteEnds(rest);
      assert "" + ("\"" + rest) == "\"" + rest;
    } else {
      var others := PiecesText(ps[1..]) + ("\"" + rest);
      TextIsRead(ps[1..], rest);
      PieceIsRead(ps[0], others, PiecesMeaning(ps[1..]), rest);
      assert PiecesText(ps) + ("\"" + rest) == PieceText(ps[0]) + others;
    }
  }

  lemma QuoteEnds(rest: string)
    ensures ParseChars("\"" + rest) == Read("", rest)
  {
    assert ("\"" + rest)[1..] == rest;
  }

  // ---------- Numbers ----------

  datatype Sign = Bare | Plus | Minus

  datatype Exponent = NoExponent | Exponent(upper: bool, sign: Sign, digits: string)

  /** Digits before and behind the point; without a point there are none behind it. */
  datatype Numeral = Numeral(negative: bool, whole: string, fraction: string, exponent: Exponent)

  predicate IsNumeral(n: Numeral) {
    && AllDigits(n.whole) && n.whole != "" && (n.whole[0] == '0' ==> n.whole == "0")
    && AllDigits(n.fraction)
    && (n.exponent.Exponent? ==>
          AllDigits(n.exponent.digits) && n.exponent.digits != "")
  }

  function FractionText(fraction: string): string {
    if fraction == "" then "" else "." + fraction
  }

  function SignText(sign: Sign): string {
    match sign
    case Bare => ""
    case Plus => "+"
    case Minus => "-"
  }

  function MarkText(upper: bool): string {
    if upper then "E" else "e"
  }

  function ExponentText(e: Exponent): string {
    match e
    case NoExponent => ""
    case Exponent(upper, sign, digits) => MarkText(upper) + (SignText(sign) + digits)
  }

  function NumeralText(n: Numeral): string {
    (if n.negative then "-" else "") + (n.whole + (FractionText(n.fraction) + ExponentText(n.exponent)))
  }

  function NumeralValue(n: Numeral): real
    requires IsNumeral(n)
  {
    var size := DecimalValue(n.whole) as real + DecimalValue(n.fraction) as real / Pow10(|n.fraction|) as real;
    var scaled :=
      match n.exponent
      case NoExponent => size
      case Exponent(_, sign, digits) =>
        if sign.Minus? then size / Pow10(DecimalValue(digits)) as real else size * Pow10(DecimalValue(digits)) as real;
    if n.negative then -scaled else scaled
  }

  predicate Stops(rest: string) {
    |rest| == 0 || IsBlank(rest[0]) || rest[0] == ',' || rest[0] == '}' || rest[0] == ']'
  }

  predicate NotInMantissa(rest: string) {
    |rest| == 0 || (!IsDigit(rest[0]) && rest[0] != '.')
  }

  lemma AfterPoint(fraction: string, rest: string)
    ensures var after := "." + (fraction + rest);
            after[1..] == fraction + rest && after[1 + |fraction|..] == rest
  {
    assert (fraction + rest)[|fraction|..] == rest;
  }

  lemma PointAndFraction(whole: string, fraction: string, rest: string)
    requires AllDigits(whole) && whole != "" && (whole[0] == '0' ==> whole == "0")
    requires AllDigits(fraction) && fraction != "" && NotInMantissa(rest)
    ensures ParseMantissa(whole + ("." + (fraction + rest)))
         == Read(DecimalValue(whole) as real + FractionValue(fraction), rest)
  {
    hide Digits, DecimalValue, FractionValue, ParseMantissa, AllDigits;
    var after := "." + (fraction + rest);
    DigitsThen(whole, after);
    DigitsThen(fraction, rest);
    hide *;
    AfterPoint(fraction, rest);
    FractionStep(whole + after, fraction);
  }

  lemma MantissaIsRead(whole: string, fraction: string, rest: string)
    requires AllDigits(whole) && whole != "" && (whole[0] == '0' ==> whole == "0")
    requires AllDigits(fraction) && NotInMantissa(rest)
    ensures ParseMantissa(whole + (FractionText(fraction) + rest))
         == Read(DecimalValue(whole) as real + FractionValue(fraction), rest)
  {
    hide Digits, DecimalValue, FractionValue, ParseMantissa, AllDigits, NotInMantissa;
    if fraction == "" {
      assert FractionText(fraction) + rest == rest;
      NoFraction();
      WholeIsRead(whole, rest);
    } else {
      assert FractionText(fraction) + rest == "." + (fraction + rest);
      PointAndFraction(whole, fraction, rest);
    }
  }

  lemma NoFraction()
    ensures AllDigits("") && FractionValue("") == 0.0
  {
  }

  lemma WholeIsRead(whole: string, rest: string)
    requires AllDigits(whole) && whole != "" && (whole[0] == '0' ==> whole == "0") && NotInMantissa(rest)
    ensures ParseMantissa(whole + rest) == Read(DecimalValue(whole) as real, rest)
  {
    hide Digits, DecimalValue;
    DigitsThen(whole, rest);
  }

  function ExponentValue(e: Exponent): int
    requires e.Exponent? ==> AllDigits(e.digits)
  {
    match e
    case NoExponent => 0
    case Exponent(_, sign, digits) =>
      var size: int := DecimalValue(digits);
      if sign.Minus? then -size else size
  }

  lemma ExponentStep(s: string, start: nat, digits: string)
    requires |s| > 1 && (s[0] == 'e' || s[0] == 'E') && start == if s[1] == '+' || s[1] == '-' then 2 else 1
    requires start <= |s| && Digits(s[start..]) == digits && AllDigits(digits) && digits != ""
    ensures start + |digits| <= |s|
    ensures var size: int := DecimalValue(digits);
            ParseExponent(s) == Read(if s[1] == '-' then -size else size, s[start + |digits|..])
  {
    hide Digits, DecimalValue;
  }

  lemma SignedDigits(front: string, sign: Sign, digits: string, rest: string)
    requires |front| == 1 && AllDigits(digits) && digits != "" && (|rest| == 0 || !IsDigit(rest[0]))
    ensures var s := front + (SignText(sign) + (digits + rest));
            var start := if sign.Bare? then 1 else 2;
            && |s| > start && s[0] == front[0]
            && (s[1] == '-' <==> sign.Minus?) && (s[1] == '+' <==> sign.Plus?)
            && Digits(s[start..]) == digits && s[start..][|digits|..] == rest
  {
    hide Digits;
    FirstDigit(digits);
    DigitsThen(digits, rest);
    var s := front + (SignText(sign) + (digits + rest));
    assert s[if sign.Bare? then 1 else 2..] == digits + rest;
  }

  lemma ExponentJoined(upper: bool, sign: Sign, digits: string, rest: string)
    ensures ExponentText(Exponent(upper, sign, digits)) + rest == MarkText(upper) + (SignText(sign) + (digits + rest))
  {
    hide MarkText, SignText;
    assert SignText(sign) + digits + rest == SignText(sign) + (digits + rest);
  }

  lemma ExponentIsRead(n: Numeral, rest: string)
    requires IsNumeral(n) && Stops(rest)
    ensures ParseExponent(ExponentText(n.exponent) + rest) == Read(ExponentValue(n.exponent), rest)
  {
    hide Digits, DecimalValue, SignText;
    var s := ExponentText(n.exponent) + rest;
    match n.exponent
    case NoExponent =>
      assert s == rest;
    case Exponent(upper, sign, digits) =>
      ExponentJoined(upper, sign, digits, rest);
      hide ParseExponent, AllDigits, ExponentText;
      var start := if sign.Bare? then 1 else 2;
      SignedDigits(MarkText(upper), sign, digits, rest);
      ExponentStep(s, start, digits);
      assert s[start..][|digits|..] == s[start + |digits|..];
  }

  lemma FirstDigit(digits: string)
    requires AllDigits(digits) && digits != ""
    ensures digits[0] != '+' && digits[0] != '-'
  {
  }

  lemma ScaledMeans(n: Numeral)
    requires IsNumeral(n)
    ensures var size := DecimalValue(n.whole) as real + FractionValue(n.fraction);
            Signed(n.negative, Scaled(size, ExponentValue(n.exponent))) == NumeralValue(n)
  {
    hide DecimalValue;
  }

  lemma TailIsOutside(n: Numeral, rest: string)
    requires Stops(rest)
    ensures NotInMantissa(ExponentText(n.exponent) + rest)
  {
    hide SignText;
    if n.exponent.NoExponent? {
      assert "" + rest == rest;
    }
  }

  lemma UnsignedStep(s: string, negative: bool, size: real, tail: string, exponent: int, rest: string)
    requires ParseMantissa(s) == Read(size, tail) && ParseExponent(tail) == Read(exponent, rest)
    ensures ParseUnsigned(s, negative) == Read(Signed(negative, Scaled(size, exponent)), rest)
  {
    hide ParseMantissa, ParseExponent, Signed, Scaled;
  }

  lemma UnsignedIsRead(n: Numeral, rest: string)
    requires IsNumeral(n) && Stops(rest)
    ensures ParseUnsigned(n.whole + (FractionText(n.fraction) + (ExponentText(n.exponent) + rest)), n.negative)
         == Read(NumeralValue(n), rest)
  {
    hide ParseUnsigned, ParseMantissa, ParseExponent, NumeralValue, FractionText, ExponentText, Stops, NotInMantissa;
    hide DecimalValue, FractionValue, ExponentValue, Scaled, Signed, AllDigits;
    var tail := ExponentText(n.exponent) + rest;
    var size := DecimalValue(n.whole) as real + FractionValue(n.fraction);
    TailIsOutside(n, rest);
    MantissaIsRead(n.whole, n.fraction, tail);
    ExponentIsRead(n, rest);
    ScaledMeans(n);
    UnsignedStep(n.whole + (FractionText(n.fraction) + tail), n.negative, size, tail, ExponentValue(n.exponent), rest);
  }

  lemma NumeralJoined(n: Numeral, rest: string)
    ensures NumeralText(n) + rest
         == (if n.negative then "-" else "")
          + (n.whole + (FractionText(n.fraction) + (ExponentText(n.exponent) + rest)))
  {
    hide FractionText, ExponentText;
    Regroup(if n.negative then "-" else "", n.whole, FractionText(n.fraction), ExponentText(n.exponent), rest);
  }

  lemma Regroup(a: string, b: string, c: string, d: string, e: string)
    ensures a + (b + (c + d)) + e == a + (b + (c + (d + e)))
  {
  }

  /** Every spelling of a number is read as that number. */
  lemma NumeralIsRead(n: Numeral, rest: string)
    requires IsNumeral(n) && Stops(rest)
    ensures var s := NumeralText(n) + rest;
            && (s[0] == '-' || IsDigit(s[0])) && ParseNumber(s) == Read(NumeralValue(n), rest)
  {
    hide ParseUnsigned, NumeralValue, FractionText, ExponentText, NumeralText, DecimalValue, Stops;
    var unsigned := n.whole + (FractionText(n.fraction) + (ExponentText(n.exponent) + rest));
    NumeralJoined(n, rest);
    UnsignedIsRead(n, rest);
    assert unsigned[0] == n.whole[0];
    assert ("-" + unsigned)[1..] == unsigned && "" + unsigned == unsigned;
  }

  // ---------- Values ----------

  /** A value as it is spelled, with the blanks between its parts. An empty list or object may hold blanks. */
  datatype Tree =
    | NullTree
    | FlagTree(truth: bool)
    | NumberTree(numeral: Numeral)
    | TextTree(pieces: seq<Piece>)
    | ListTree(gap: string, items: seq<Spaced>)
    | ObjectTree(gap: string, members: seq<MemberTree>)

  datatype Spaced = Spaced(before: string, value: Tree, after: string)

  datatype MemberTree = MemberTree(before: string, name: seq<Piece>, gap: string, value: Spaced)

  /** Space, tab, line feed and carriage return. */
  predicate IsWhite(c: char) {
    c in [0x20 as char, 0x09 as char, 0x0A as char, 0x0D as char]
  }

  lemma WhiteIsBlank(c: char)
    ensures IsWhite(c) <==> IsBlank(c)
  {
  }

  predicate AllBlank(s: string) {
    forall i :: 0 <= i < |s| ==> IsWhite(s[i])
  }

  predicate IsTree(t: Tree)
    decreases t
  {
    match t
    case NumberTree(numeral) => IsNumeral(numeral)
    case TextTree(pieces) => ArePieces(pieces)
    case ListTree(gap, items) => AllBlank(gap) && forall i :: 0 <= i < |items| ==> IsSpaced(items[i])
    case ObjectTree(gap, members) => AllBlank(gap) && forall i :: 0 <= i < |members| ==> IsMemberTree(members[i])
    case _ => true
  }

  predicate IsSpaced(v: Spaced)
    decreases v
  {
    AllBlank(v.before) && IsTree(v.value) && AllBlank(v.after)
  }

  predicate IsMemberTree(m: MemberTree)
    decreases m
  {
    AllBlank(m.before) && ArePieces(m.name) && AllBlank(m.gap) && IsSpaced(m.value)
  }

  function Spell(t: Tree): string
    requires IsTree(t)
    decreases t
  {
    match t
    case NullTree => "null"
    case FlagTree(truth) => if truth then "true" else "false"
    case NumberTree(numeral) => NumeralText(numeral)
    case TextTree(pieces) => "\"" + (PiecesText(pieces) + "\"")
    case ListTree(gap, items) => "[" + ((if |items| == 0 then gap else ItemsText(items)) + "]")
    case ObjectTree(gap, members) => "{" + ((if |members| == 0 then gap else MembersText(members)) + "}")
  }

  function SpacedText(v: Spaced): string
    requires IsSpaced(v)
    decreases v
  {
    v.before + (Spell(v.value) + v.after)
  }

  function ItemsText(items: seq<Spaced>): string
    requires |items| > 0 && forall i :: 0 <= i < |items| ==> IsSpaced(items[i])
    decreases items
  {
    SpacedText(items[0]) + if |items| == 1 then "" else "," + ItemsText(items[1..])
  }

  function MemberText(m: MemberTree): string
    requires IsMemberTree(m)
    decreases m
  {
    "\"" + (PiecesText(m.name) + ("\"" + (m.gap + (":" + SpacedText(m.value)))))
  }

  function MembersText(members: seq<MemberTree>): string
    requires |members| > 0 && forall i :: 0 <= i < |members| ==> IsMemberTree(members[i])
    decreases members
  {
    members[0].before + (MemberText(members[0]) + if |members| == 1 then "" else "," + MembersText(members[1..]))
  }

  function Means(t: Tree): Value
    requires IsTree(t)
    decreases t
  {
    match t
    case NullTree => Null
    case FlagTree(truth) => Boolean(truth)
    case NumberTree(numeral) => Number(NumeralValue(numeral))
    case TextTree(pieces) => Text(CString(PiecesMeaning(pieces)))
    case ListTree(_, items) => List(ItemsMean(items))
    case ObjectTree(_, members) => Object(MembersMean(members))
  }

  function SpacedMeans(v: Spaced): Value
    requires IsSpaced(v)
    decreases v
  {
    Means(v.value)
  }

  function ItemsMean(items: seq<Spaced>): seq<Value>
    requires forall i :: 0 <= i < |items| ==> IsSpaced(items[i])
    decreases items
  {
    if |items| == 0 then [] else [SpacedMeans(items[0])] + ItemsMean(items[1..])
  }

  function MemberMeans(m: MemberTree): (string, Value)
    requires IsMemberTree(m)
    decreases m
  {
    (CString(PiecesMeaning(m.name)), SpacedMeans(m.value))
  }

  function MembersMean(members: seq<MemberTree>): seq<(string, Value)>
    requires forall i :: 0 <= i < |members| ==> IsMemberTree(members[i])
    decreases members
  {
    if |members| == 0 then [] else [MemberMeans(members[0])] + MembersMean(members[1..])
  }

  // ---------- Blanks ----------

  lemma {:induction false} BlanksSkipped(gap: string, s: string)
    requires AllBlank(gap)
    ensures SkipBlanks(gap + s) == SkipBlanks(s)
    decreases |gap|
  {
    hide IsWhite, IsBlank;
    if |gap| == 0 {
      assert gap + s == s;
    } else {
      WhiteIsBlank(gap[0]);
      assert (gap + s)[0] == gap[0] && (gap + s)[1..] == gap[1..] + s;
      BlanksSkipped(gap[1..], s);
    }
  }

  lemma SkippedTwice(s: string)
    ensures SkipBlanks(SkipBlanks(s)) == SkipBlanks(s)
  {
  }

  lemma SameFromThere(s: string, t: string)
    requires SkipBlanks(s) == SkipBlanks(t)
    ensures ParseValue(s) == ParseValue(t)
  {
  }

  /** Blanks in front of a value do not count. */
  lemma BlanksBefore(gap: string, s: string)
    requires AllBlank(gap)
    ensures ParseValue(gap + s) == ParseValue(s)
  {
    BlanksSkipped(gap, s);
    SameFromThere(gap + s, s);
  }

  lemma GapThen(gap: string, s: string)
    requires AllBlank(gap) && |s| > 0 && !IsBlank(s[0])
    ensures SkipBlanks(gap + s) == s
  {
    BlanksSkipped(gap, s);
  }

  lemma StopsAfterGap(gap: string, s: string)
    requires AllBlank(gap) && Stops(s)
    ensures Stops(gap + s)
  {
    if |gap| > 0 {
      WhiteIsBlank(gap[0]);
      assert (gap + s)[0] == gap[0];
    } else {
      assert gap + s == s;
    }
  }

  // ---------- Steps of the reader, with blanks ----------

  lemma EmptySteps(gap: string, rest: string)
    requires AllBlank(gap)
    ensures ParseValue("[" + (gap + ("]" + rest))) == Read(List([]), rest)
    ensures ParseValue("{" + (gap + ("}" + rest))) == Read(Object([]), rest)
  {
    GapThen(gap, "]" + rest);
    GapThen(gap, "}" + rest);
    var s, t := "[" + (gap + ("]" + rest)), "{" + (gap + ("}" + rest));
    assert s[1..] == gap + ("]" + rest) && t[1..] == gap + ("}" + rest);
    assert ("]" + rest)[1..] == rest && ("}" + rest)[1..] == rest;
  }

  lemma ListRead(inner: string, items: seq<Value>, rest: string)
    requires ParseItems(SkipBlanks(inner)) == Read(items, rest)
    requires |SkipBlanks(inner)| > 0 && SkipBlanks(inner)[0] != ']'
    ensures ParseValue("[" + inner) == Read(List(items), rest)
  {
    hide ParseItems;
    assert ("[" + inner)[1..] == inner;
  }

  lemma ObjectRead(inner: string, fields: seq<(string, Value)>, rest: string)
    requires ParseMembers(SkipBlanks(inner)) == Read(fields, rest)
    requires |SkipBlanks(inner)| > 0 && SkipBlanks(inner)[0] == '"'
    ensures ParseValue("{" + inner) == Read(Object(fields), rest)
  {
    hide ParseMembers;
    assert ("{" + inner)[1..] == inner;
  }

  lemma LastItem(s: string, value: Value, gap: string, rest: string)
    requires ParseValue(s) == Read(value, gap + ("]" + rest)) && AllBlank(gap)
    ensures ParseItems(s) == Read([value], rest)
  {
    hide ParseValue;
    GapThen(gap, "]" + rest);
    assert ("]" + rest)[1..] == rest;
  }

  lemma NextItem(s: string, value: Value, gap: string, others: string, items: seq<Value>, rest: string)
    requires ParseValue(s) == Read(value, gap + ("," + others)) && AllBlank(gap)
    requires ParseItems(others) == Read(items, rest)
    ensures ParseItems(s) == Read([value] + items, rest)
  {
    hide ParseValue;
    GapThen(gap, "," + others);
    assert ("," + others)[1..] == others;
  }

  /** A name, a colon and a value at the front of the text. */
  ghost predicate StartsWithMember(s: string, name: string, value: Value, rest: string) {
    && |s| > 0 && s[0] == '"'
    && ParseChars(s[1..]).Read? && CString(ParseChars(s[1..]).value) == name
    && var colon := SkipBlanks(ParseChars(s[1..]).rest);
       |colon| > 0 && colon[0] == ':' && ParseValue(colon[1..]) == Read(value, rest)
  }

  lemma LastMember(s: string, name: string, value: Value, gap: string, rest: string)
    requires StartsWithMember(s, name, value, gap + ("}" + rest)) && AllBlank(gap)
    ensures ParseMembers(s) == Read([(name, value)], rest)
  {
    hide ParseValue, ParseChars, CString;
    GapThen(gap, "}" + rest);
    assert ("}" + rest)[1..] == rest;
  }

  lemma NextMember(s: string, name: string, value: Value, gap: string, others: string,
                   fields: seq<(string, Value)>, rest: string)
    requires StartsWithMember(s, name, value, gap + ("," + others)) && AllBlank(gap)
    requires ParseMembers(SkipBlanks(others)) == Read(fields, rest)
    ensures ParseMembers(s) == Read([(name, value)] + fields, rest)
  {
    hide ParseValue, ParseChars, CString;
    GapThen(gap, "," + others);
    assert ("," + others)[1..] == others;
  }

  lemma WordIsRead(t: Tree, rest: string)
    requires t.NullTree? || t.FlagTree?
    ensures ParseValue(Spell(t) + rest) == Read(Means(t), rest)
  {
    var s := Spell(t) + rest;
    assert Spell(t) <= s && s[|Spell(t)|..] == rest;
    assert s[0] == if t.NullTree? then 'n' else if t.truth then 't' else 'f';
  }

  lemma QuotedStep(s: string, text: string, rest: string)
    requires |s| > 0 && s[0] == '"' && ParseChars(s[1..]) == Read(text, rest)
    ensures ParseValue(s) == Read(Text(CString(text)), rest)
  {
    hide ParseChars, CString;
  }

  /** A spelled value starts with something that is neither blank nor a closing bracket. */
  lemma TreeStarts(t: Tree)
    requires IsTree(t)
    ensures |Spell(t)| > 0 && !IsBlank(Spell(t)[0]) && Spell(t)[0] != ']'
  {
    if t.NumberTree? {
      NumeralIsRead(t.numeral, "");
      assert NumeralText(t.numeral) + "" == NumeralText(t.numeral);
    }
  }

  // ---------- Induction over how a value is spelled ----------

  lemma ItemsWrapped(gap: string, items: seq<Spaced>, rest: string)
    requires IsTree(ListTree(gap, items)) && |items| > 0
    requires var s := SkipBlanks(ItemsText(items) + ("]" + rest));
             ParseItems(s) == Read(ItemsMean(items), rest) && |s| > 0 && s[0] != ']'
    ensures ParseValue(Spell(ListTree(gap, items)) + rest) == Read(Means(ListTree(gap, items)), rest)
  {
    hide ParseValue, ParseItems, ItemsText, ItemsMean;
    var inner := ItemsText(items) + ("]" + rest);
    assert Spell(ListTree(gap, items)) + rest == "[" + inner;
    ListRead(inner, ItemsMean(items), rest);
  }

  lemma MembersWrapped(gap: string, members: seq<MemberTree>, rest: string)
    requires IsTree(ObjectTree(gap, members)) && |members| > 0
    requires var s := SkipBlanks(MembersText(members) + ("}" + rest));
             |s| > 0 && s[0] == '"' && ParseMembers(s) == Read(MembersMean(members), rest)
    ensures ParseValue(Spell(ObjectTree(gap, members)) + rest) == Read(Means(ObjectTree(gap, members)), rest)
  {
    hide ParseValue, ParseMembers, MembersText, MembersMean;
    var inner := MembersText(members) + ("}" + rest);
    assert Spell(ObjectTree(gap, members)) + rest == "{" + inner;
    ObjectRead(inner, MembersMean(members), rest);
  }

  lemma NothingWrapped(gap: string, rest: string)
    requires AllBlank(gap)
    ensures ParseValue(Spell(ListTree(gap, [])) + rest) == Read(List([]), rest)
    ensures ParseValue(Spell(ObjectTree(gap, [])) + rest) == Read(Object([]), rest)
  {
    hide ParseValue;
    EmptySteps(gap, rest);
    assert Spell(ListTree(gap, [])) + rest == "[" + (gap + ("]" + rest));
    assert Spell(ObjectTree(gap, [])) + rest == "{" + (gap + ("}" + rest));
  }

  lemma QuotedIsRead(pieces: seq<Piece>, rest: string)
    requires ArePieces(pieces)
    ensures ParseValue(Spell(TextTree(pieces)) + rest) == Read(Means(TextTree(pieces)), rest)
  {
    hide ParseValue, ParseChars, PiecesText, PiecesMeaning, CString;
    var s := Spell(TextTree(pieces)) + rest;
    assert s[1..] == PiecesText(pieces) + ("\"" + rest);
    TextIsRead(pieces, rest);
    QuotedStep(s, PiecesMeaning(pieces), rest);
  }

  lemma NumberTreeIsRead(n: Numeral, rest: string)
    requires IsNumeral(n) && Stops(rest)
    ensures ParseValue(Spell(NumberTree(n)) + rest) == Read(Means(NumberTree(n)), rest)
  {
    hide ParseValue, ParseNumber, NumeralText, NumeralValue;
    NumeralIsRead(n, rest);
    NumberStep(NumeralText(n) + rest, NumeralValue(n), rest);
  }

  /** However a value is spelled, reading gives that value and stops where it ends. */
  lemma {:induction false} TreeIsRead(t: Tree, rest: string)
    requires IsTree(t) && Stops(rest)
    ensures ParseValue(Spell(t) + rest) == Read(Means(t), rest)
    decreases t, 1
  {
    match t {
      case NumberTree(numeral) =>
        NumberTreeIsRead(numeral, rest);
      case TextTree(pieces) =>
        QuotedIsRead(pieces, rest);
      case ListTree(gap, items) =>
        hide ParseValue, ParseItems, Spell, Means;
        if |items| == 0 {
          NothingWrapped(gap, rest);
          EmptyMeans(gap);
        } else {
          ItemsSpelled(items, rest);
          ItemsWrapped(gap, items, rest);
        }
      case ObjectTree(gap, members) =>
        hide ParseValue, ParseMembers, Spell, Means;
        if |members| == 0 {
          NothingWrapped(gap, rest);
          EmptyMeans(gap);
        } else {
          MembersSpelled(members, rest);
          MembersWrapped(gap, members, rest);
        }
      case _ =>
        WordIsRead(t, rest);
    }
  }

  lemma EmptyMeans(gap: string)
    requires AllBlank(gap)
    ensures Means(ListTree(gap, [])) == List([]) && Means(ObjectTree(gap, [])) == Object([])
  {
  }

  lemma {:induction false} SpacedIsRead(v: Spaced, rest: string)
    requires IsSpaced(v) && Stops(rest)
    ensures ParseValue(SpacedText(v) + rest) == Read(SpacedMeans(v), v.after + rest)
    ensures ParseValue(SkipBlanks(SpacedText(v) + rest)) == Read(SpacedMeans(v), v.after + rest)
    ensures |SkipBlanks(SpacedText(v) + rest)| > 0 && SkipBlanks(SpacedText(v) + rest)[0] != ']'
    decreases v
  {
    hide ParseValue, Means, Spell;
    var s := Spell(v.value) + (v.after + rest);
    assert SpacedText(v) + rest == v.before + s;
    StopsAfterGap(v.after, rest);
    TreeIsRead(v.value, v.after + rest);
    BlanksBefore(v.before, s);
    TreeStarts(v.value);
    assert s[0] == Spell(v.value)[0];
    GapThen(v.before, s);
  }

  lemma {:induction false} ItemsSpelled(items: seq<Spaced>, rest: string)
    requires |items| > 0 && forall i :: 0 <= i < |items| ==> IsSpaced(items[i])
    ensures var s := SkipBlanks(ItemsText(items) + ("]" + rest));
            ParseItems(s) == Read(ItemsMean(items), rest) && |s| > 0 && s[0] != ']'
    ensures ParseItems(ItemsText(items) + ("]" + rest)) == Read(ItemsMean(items), rest)
    decreases items, 0
  {
    hide ParseValue, ParseItems, SpacedText, SpacedMeans;
    var first := items[0];
    var s := ItemsText(items) + ("]" + rest);
    if |items| == 1 {
      assert s == SpacedText(first) + ("]" + rest);
      SpacedIsRead(first, "]" + rest);
      LastItem(s, SpacedMeans(first), first.after, rest);
      LastItem(SkipBlanks(s), SpacedMeans(first), first.after, rest);
      assert ItemsMean(items) == [SpacedMeans(first)] + ItemsMean(items[1..]) == [SpacedMeans(first)];
    } else {
      var others := ItemsText(items[1..]) + ("]" + rest);
      assert s == SpacedText(first) + ("," + others);
      SpacedIsRead(first, "," + others);
      ItemsSpelled(items[1..], rest);
      NextItem(s, SpacedMeans(first), first.after, others, ItemsMean(items[1..]), rest);
      NextItem(SkipBlanks(s), SpacedMeans(first), first.after, others, ItemsMean(items[1..]), rest);
    }
  }

  lemma {:induction false} MemberIsSpelled(m: MemberTree, rest: string)
    requires IsMemberTree(m) && Stops(rest)
    ensures StartsWithMember(MemberText(m) + rest, MemberMeans(m).0, MemberMeans(m).1, m.value.after + rest)
    decreases m
  {
    hide ParseValue, ParseChars, SpacedMeans, CString, PiecesText, PiecesMeaning, SpacedText;
    var s := MemberText(m) + rest;
    var colon := ":" + (SpacedText(m.value) + rest);
    assert s[1..] == PiecesText(m.name) + ("\"" + (m.gap + colon));
    TextIsRead(m.name, m.gap + colon);
    GapThen(m.gap, colon);
    assert colon[1..] == SpacedText(m.value) + rest;
    SpacedIsRead(m.value, rest);
  }

  lemma {:induction false} MembersSpelled(members: seq<MemberTree>, rest: string)
    requires |members| > 0 && forall i :: 0 <= i < |members| ==> IsMemberTree(members[i])
    ensures var s := SkipBlanks(MembersText(members) + ("}" + rest));
            |s| > 0 && s[0] == '"' && ParseMembers(s) == Read(MembersMean(members), rest)
    decreases members, 0
  {
    hide ParseValue, ParseMembers, MemberText, SpacedMeans, StartsWithMember, CString, PiecesMeaning;
    var m := members[0];
    var (name, value) := MemberMeans(m);
    if |members| == 1 {
      var s := MemberText(m) + ("}" + rest);
      assert MembersText(members) + ("}" + rest) == m.before + s;
      MemberIsSpelled(m, "}" + rest);
      MemberStarts(m, "}" + rest);
      GapThen(m.before, s);
      LastMember(s, name, value, m.value.after, rest);
      assert MembersMean(members) == [(name, value)] + MembersMean(members[1..]) == [(name, value)];
    } else {
      var others := MembersText(members[1..]) + ("}" + rest);
      var s := MemberText(m) + ("," + others);
      assert MembersText(members) + ("}" + rest) == m.before + s;
      MemberIsSpelled(m, "," + others);
      MemberStarts(m, "," + others);
      GapThen(m.before, s);
      MembersSpelled(members[1..], rest);
      NextMember(s, name, value, m.value.after, others, MembersMean(members[1..]), rest);
    }
  }

  lemma MemberStarts(m: MemberTree, rest: string)
    requires IsMemberTree(m)
    ensures |MemberText(m) + rest| > 0 && (MemberText(m) + rest)[0] == '"'
  {
  }
}
