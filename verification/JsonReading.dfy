/**
 * The other direction of JsonGrammar: whatever the reader reads is spelled as the grammar says, so the
 * reader accepts exactly the texts of RFC 8259.
 */
module JsonReading {
  import opened Json
  import opened JsonGrammar
  import opened Numerals

  // ---------- Characters ----------

  lemma EscapeIsSpelled(s: string) returns (p: Piece)
    requires |s| > 0 && s[0] == 'u' && UnicodeEscape(s).CodePoint?
    ensures IsPiece(p) && PieceText(p) == "\\" + s[..UnicodeEscape(s).length]
    ensures PieceMeaning(p) == Utf8(UnicodeEscape(s).code)
  {
    hide IsHex, HexValue, Code, Utf8, Hex4;
    var first := s[1..5];
    FourDigits(s, 1);
    if UnicodeEscape(s).length == 5 {
      p := Unit(first);
      assert s[..5] == "u" + first;
    } else {
      FourDigits(s, 7);
      p := Pair(first, s[7..11]);
      assert s[..11] == "u" + (first + ("\\u" + s[7..11]));
    }
  }

  lemma FourDigits(s: string, at: nat)
    requires Hex4(s, at).Some?
    ensures AreFourDigits(s[at..at + 4]) && Hex4(s, at).value == Code(s[at..at + 4])
  {
    CodeIsRead(s[at..at + 4], s, at);
  }

  lemma PieceInFront(p: Piece, ps: seq<Piece>, others: string, rest: string)
    requires IsPiece(p) && ArePieces(ps) && others == PiecesText(ps) + ("\"" + rest)
    ensures ArePieces([p] + ps) && PieceText(p) + others == PiecesText([p] + ps) + ("\"" + rest)
    ensures PiecesMeaning([p] + ps) == PieceMeaning(p) + PiecesMeaning(ps)
  {
    hide IsPiece, PieceText, PieceMeaning;
    assert ([p] + ps)[1..] == ps;
  }

  /** A text that is read is spelled. */
  lemma {:induction false} TextIsSpelled(s: string) returns (ps: seq<Piece>)
    requires ParseChars(s).Read?
    ensures ArePieces(ps) && s == PiecesText(ps) + ("\"" + ParseChars(s).rest)
    ensures PiecesMeaning(ps) == ParseChars(s).value
    decreases |s|
  {
    hide PieceText, PieceMeaning, PiecesText, PiecesMeaning, UnicodeEscape, Utf8;
    var rest := ParseChars(s).rest;
    if s[0] == '"' {
      ps := [];
      NoPieces();
      assert s == "" + ("\"" + s[1..]);
    } else {
      var p, length := PieceOf(s);
      ps := TextIsSpelled(s[length..]);
      PieceInFront(p, ps, s[length..], rest);
      assert s == s[..length] + s[length..];
      ps := [p] + ps;
    }
  }

  lemma NoPieces()
    ensures PiecesText([]) == "" && PiecesMeaning([]) == ""
  {
  }

  /** The first piece of a text. */
  lemma PieceOf(s: string) returns (p: Piece, length: nat)
    requires ParseChars(s).Read? && s[0] != '"'
    ensures 0 < length <= |s| && IsPiece(p) && PieceText(p) == s[..length] && ParseChars(s[length..]).Read?
    ensures ParseChars(s).rest == ParseChars(s[length..]).rest
    ensures ParseChars(s).value == PieceMeaning(p) + ParseChars(s[length..]).value
  {
    hide UnicodeEscape, Utf8, Code, IsHex;
    if s[0] != '\\' {
      p, length := Plain(s[0]), 1;
      assert s[..1] == [s[0]];
    } else if s[1] == 'u' {
      p := EscapeIsSpelled(s[1..]);
      length := 1 + UnicodeEscape(s[1..]).length;
      assert s[..length] == "\\" + s[1..][..length - 1];
    } else {
      p, length := Short(s[1]), 2;
      assert s[..2] == ['\\', s[1]];
    }
  }

  // ---------- Numbers ----------

  lemma MantissaParts(s: string)
    requires ParseMantissa(s).Read?
    ensures var whole := Digits(s);
            && whole != "" && (|whole| > 1 ==> whole[0] != '0')
            && var rest := s[|whole|..];
               if |rest| == 0 || rest[0] != '.' then ParseMantissa(s) == Read(DecimalValue(whole) as real, rest)
               else
                 var fraction := Digits(rest[1..]);
                 && fraction != "" && 1 + |fraction| <= |rest|
                 && ParseMantissa(s)
                    == Read(DecimalValue(whole) as real + FractionValue(fraction), rest[1 + |fraction|..])
  {
    hide Digits, DecimalValue, FractionValue;
  }

  lemma DigitsInFront(s: string)
    ensures s == Digits(s) + s[|Digits(s)|..]
  {
    hide Digits;
  }

  lemma PointInFront(rest: string)
    requires |rest| > 0 && rest[0] == '.'
    ensures var fraction := Digits(rest[1..]);
            1 + |fraction| <= |rest| && rest == "." + fraction + rest[1 + |fraction|..]
  {
    var fraction := Digits(rest[1..]);
    DigitsInFront(rest[1..]);
    hide Digits;
    assert rest == "." + rest[1..] && rest[1..][|fraction|..] == rest[1 + |fraction|..];
  }

  lemma MantissaIsSpelled(s: string) returns (whole: string, fraction: string)
    requires ParseMantissa(s).Read?
    ensures AllDigits(whole) && whole != "" && (whole[0] == '0' ==> whole == "0") && AllDigits(fraction)
    ensures s == whole + (FractionText(fraction) + ParseMantissa(s).rest)
    ensures ParseMantissa(s).value == DecimalValue(whole) as real + FractionValue(fraction)
  {
    hide DecimalValue, FractionValue, ParseMantissa, Digits, AllDigits;
    NoFraction();
    MantissaParts(s);
    whole := Digits(s);
    var rest := s[|whole|..];
    DigitsInFront(s);
    if |rest| == 0 || rest[0] != '.' {
      fraction := "";
      assert "" + rest == rest;
    } else {
      fraction := Digits(rest[1..]);
      PointInFront(rest);
    }
    if whole[0] == '0' {
      assert whole == "0";
    }
  }

  lemma ExponentHasDigits(s: string, start: nat)
    requires ParseExponent(s).Read? && |s| > 0 && (s[0] == 'e' || s[0] == 'E')
    requires start == if |s| > 1 && (s[1] == '+' || s[1] == '-') then 2 else 1
    ensures start < |s| && Digits(s[start..]) != ""
  {
  }

  lemma ThreeParts(s: string, start: nat, digits: string)
    requires 1 <= start <= 2 && start <= |s| && Digits(s[start..]) == digits
    ensures start + |digits| <= |s| && s == s[..1] + (s[1..start] + (digits + s[start + |digits|..]))
  {
    hide Digits;
    assert s[start..] == digits + s[start..][|digits|..];
  }

  lemma FrontParts(s: string, start: nat, sign: Sign)
    requires |s| > 1 && (s[0] == 'e' || s[0] == 'E') && start == if sign.Bare? then 1 else 2
    requires sign == if s[1] == '+' then Plus else if s[1] == '-' then Minus else Bare
    ensures s[..1] == MarkText(s[0] == 'E') && s[1..start] == SignText(sign)
  {
  }

  lemma ExponentIsSpelled(s: string) returns (e: Exponent)
    requires ParseExponent(s).Read?
    ensures e.Exponent? ==> AllDigits(e.digits) && e.digits != ""
    ensures s == ExponentText(e) + ParseExponent(s).rest && ParseExponent(s).value == ExponentValue(e)
  {
    hide DecimalValue, Digits;
    if |s| == 0 || (s[0] != 'e' && s[0] != 'E') {
      e := NoExponent;
      assert s == "" + s;
    } else {
      var start := if |s| > 1 && (s[1] == '+' || s[1] == '-') then 2 else 1;
      ExponentHasDigits(s, start);
      hide ParseExponent;
      var sign := if s[1] == '+' then Plus else if s[1] == '-' then Minus else Bare;
      var digits := Digits(s[start..]);
      e := Exponent(s[0] == 'E', sign, digits);
      ThreeParts(s, start, digits);
      ExponentStep(s, start, digits);
      FrontParts(s, start, sign);
      hide MarkText, SignText;
      ExponentJoined(s[0] == 'E', sign, digits, s[start + |digits|..]);
    }
  }

  /** A number that is read is spelled. */
  lemma NumberIsSpelled(s: string) returns (n: Numeral)
    requires ParseNumber(s).Read?
    ensures IsNumeral(n) && s == NumeralText(n) + ParseNumber(s).rest && ParseNumber(s).value == NumeralValue(n)
  {
    hide DecimalValue, FractionValue, ParseMantissa, ParseExponent, FractionText, ExponentText, ExponentValue;
    hide Scaled, Signed, NumeralValue, NumeralText;
    var negative := |s| > 0 && s[0] == '-';
    var unsigned := if negative then s[1..] else s;
    var whole, fraction := MantissaIsSpelled(unsigned);
    var exponent := ExponentIsSpelled(ParseMantissa(unsigned).rest);
    n := Numeral(negative, whole, fraction, exponent);
    ScaledMeans(n);
    NumeralJoined(n, ParseNumber(s).rest);
    assert s == (if negative then "-" else "") + unsigned;
  }

  // ---------- What a successful read says about each part ----------

  lemma {:induction false} GapOf(s: string) returns (gap: string)
    ensures AllBlank(gap) && s == gap + SkipBlanks(s)
    ensures |SkipBlanks(s)| > 0 ==> !IsBlank(SkipBlanks(s)[0])
    decreases |s|
  {
    hide IsWhite, IsBlank;
    if |s| > 0 && IsBlank(s[0]) {
      WhiteIsBlank(s[0]);
      gap := GapOf(s[1..]);
      gap := [s[0]] + gap;
      assert s == [s[0]] + s[1..];
    } else {
      gap := "";
    }
  }

  lemma FromFirstCharacter(s: string)
    ensures ParseValue(s) == ParseValue(SkipBlanks(s))
  {
    SkippedTwice(s);
    SameFromThere(s, SkipBlanks(s));
  }

  lemma ListParts(u: string)
    requires |u| > 0 && u[0] == '[' && ParseValue(u).Read?
    ensures var inner := SkipBlanks(u[1..]);
            if |inner| > 0 && inner[0] == ']' then ParseValue(u) == Read(List([]), inner[1..])
            else ParseItems(inner).Read? && ParseValue(u) == Read(List(ParseItems(inner).value), ParseItems(inner).rest)
  {
    hide ParseItems;
  }

  lemma ObjectParts(u: string)
    requires |u| > 0 && u[0] == '{' && ParseValue(u).Read?
    ensures var inner := SkipBlanks(u[1..]);
            if |inner| > 0 && inner[0] == '}' then ParseValue(u) == Read(Object([]), inner[1..])
            else ParseMembers(inner).Read?
                 && ParseValue(u) == Read(Object(ParseMembers(inner).value), ParseMembers(inner).rest)
  {
    hide ParseMembers;
  }

  lemma ItemParts(s: string)
    requires ParseItems(s).Read?
    ensures ParseValue(s).Read?
    ensures var next := SkipBlanks(ParseValue(s).rest);
            && |next| > 0
            && (next[0] == ']' ==> ParseItems(s) == Read([ParseValue(s).value], next[1..]))
            && (next[0] != ']' ==>
                  && next[0] == ',' && ParseItems(next[1..]).Read?
                  && ParseItems(s)
                     == Read([ParseValue(s).value] + ParseItems(next[1..]).value, ParseItems(next[1..]).rest))
  {
    hide ParseValue;
  }

  lemma MemberParts(s: string)
    requires ParseMembers(s).Read?
    ensures |s| > 0 && s[0] == '"' && ParseChars(s[1..]).Read?
    ensures var colon := SkipBlanks(ParseChars(s[1..]).rest);
            && |colon| > 0 && colon[0] == ':' && ParseValue(colon[1..]).Read?
            && var member := (CString(ParseChars(s[1..]).value), ParseValue(colon[1..]).value);
               var next := SkipBlanks(ParseValue(colon[1..]).rest);
               && |next| > 0
               && (next[0] == '}' ==> ParseMembers(s) == Read([member], next[1..]))
               && (next[0] != '}' ==>
                     && next[0] == ',' && ParseMembers(SkipBlanks(next[1..])).Read?
                     && ParseMembers(s) == Read([member] + ParseMembers(SkipBlanks(next[1..])).value,
                                                ParseMembers(SkipBlanks(next[1..])).rest))
  {
    hide ParseValue, ParseChars, CString;
  }

  lemma OtherParts(u: string)
    requires ParseValue(u).Read? && |u| > 0 && !IsBlank(u[0]) && u[0] != '[' && u[0] != '{'
    ensures u[0] == '"' ==>
              && ParseChars(u[1..]).Read?
              && ParseValue(u) == Read(Text(CString(ParseChars(u[1..]).value)), ParseChars(u[1..]).rest)
    ensures u[0] == '-' || IsDigit(u[0]) ==>
              ParseNumber(u).Read? && ParseValue(u) == Read(Number(ParseNumber(u).value), ParseNumber(u).rest)
    ensures u[0] != '"' && u[0] != '-' && !IsDigit(u[0]) ==>
              || ("true" <= u && ParseValue(u) == Read(Boolean(true), u[4..]))
              || ("false" <= u && ParseValue(u) == Read(Boolean(false), u[5..]))
              || ("null" <= u && ParseValue(u) == Read(Null, u[4..]))
  {
    hide ParseChars, ParseNumber, CString;
  }

  // ---------- Values ----------

  /** A value that is neither a list nor an object. */
  lemma SimpleIsSpelled(u: string) returns (t: Tree)
    requires ParseValue(u).Read? && |u| > 0 && !IsBlank(u[0]) && u[0] != '[' && u[0] != '{'
    ensures IsTree(t) && u == Spell(t) + ParseValue(u).rest && Means(t) == ParseValue(u).value
  {
    hide ParseValue, ParseChars, ParseNumber, CString, PiecesText, PiecesMeaning, NumeralText, NumeralValue, IsNumeral;
    OtherParts(u);
    if u[0] == '"' {
      var pieces := TextIsSpelled(u[1..]);
      t := TextTree(pieces);
      assert u == "\"" + (PiecesText(pieces) + ("\"" + ParseValue(u).rest));
    } else if u[0] == '-' || IsDigit(u[0]) {
      var n := NumberIsSpelled(u);
      t := NumberTree(n);
    } else if "true" <= u {
      t := FlagTree(true);
    } else if "false" <= u {
      t := FlagTree(false);
    } else {
      t := NullTree;
    }
  }

  lemma Wrapped(u: string, open: string, inner: string, close: string, rest: string)
    requires |u| > 0 && |open| == 1 && u[0] == open[0] && u[1..] == inner + (close + rest)
    ensures u == (open + (inner + close)) + rest
  {
    assert u == open + u[1..];
  }

  lemma AreTrees(gap: string, items: seq<Spaced>, members: seq<MemberTree>)
    requires AllBlank(gap)
    ensures (forall i :: 0 <= i < |items| ==> IsSpaced(items[i])) ==> IsTree(ListTree(gap, items))
    ensures (forall i :: 0 <= i < |members| ==> IsMemberTree(members[i])) ==> IsTree(ObjectTree(gap, members))
  {
    hide AllBlank, IsSpaced, IsMemberTree, IsNumeral, ArePieces;
  }

  lemma ListMeans(gap: string, items: seq<Spaced>)
    requires IsTree(ListTree(gap, items)) && forall i :: 0 <= i < |items| ==> IsSpaced(items[i])
    ensures Spell(ListTree(gap, items)) == "[" + ((if |items| == 0 then gap else ItemsText(items)) + "]")
    ensures Means(ListTree(gap, items)) == List(ItemsMean(items))
  {
    hide ItemsText, ItemsMean, IsSpaced, AllBlank, IsNumeral, ArePieces;
  }

  lemma ObjectMeans(gap: string, members: seq<MemberTree>)
    requires IsTree(ObjectTree(gap, members)) && forall i :: 0 <= i < |members| ==> IsMemberTree(members[i])
    ensures Spell(ObjectTree(gap, members)) == "{" + ((if |members| == 0 then gap else MembersText(members)) + "}")
    ensures Means(ObjectTree(gap, members)) == Object(MembersMean(members))
  {
    hide MembersText, MembersMean, IsMemberTree, AllBlank, IsNumeral, ArePieces;
  }

  lemma ItemInFront(item: Spaced, items: seq<Spaced>)
    requires IsSpaced(item) && forall i :: 0 <= i < |items| ==> IsSpaced(items[i])
    ensures forall i :: 0 <= i < |items| + 1 ==> IsSpaced(([item] + items)[i])
    ensures ItemsText([item] + items) == SpacedText(item) + if |items| == 0 then "" else "," + ItemsText(items)
    ensures ItemsMean([item] + items) == [SpacedMeans(item)] + ItemsMean(items)
  {
    hide SpacedText, SpacedMeans, IsSpaced;
    assert ([item] + items)[1..] == items;
  }

  lemma MemberInFront(m: MemberTree, members: seq<MemberTree>)
    requires IsMemberTree(m) && forall i :: 0 <= i < |members| ==> IsMemberTree(members[i])
    ensures forall i :: 0 <= i < |members| + 1 ==> IsMemberTree(([m] + members)[i])
    ensures MembersText([m] + members)
         == m.before + (MemberText(m) + if |members| == 0 then "" else "," + MembersText(members))
    ensures MembersMean([m] + members) == [MemberMeans(m)] + MembersMean(members)
  {
    hide MemberText, MemberMeans, IsMemberTree;
    assert ([m] + members)[1..] == members;
  }

  /** Blanks in front of the first item or member belong to it. */
  lemma GapOfItems(gap: string, items: seq<Spaced>) returns (more: seq<Spaced>)
    requires AllBlank(gap) && |items| > 0 && forall i :: 0 <= i < |items| ==> IsSpaced(items[i])
    ensures |more| == |items| && forall i :: 0 <= i < |more| ==> IsSpaced(more[i])
    ensures ItemsText(more) == gap + ItemsText(items) && ItemsMean(more) == ItemsMean(items)
  {
    hide Spell, Means, ItemsText, ItemsMean;
    var first, others := items[0], items[1..];
    var moved := Spaced(gap + first.before, first.value, first.after);
    more := [moved] + others;
    assert items == [first] + others;
    ItemInFront(first, others);
    ItemInFront(moved, others);
    assert SpacedText(moved) == gap + SpacedText(first);
  }

  lemma GapOfMembers(gap: string, members: seq<MemberTree>) returns (more: seq<MemberTree>)
    requires AllBlank(gap) && |members| > 0 && forall i :: 0 <= i < |members| ==> IsMemberTree(members[i])
    ensures |more| == |members| && forall i :: 0 <= i < |more| ==> IsMemberTree(more[i])
    ensures MembersText(more) == gap + MembersText(members) && MembersMean(more) == MembersMean(members)
  {
    hide MembersText, MembersMean, SpacedText, SpacedMeans, PiecesText, PiecesMeaning, CString, IsSpaced, ArePieces;
    var first, others := members[0], members[1..];
    var moved := first.(before := gap + first.before);
    more := [moved] + others;
    assert members == [first] + others;
    MemberInFront(first, others);
    MemberInFront(moved, others);
    assert MemberText(moved) == MemberText(first) && MemberMeans(moved) == MemberMeans(first);
  }

  lemma {:induction false} ListIsSpelled(u: string) returns (t: Tree)
    requires |u| > 0 && u[0] == '[' && ParseValue(u).Read?
    ensures IsTree(t) && u == Spell(t) + ParseValue(u).rest && Means(t) == ParseValue(u).value
    decreases |u|, 0
  {
    hide ParseValue, ParseItems, Spell, Means, IsTree, ItemsText, ItemsMean, IsSpaced, AllBlank;
    ListParts(u);
    var gap := GapOf(u[1..]);
    var inner := SkipBlanks(u[1..]);
    var items: seq<Spaced> := [];
    if |inner| > 0 && inner[0] == ']' {
      NoItems();
      assert inner == "]" + inner[1..];
      Wrapped(u, "[", gap, "]", inner[1..]);
    } else {
      items := ItemsAreSpelled(inner);
      items := GapOfItems(gap, items);
      Wrapped(u, "[", ItemsText(items), "]", ParseValue(u).rest);
    }
    AreTrees(gap, items, []);
    ListMeans(gap, items);
    t := ListTree(gap, items);
  }

  lemma {:induction false} ObjectIsSpelled(u: string) returns (t: Tree)
    requires |u| > 0 && u[0] == '{' && ParseValue(u).Read?
    ensures IsTree(t) && u == Spell(t) + ParseValue(u).rest && Means(t) == ParseValue(u).value
    decreases |u|, 0
  {
    hide ParseValue, ParseMembers, Spell, Means, IsTree, MembersText, MembersMean, IsMemberTree, AllBlank;
    ObjectParts(u);
    var gap := GapOf(u[1..]);
    var inner := SkipBlanks(u[1..]);
    var members: seq<MemberTree> := [];
    if |inner| > 0 && inner[0] == '}' {
      NoItems();
      assert inner == "}" + inner[1..];
      Wrapped(u, "{", gap, "}", inner[1..]);
    } else {
      members := MembersAreSpelled(inner);
      members := GapOfMembers(gap, members);
      Wrapped(u, "{", MembersText(members), "}", ParseValue(u).rest);
    }
    AreTrees(gap, [], members);
    ObjectMeans(gap, members);
    t := ObjectTree(gap, members);
  }

  /** A value that is read is spelled, behind some blanks. */
  lemma {:induction false} ValueIsSpelled(s: string) returns (gap: string, t: Tree)
    requires ParseValue(s).Read?
    ensures AllBlank(gap) && IsTree(t) && s == gap + (Spell(t) + ParseValue(s).rest) && Means(t) == ParseValue(s).value
    decreases |s|, 1
  {
    hide ParseValue, Spell, Means, IsTree, AllBlank;
    gap := GapOf(s);
    FromFirstCharacter(s);
    var u := SkipBlanks(s);
    SomethingIsThere(u);
    if u[0] == '[' {
      t := ListIsSpelled(u);
    } else if u[0] == '{' {
      t := ObjectIsSpelled(u);
    } else {
      t := SimpleIsSpelled(u);
    }
  }

  lemma SomethingIsThere(u: string)
    requires ParseValue(u).Read?
    ensures |u| > 0
  {
  }

  lemma {:induction false} ItemsAreSpelled(s: string) returns (items: seq<Spaced>)
    requires ParseItems(s).Read?
    ensures |items| > 0 && forall i :: 0 <= i < |items| ==> IsSpaced(items[i])
    ensures s == ItemsText(items) + ("]" + ParseItems(s).rest) && ItemsMean(items) == ParseItems(s).value
    decreases |s|, 2
  {
    hide ParseValue, ParseItems, Spell, Means, IsTree, ItemsText, ItemsMean;
    hide AllBlank, IsSpaced, SpacedText, SpacedMeans;
    ItemParts(s);
    var gap, t := ValueIsSpelled(s);
    var afterValue := ParseValue(s).rest;
    var after := GapOf(afterValue);
    var next := SkipBlanks(afterValue);
    var item := Spaced(gap, t, after);
    var others: seq<Spaced> := [];
    if next[0] != ']' {
      others := ItemsAreSpelled(next[1..]);
      assert next == "," + next[1..];
    } else {
      NoItems();
      assert next == "]" + next[1..];
    }
    SpacedParts(gap, t, after);
    ItemInFront(item, others);
    items := [item] + others;
    Assembled(s, gap, Spell(t), after, next);
    var last := next[0] == ']';
    Listed(SpacedText(item), ItemsText([item] + others), if last then "" else ItemsText(others), last,
           "]" + ParseItems(s).rest);
  }

  lemma Assembled(s: string, gap: string, text: string, after: string, next: string)
    requires s == gap + (text + (after + next))
    ensures s == gap + (text + after) + next
  {
    assert text + (after + next) == text + after + next;
  }

  /** The first of some items, and the others behind a comma. */
  lemma Listed(first: string, all: string, others: string, last: bool, close: string)
    requires all == first + if last then "" else "," + others
    ensures all + close == first + if last then close else "," + (others + close)
  {
    assert first + ("," + others) + close == first + ("," + (others + close));
  }

  lemma SpacedParts(before: string, t: Tree, after: string)
    requires AllBlank(before) && IsTree(t) && AllBlank(after)
    ensures var v := Spaced(before, t, after);
            IsSpaced(v) && SpacedText(v) == before + (Spell(t) + after) && SpacedMeans(v) == Means(t)
  {
    hide AllBlank, IsTree, Spell, Means;
  }

  lemma MakesMember(name: seq<Piece>, gap: string, v: Spaced)
    requires ArePieces(name) && AllBlank(gap) && IsSpaced(v)
    ensures IsMemberTree(MemberTree("", name, gap, v))
    ensures MemberMeans(MemberTree("", name, gap, v)) == (CString(PiecesMeaning(name)), SpacedMeans(v))
  {
    hide ArePieces, IsSpaced, SpacedMeans, PiecesMeaning, CString;
  }

  lemma NoItems()
    ensures ItemsMean([]) == [] && MembersMean([]) == []
  {
  }

  lemma {:induction false} MemberIsThere(s: string) returns (m: MemberTree, next: string)
    requires ParseMembers(s).Read?
    ensures IsMemberTree(m) && m.before == "" && s == MemberText(m) + next && 0 < |next| < |s|
    ensures next[0] == '}' ==> ParseMembers(s) == Read([MemberMeans(m)], next[1..])
    ensures next[0] != '}' ==>
              && next[0] == ',' && ParseMembers(SkipBlanks(next[1..])).Read?
              && ParseMembers(s) == Read([MemberMeans(m)] + ParseMembers(SkipBlanks(next[1..])).value,
                                         ParseMembers(SkipBlanks(next[1..])).rest)
    decreases |s|, 0
  {
    hide ParseValue, ParseMembers, ParseChars, Spell, Means, IsTree, CString;
    hide PiecesText, PiecesMeaning, ArePieces, AllBlank, IsSpaced, IsMemberTree, SpacedText, SpacedMeans, MemberText;
    MemberParts(s);
    var name := TextIsSpelled(s[1..]);
    var afterName := ParseChars(s[1..]).rest;
    var gap := GapOf(afterName);
    var colon := SkipBlanks(afterName);
    var before, t := ValueIsSpelled(colon[1..]);
    var afterValue := ParseValue(colon[1..]).rest;
    var after := GapOf(afterValue);
    next := SkipBlanks(afterValue);
    m := MemberTree("", name, gap, Spaced(before, t, after));
    SpacedParts(before, t, after);
    MakesMember(name, gap, m.value);
    Assembled(colon[1..], before, Spell(t), after, next);
    MemberBehindName(s, m, colon, next);
  }

  lemma OneMember(m: MemberTree, rest: string)
    requires IsMemberTree(m) && m.before == ""
    ensures MembersText([m]) + ("}" + rest) == MemberText(m) + ("}" + rest) && MembersMean([m]) == [MemberMeans(m)]
  {
    hide MembersText, MembersMean, IsMemberTree, MemberText, MemberMeans;
    NoItems();
    MemberInFront(m, []);
    assert [m] + [] == [m];
    NoGap(MembersText([m]), MemberText(m) + "");
  }

  lemma MoreMembers(m: MemberTree, others: seq<MemberTree>, rest: string)
    requires IsMemberTree(m) && m.before == ""
    requires |others| > 0 && forall i :: 0 <= i < |others| ==> IsMemberTree(others[i])
    ensures forall i :: 0 <= i < |others| + 1 ==> IsMemberTree(([m] + others)[i])
    ensures MembersText([m] + others) + ("}" + rest) == MemberText(m) + ("," + (MembersText(others) + ("}" + rest)))
    ensures MembersMean([m] + others) == [MemberMeans(m)] + MembersMean(others)
  {
    hide MembersText, MembersMean, IsMemberTree, MemberText, MemberMeans;
    MemberInFront(m, others);
    NoGap(MembersText([m] + others), MemberText(m) + ("," + MembersText(others)));
    Listed(MemberText(m), MembersText([m] + others), MembersText(others), false, "}" + rest);
  }

  lemma {:induction false} MembersAreSpelled(s: string) returns (members: seq<MemberTree>)
    requires ParseMembers(s).Read?
    ensures |members| > 0 && forall i :: 0 <= i < |members| ==> IsMemberTree(members[i])
    ensures s == MembersText(members) + ("}" + ParseMembers(s).rest) && MembersMean(members) == ParseMembers(s).value
    decreases |s|, 1
  {
    hide ParseMembers, MembersText, MembersMean, AllBlank, IsMemberTree, MemberText, MemberMeans;
    var m, next := MemberIsThere(s);
    if next[0] == '}' {
      members := [m];
      OneMember(m, ParseMembers(s).rest);
      assert next == "}" + next[1..];
    } else {
      var others := MembersAreSpelled(SkipBlanks(next[1..]));
      var gap := GapOf(next[1..]);
      others := GapOfMembers(gap, others);
      members := [m] + others;
      MoreMembers(m, others, ParseMembers(s).rest);
      BehindComma(next, MembersText(others), ParseMembers(s).rest);
    }
  }

  lemma BehindComma(next: string, text: string, rest: string)
    requires |next| > 0 && next[0] == ',' && next[1..] == text + ("}" + rest)
    ensures next == "," + (text + ("}" + rest))
  {
  }

  lemma NoGap(all: string, text: string)
    requires all == "" + text
    ensures all == text
  {
  }

  lemma MemberBehindName(s: string, m: MemberTree, colon: string, next: string)
    requires IsMemberTree(m) && ArePieces(m.name) && IsSpaced(m.value) && |s| > 0 && s[0] == '"'
    requires s[1..] == PiecesText(m.name) + ("\"" + (m.gap + colon))
    requires |colon| > 0 && colon[0] == ':' && colon[1..] == SpacedText(m.value) + next
    ensures s == MemberText(m) + next
  {
    hide PiecesText, SpacedText, IsMemberTree, ArePieces, IsSpaced;
    var value := ":" + SpacedText(m.value);
    assert colon == ":" + colon[1..] == value + next;
    assert m.gap + (value + next) == m.gap + value + next;
    assert "\"" + (m.gap + value + next) == "\"" + (m.gap + value) + next;
    assert s == "\"" + s[1..];
  }

  /** The reader reads a value, and stops in front of a delimiter, exactly where the grammar has that value. */
  lemma ReadExactlyWhen(s: string, value: Value, rest: string)
    requires Stops(rest)
    ensures ParseValue(s) == Read(value, rest) <==>
      exists gap, t :: AllBlank(gap) && IsTree(t) && s == gap + (Spell(t) + rest) && Means(t) == value
  {
    hide ParseValue, Spell, Means, IsTree, AllBlank;
    if ParseValue(s) == Read(value, rest) {
      var gap, t := ValueIsSpelled(s);
    }
    forall gap, t | AllBlank(gap) && IsTree(t) && s == gap + (Spell(t) + rest) && Means(t) == value
      ensures ParseValue(s) == Read(value, rest)
    {
      TreeIsRead(t, rest);
      BlanksBefore(gap, Spell(t) + rest);
    }
  }
}
