/** The streaming Base32 decoder of common/util/base32_utils.c. */
module Base32 {
  import opened Bytes
  import opened BitStrings
  import opened Arithmetic

  type Symbol = v: int | 0 <= v < 32

  // ---------- Characters ----------

  predicate IsSpace(c: char) {
    c == ' ' || '\t' <= c <= '\r'
  }

  /** The value of a symbol in either case, or -1. */
  function DecodeChar(c: char): (v: int)
    ensures -1 <= v < 32
  {
    if 'A' <= c <= 'Z' then c as int - 'A' as int
    else if 'a' <= c <= 'z' then c as int - 'a' as int
    else if '2' <= c <= '7' then c as int - '2' as int + 26
    else -1
  }

  /** The alphabet of section 6 of RFC 4648. */
  function EncodeChar(v: Symbol): char {
    if v < 26 then ('A' as int + v) as char else ('2' as int + v - 26) as char
  }

  lemma Alphabet(v: Symbol)
    ensures EncodeChar(v) == "ABCDEFGHIJKLMNOPQRSTUVWXYZ234567"[v]
  {
  }

  /** The white space of the C locale. */
  lemma SpacesAre(c: char)
    ensures IsSpace(c) <==> c in {' ', 9 as char, 10 as char, 11 as char, 12 as char, 13 as char}
  {
  }

  lemma CharRoundTrip(v: Symbol)
    ensures DecodeChar(EncodeChar(v)) == v && !IsSpace(EncodeChar(v)) && EncodeChar(v) != '='
  {
  }

  // ---------- The text as a sequence of symbols ----------

  /** The symbols before the first '=' or illegal character; legal when it was not the latter. */
  datatype Scan = Scan(symbols: seq<Symbol>, legal: bool)

  function ScanText(text: string): Scan {
    if |text| == 0 || text[0] == '=' then Scan([], true)
    else if IsSpace(text[0]) then ScanText(text[1..])
    else if DecodeChar(text[0]) < 0 then Scan([], false)
    else
      var rest := ScanText(text[1..]);
      Scan([DecodeChar(text[0])] + rest.symbols, rest.legal)
  }

  function SymbolBits(symbols: seq<Symbol>): (bits: seq<bool>)
    ensures |bits| == 5 * |symbols|
  {
    BitsOf(symbols, 5)
  }

  function Octets(bits: seq<bool>): (octets: seq<byte>)
    ensures |octets| == |bits| / 8
  {
    assert Pow2(8) == 256 by { assert Pow2(4) == 16; }
    Group(bits, 8)
  }

  datatype Outcome = Decoded(data: seq<byte>) | Failed(err: EspErr)

  /**
   * The specification of the decoder: the first floor(5n/8) bytes of the bit string of the n
   * symbols, if they fit, all symbols were legal and the bits left over are zero.
   */
  function Outcome32(scan: Scan, outSize: nat): Outcome {
    var bits := SymbolBits(scan.symbols);
    if |bits| / 8 > outSize then Failed(NoMem)
    else if !scan.legal then Failed(InvalidArg)
    else if Rest(bits, 8) != Zeros(|bits| % 8) then Failed(InvalidSize)
    else Decoded(Octets(bits))
  }

  // ---------- The accumulator ----------

  /** Shifting a symbol into the 32-bit accumulator: old high bits fall off the top. */
  function ShiftIn(buffer: uint32, value: Symbol): uint32 {
    (buffer * 32 + value) % TWO32
  }

  lemma TwiceProduct(x: nat, y: nat)
    ensures (2 * x) * y == 2 * (x * y)
  {
  }

  lemma {:induction false} Pow2Add(a: nat, b: nat)
    ensures Pow2(a + b) == Pow2(a) * Pow2(b)
  {
    if a == 0 {
      assert Pow2(0) == 1;
    } else {
      Pow2Add(a - 1, b);
      assert Pow2(a) == 2 * Pow2(a - 1) && Pow2(a + b) == 2 * Pow2(a - 1 + b);
      TwiceProduct(Pow2(a - 1), Pow2(b));
    }
  }

  lemma Pow2Values()
    ensures Pow2(5) == 32 && Pow2(8) == 256 && Pow2(32) == TWO32
  {
    assert Pow2(3) == 8;
    assert Pow2(5) == 32;
    Pow2Add(3, 5);
    Pow2Add(8, 8);
    Pow2Add(16, 16);
  }

  lemma LowPartOfSum(p: nat, k: nat, a: int, w: int, low: int)
    ensures (p * 32) * a + low - ((p * 32) * k) * w == (p * 32) * (a - k * w) + low
  {
  }

  /** Wrapping does not disturb the low bits: the accumulator never needs masking. */
  lemma ShiftInLowBits(buffer: uint32, bits: nat, value: Symbol)
    requires bits < 8
    ensures ShiftIn(buffer, value) % Pow2(bits + 5) == buffer % Pow2(bits) * 32 + value
  {
    hide Pow2;
    var p, k := Pow2(bits), Pow2(27 - bits);
    Pow2Values();
    Pow2Add(bits, 5);
    Pow2Add(bits + 5, 27 - bits);
    var a, r := buffer / p, buffer % p;
    var w := (buffer * 32 + value) / TWO32;
    DivModIdentity(buffer, p);
    DivModIdentity(buffer * 32 + value, TWO32);
    LowPartOfSum(p, k, a, w, r * 32 + value);
    DivModUnique(ShiftIn(buffer, value), p * 32, a - k * w, r * 32 + value);
  }

  lemma ByteAbovePlaces(p: nat, a: int, c: int, d: int)
    ensures (p * 256) * a + (p * c + d) == p * (256 * a + c) + d
  {
  }

  lemma TakeByte(buffer: uint32, bits: nat)
    requires bits < 5
    ensures buffer / Pow2(bits) % 256 == buffer % Pow2(bits + 8) / Pow2(bits) < 256
    ensures buffer % Pow2(bits) == buffer % Pow2(bits + 8) % Pow2(bits)
  {
    hide Pow2;
    var p := Pow2(bits);
    Pow2Values();
    Pow2Add(bits, 8);
    var a, r := buffer / (p * 256), buffer % (p * 256);
    var c, d := r / p, r % p;
    DivModIdentity(buffer, p * 256);
    DivModIdentity(r, p);
    if c >= 256 {
      MulMonotone(p, 256, c);
    }
    if c < 0 {
      MulMonotone(p, c, -1);
    }
    ByteAbovePlaces(p, a, c, d);
    DivModUnique(buffer, p, 256 * a + c, d);
    DivModUnique(256 * a + c, 256, a, c);
  }

  // ---------- One symbol ----------

  /** The accumulator's low bits are the bits not yet given out. */
  ghost predicate Holds(buffer: uint32, bits: nat, done: seq<Symbol>) {
    && bits == |SymbolBits(done)| % 8
    && buffer % Pow2(bits) == Value(Rest(SymbolBits(done), 8))
  }

  /** The bits not yet given out after one more symbol, before a byte is taken. */
  ghost function Pending(done: seq<Symbol>, value: Symbol): seq<bool> {
    Rest(SymbolBits(done), 8) + ToBits(value, 5)
  }

  lemma AbsorbSymbol(buffer: uint32, bits: nat, done: seq<Symbol>, value: Symbol)
    requires Holds(buffer, bits, done)
    ensures |Pending(done, value)| == bits + 5
    ensures ShiftIn(buffer, value) % Pow2(bits + 5) == Value(Pending(done, value))
    ensures Octets(SymbolBits(done + [value])) == Octets(SymbolBits(done)) + Group(Pending(done, value), 8)
    ensures Rest(SymbolBits(done + [value]), 8) == Rest(Pending(done, value), 8)
  {
    hide Pow2, Value, ToBits, Group, Rest;
    var last := ToBits(value, 5);
    Pow2Values();
    ShiftInLowBits(buffer, bits, value);
    ValueOfToBits(value, 5);
    ValueAppend(Rest(SymbolBits(done), 8), last);
    BitsOfAppend(done, [value], 5);
    assert BitsOf([value], 5) == last + BitsOf([], 5) == last;
    GroupAppend(SymbolBits(done), last, 8);
  }

  lemma KeepPending(buffer: uint32, bits: nat, done: seq<Symbol>, value: Symbol)
    requires Holds(buffer, bits, done) && bits + 5 < 8
    ensures Holds(ShiftIn(buffer, value), bits + 5, done + [value])
    ensures Octets(SymbolBits(done + [value])) == Octets(SymbolBits(done))
  {
    hide Pow2, Value, ToBits;
    AbsorbSymbol(buffer, bits, done, value);
  }

  lemma GiveByte(buffer: uint32, bits: nat, done: seq<Symbol>, value: Symbol)
    requires Holds(buffer, bits, done) && bits + 5 >= 8
    ensures var next := ShiftIn(buffer, value);
            && Holds(next, bits - 3, done + [value])
            && Octets(SymbolBits(done + [value])) == Octets(SymbolBits(done)) + [next / Pow2(bits - 3) % 256]
  {
    hide Pow2, Value, ToBits;
    AbsorbSymbol(buffer, bits, done, value);
    var l := Pending(done, value);
    var first, rest := l[..8], l[8..];
    assert l == first + rest && Group(rest, 8) == [] && Group(l, 8) == [Value(first)];
    ValueAppend(first, rest);
    ValueBound(rest);
    TakeByte(ShiftIn(buffer, value), bits - 3);
    DivModUnique(Value(l), Pow2(bits - 3), Value(first), Value(rest));
  }

  // ---------- The decoder ----------

  lemma ScanStep(text: string, i: nat)
    requires i < |text|
    ensures ScanText(text[i..]) ==
      if text[i] == '=' then Scan([], true)
      else if IsSpace(text[i]) then ScanText(text[i + 1..])
      else if DecodeChar(text[i]) < 0 then Scan([], false)
      else Scan([DecodeChar(text[i])] + ScanText(text[i + 1..]).symbols, ScanText(text[i + 1..]).legal)
  {
    assert text[i..][0] == text[i] && text[i..][1..] == text[i + 1..];
  }

  method Decode(input: string, output: array<byte>, outSize: nat) returns (err: EspErr, outLen: nat)
    requires outSize <= output.Length
    modifies output
    ensures output[outSize..] == old(output[outSize..])
    ensures match Outcome32(ScanText(input), outSize)
            case Decoded(data) => err == EspOk && outLen == |data| <= outSize && output[..outLen] == data
            case Failed(e) => err == e && err != EspOk
    ensures var scan := ScanText(input);
            err == if 5 * |scan.symbols| / 8 > outSize then NoMem
                   else if !scan.legal then InvalidArg
                   else if SomeSet(Rest(SymbolBits(scan.symbols), 8)) then InvalidSize
                   else EspOk
  {
    OutcomeMeans(ScanText(input), outSize);
    hide SomeSet, ScanText, SymbolBits, Octets, Pow2, Value, Rest, ShiftIn, DecodeChar;
    outLen := 0;
    var buffer: uint32 := 0;
    var bits, produced := 0, 0;
    ghost var done: seq<Symbol> := [];
    NothingDone();
    var i := 0;
    assert input[0..] == input;
    while i < |input|
      invariant 0 <= i <= |input|
      invariant ScanText(input) == Scan(done + ScanText(input[i..]).symbols, ScanText(input[i..]).legal)
      invariant Holds(buffer, bits, done) && produced == |SymbolBits(done)| / 8 <= outSize
      invariant output[..produced] == Octets(SymbolBits(done))
      invariant output[outSize..] == old(output[outSize..])
    {
      ScanStep(input, i);
      var c := input[i];
      if c == '=' {
        break;
      }
      i := i + 1;
      if IsSpace(c) {
        continue;
      }
      var value := DecodeChar(c);
      if value < 0 {
        return InvalidArg, 0;
      }
      if bits + 5 < 8 {
        KeepPending(buffer, bits, done, value);
      } else {
        GiveByte(buffer, bits, done, value);
      }
      ghost var whole := done + [value] + ScanText(input[i..]).symbols;
      assert whole == done + ([value] + ScanText(input[i..]).symbols);
      buffer := ShiftIn(buffer, value);
      bits := bits + 5;
      done := done + [value];
      if bits >= 8 {
        bits := bits - 8;
        if produced >= outSize {
          assert |SymbolBits(whole)| / 8 > outSize;
          return NoMem, 0;
        }
        ghost var before := output[..produced];
        output[produced] := buffer / Pow2(bits) % 256;
        produced := produced + 1;
        assert output[..produced] == before + [buffer / Pow2(bits) % 256];
      }
    }
    ScanEnd(input, i);
    assert done + [] == done;
    RestValue(SymbolBits(done));
    if bits > 0 && buffer % Pow2(bits) != 0 {
      return InvalidSize, 0;
    }
    return EspOk, produced;
  }

  lemma NothingDone()
    ensures Holds(0, 0, []) && |SymbolBits([])| == 0 && Octets(SymbolBits([])) == []
  {
  }

  lemma ScanEnd(text: string, i: nat)
    requires i <= |text| && (i < |text| ==> text[i] == '=')
    ensures ScanText(text[i..]) == Scan([], true)
  {
    assert i < |text| ==> text[i..][0] == text[i];
  }

  lemma RestValue(bits: seq<bool>)
    ensures Value(Rest(bits, 8)) == 0 <==> Rest(bits, 8) == Zeros(|bits| % 8)
  {
    ValueZero(Rest(bits, 8));
  }

  // ---------- The encoding of section 6 of RFC 4648 ----------

  /** The number of zero bits that fill the last symbol. */
  function PadBits(octets: nat): (n: nat)
    ensures n < 5
  {
    2 * octets % 5
  }

  lemma PadFills(octets: nat)
    ensures (8 * octets + PadBits(octets)) % 5 == 0
  {
  }

  function PaddedBits(data: seq<byte>): seq<bool> {
    BitsOf(data, 8) + Zeros(PadBits(|data|))
  }

  function EncodeSymbols(data: seq<byte>): seq<Symbol> {
    Pow2Values();
    Group(PaddedBits(data), 5)
  }

  lemma EncodedBits(data: seq<byte>)
    ensures SymbolBits(EncodeSymbols(data)) == PaddedBits(data)
  {
    PadFills(|data|);
    BitsOfGroup(PaddedBits(data), 5);
  }

  /** Whole bytes followed by fewer than eight zero bits. */
  lemma OctetsThenZeros(data: seq<byte>, n: nat)
    requires n < 8
    ensures Octets(BitsOf(data, 8) + Zeros(n)) == data
    ensures Rest(BitsOf(data, 8) + Zeros(n), 8) == Zeros(n)
  {
    Pow2Values();
    GroupOfBits(data, 8);
    GroupAppend(BitsOf(data, 8), Zeros(n), 8);
    assert [] + Zeros(n) == Zeros(n);
  }

  lemma ZeroSymbolBits()
    ensures BitsOf([0], 5) == Zeros(5)
  {
    assert ToBits(0, 3) == [false, false, false];
    assert ToBits(0, 5) == Zeros(5);
    assert BitsOf([0], 5) == ToBits(0, 5) + BitsOf([], 5);
  }

  lemma SymbolsOfBits(symbols: seq<Symbol>)
    ensures Group(SymbolBits(symbols), 5) == symbols
  {
    Pow2Values();
    GroupOfBits(symbols, 5);
  }

  lemma ZerosAppend(bits: seq<bool>, m: nat, n: nat)
    ensures (bits + Zeros(m)) + Zeros(n) == bits + Zeros(m + n)
  {
  }

  lemma ZeroSymbol(symbols: seq<Symbol>, bits: seq<bool>, n: nat)
    requires SymbolBits(symbols) == bits + Zeros(n)
    ensures SymbolBits(symbols + [0]) == bits + Zeros(n + 5)
  {
    hide BitsOf, Zeros;
    BitsOfAppend(symbols, [0], 5);
    ZeroSymbolBits();
    ZerosAppend(bits, n, 5);
  }

  /** A symbol string decodes to the bytes whose encoding it is. */
  lemma EncodingDecodes(data: seq<byte>, outSize: nat)
    requires |data| <= outSize
    ensures Outcome32(Scan(EncodeSymbols(data), true), outSize) == Decoded(data)
  {
    EncodedBits(data);
    OctetsThenZeros(data, PadBits(|data|));
  }

  /** The bits left over are the fill bits, or those and one symbol more. */
  lemma FillOrSymbolMore(symbols: nat, octets: nat, n: nat, pad: nat)
    requires 5 * symbols == 8 * octets + n && n < 8 && pad < 5 && (8 * octets + pad) % 5 == 0
    ensures n == pad || n == pad + 5
  {
  }

  lemma DecodedComesFrom(symbols: seq<Symbol>, data: seq<byte>, outSize: nat)
    requires Outcome32(Scan(symbols, true), outSize) == Decoded(data)
    ensures symbols == EncodeSymbols(data) || (PadBits(|data|) <= 2 && symbols == EncodeSymbols(data) + [0])
  {
    hide BitsOf, Group, Rest, PadBits, EncodeSymbols;
    var bits := SymbolBits(symbols);
    var n, pad := |bits| % 8, PadBits(|data|);
    BitsOfGroup(bits, 8);
    assert bits == BitsOf(data, 8) + Zeros(n);
    PadFills(|data|);
    EncodedBits(data);
    SymbolsOfBits(EncodeSymbols(data));
    FillOrSymbolMore(|symbols|, |data|, n, pad);
    SymbolsOfBits(symbols);
    if n == pad + 5 {
      ZeroSymbol(EncodeSymbols(data), BitsOf(data, 8), pad);
      SymbolsOfBits(EncodeSymbols(data) + [0]);
    }
  }

  lemma SpareSymbolDecodes(data: seq<byte>, outSize: nat)
    requires |data| <= outSize && PadBits(|data|) <= 2
    ensures Outcome32(Scan(EncodeSymbols(data) + [0], true), outSize) == Decoded(data)
  {
    hide BitsOf, Group, Rest, PadBits, EncodeSymbols;
    EncodedBits(data);
    ZeroSymbol(EncodeSymbols(data), BitsOf(data, 8), PadBits(|data|));
    OctetsThenZeros(data, PadBits(|data|) + 5);
  }

  /**
   * Exactly which symbol strings decode to given bytes: their encoding, and, when at most two
   * fill bits are needed, also their encoding with one zero symbol too many.
   */
  lemma DecodedExactlyWhen(symbols: seq<Symbol>, data: seq<byte>, outSize: nat)
    ensures Outcome32(Scan(symbols, true), outSize) == Decoded(data) <==>
      && |data| <= outSize
      && (symbols == EncodeSymbols(data)
          || (PadBits(|data|) <= 2 && symbols == EncodeSymbols(data) + [0]))
  {
    hide BitsOf, Group, Rest, PadBits, EncodeSymbols;
    if Outcome32(Scan(symbols, true), outSize) == Decoded(data) {
      DecodedComesFrom(symbols, data, outSize);
    } else if |data| <= outSize {
      EncodingDecodes(data, outSize);
      if PadBits(|data|) <= 2 {
        SpareSymbolDecodes(data, outSize);
      }
    }
  }

  ghost predicate SomeSet(bits: seq<bool>) {
    exists k :: 0 <= k < |bits| && bits[k]
  }

  lemma NoneSet(bits: seq<bool>)
    ensures SomeSet(bits) <==> bits != Zeros(|bits|)
  {
    if !SomeSet(bits) {
      assert bits == Zeros(|bits|);
    } else {
      var k :| 0 <= k < |bits| && bits[k];
      assert bits[k] != Zeros(|bits|)[k];
    }
  }

  lemma OutcomeMeans(scan: Scan, outSize: nat)
    ensures var outcome := Outcome32(scan, outSize);
            (if outcome.Failed? then outcome.err else EspOk)
            == if 5 * |scan.symbols| / 8 > outSize then NoMem
               else if !scan.legal then InvalidArg
               else if SomeSet(Rest(SymbolBits(scan.symbols), 8)) then InvalidSize
               else EspOk
  {
    hide Octets, Rest, SomeSet, Zeros;
    NoneSet(Rest(SymbolBits(scan.symbols), 8));
  }

  // ---------- Texts ----------

  function Spell(symbols: seq<Symbol>): string {
    seq(|symbols|, i requires 0 <= i < |symbols| => EncodeChar(symbols[i]))
  }

  function ToUpper(c: char): char {
    if 'a' <= c <= 'z' then (c as int - 32) as char else c
  }

  /** The text up to the padding, in upper case and without white space. */
  function Normalise(text: string): string {
    if |text| == 0 || text[0] == '=' then ""
    else if IsSpace(text[0]) then Normalise(text[1..])
    else [ToUpper(text[0])] + Normalise(text[1..])
  }

  lemma {:induction false} ScanOfNormalised(text: string)
    ensures ScanText(Normalise(text)) == ScanText(text)
  {
    if |text| > 0 && text[0] != '=' {
      ScanOfNormalised(text[1..]);
      if !IsSpace(text[0]) {
        var t := Normalise(text);
        assert t[0] == ToUpper(text[0]) && t[1..] == Normalise(text[1..]);
      }
    }
  }

  /** The padding that brings the text to a multiple of eight characters. */
  function Encode(data: seq<byte>): string {
    var text := Spell(EncodeSymbols(data));
    text + seq((8 - |text| % 8) % 8, _ => '=')
  }

  /**
   * The decoder inverts the encoding for every byte string, in any mix of cases, with white
   * space anywhere and with or without padding.
   */
  lemma TextRoundTrip(text: string, data: seq<byte>, outSize: nat)
    requires Normalise(text) == Normalise(Encode(data)) && |data| <= outSize
    ensures Outcome32(ScanText(text), outSize) == Decoded(data)
  {
    ScanOfNormalised(text);
    ScanOfNormalised(Encode(data));
    ScanIgnoresPadding(EncodeSymbols(data), Encode(data)[|Spell(EncodeSymbols(data))|..]);
    EncodingDecodes(data, outSize);
  }

  lemma {:induction false} ScanIgnoresPadding(symbols: seq<Symbol>, padding: string)
    requires |padding| > 0 ==> padding[0] == '='
    ensures ScanText(Spell(symbols) + padding) == Scan(symbols, true)
  {
    var text := Spell(symbols) + padding;
    if |symbols| > 0 {
      CharRoundTrip(symbols[0]);
      assert text[1..] == Spell(symbols[1..]) + padding;
      ScanIgnoresPadding(symbols[1..], padding);
    } else {
      assert text == padding;
    }
  }

  lemma CharIsSymbol(c: char)
    requires DecodeChar(c) >= 0
    ensures EncodeChar(DecodeChar(c)) == ToUpper(c)
  {
  }

  lemma {:induction false} LegalTextSpells(text: string)
    requires ScanText(text).legal
    ensures Normalise(text) == Spell(ScanText(text).symbols)
  {
    if |text| > 0 && text[0] != '=' {
      LegalTextSpells(text[1..]);
      if !IsSpace(text[0]) {
        CharIsSymbol(text[0]);
        var symbols := ScanText(text[1..]).symbols;
        assert Spell([DecodeChar(text[0])] + symbols) == [EncodeChar(DecodeChar(text[0]))] + Spell(symbols);
      }
    }
  }

  lemma SpelledTextScans(text: string, symbols: seq<Symbol>)
    requires Normalise(text) == Spell(symbols)
    ensures ScanText(text) == Scan(symbols, true)
  {
    ScanOfNormalised(text);
    ScanIgnoresPadding(symbols, "");
    assert Spell(symbols) + "" == Spell(symbols);
  }

  /**
   * Which texts decode to given bytes: up to case, white space and what follows the first '=', only
   * their encoding, or that and one letter A where at most two fill bits are needed.
   */
  lemma TextDecodesExactlyWhen(text: string, data: seq<byte>, outSize: nat)
    ensures Outcome32(ScanText(text), outSize) == Decoded(data) <==>
      && |data| <= outSize
      && (Normalise(text) == Spell(EncodeSymbols(data))
          || (PadBits(|data|) <= 2 && Normalise(text) == Spell(EncodeSymbols(data)) + "A"))
  {
    hide EncodeSymbols, PadBits, Normalise, ScanText, Rest, Octets;
    var scan, code := ScanText(text), EncodeSymbols(data);
    assert Spell(code + [0]) == Spell(code) + "A";
    DecodedExactlyWhen(scan.symbols, data, outSize);
    if scan.legal {
      LegalTextSpells(text);
    }
    if Normalise(text) == Spell(code) {
      SpelledTextScans(text, code);
    } else if Normalise(text) == Spell(code + [0]) {
      SpelledTextScans(text, code + [0]);
    }
  }
}
