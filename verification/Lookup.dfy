/**
 * Reading the parts of a parsed message, as the JSON library's accessors do: the first member whose
 * name agrees but for case, numbers cut to an unsigned field, and texts.
 */
module Lookup {
  import opened Bytes
  import opened Json
  import opened Printing
  import Crc32
  import ShiftRegister

  function LowerCase(c: char): char {
    if 'A' <= c <= 'Z' then (c as int + 32) as char else c
  }

  predicate SameName(a: string, b: string) {
    |a| == |b| && forall i :: 0 <= i < |a| ==> LowerCase(a[i]) == LowerCase(b[i])
  }

  /** A letter and its other case. */
  predicate IsOtherCase(c: char, d: char) {
    || ('a' <= c <= 'z' && c as int - 'a' as int == d as int - 'A' as int)
    || ('a' <= d <= 'z' && d as int - 'a' as int == c as int - 'A' as int)
  }

  lemma SameLetter(c: char, d: char)
    ensures LowerCase(c) == LowerCase(d) <==> c == d || IsOtherCase(c, d)
  {
  }

  /** Names are the same if they differ at most in the case of their letters. */
  lemma SameNameExactlyWhen(a: string, b: string)
    ensures SameName(a, b) <==> |a| == |b| && forall i :: 0 <= i < |a| ==> a[i] == b[i] || IsOtherCase(a[i], b[i])
  {
    hide LowerCase, IsOtherCase;
    forall i | 0 <= i < |a| && |a| == |b|
      ensures LowerCase(a[i]) == LowerCase(b[i]) <==> a[i] == b[i] || IsOtherCase(a[i], b[i])
    {
      SameLetter(a[i], b[i]);
    }
  }

  function Find(fields: seq<(string, Value)>, name: string): Option<Value> {
    if |fields| == 0 then None
    else if SameName(fields[0].0, name) then Some(fields[0].1)
    else Find(fields[1..], name)
  }

  /** The member of an object; nothing when the value is missing or not an object. */
  function Member(v: Option<Value>, name: string): Option<Value> {
    if v.Some? && v.value.Object? then Find(v.value.fields, name) else None
  }

  lemma OneField(n: string, v: Value, name: string)
    ensures Member(Some(Object([(n, v)])), name) == if SameName(n, name) then Some(v) else None
  {
    hide SameName;
    var fields := [(n, v)];
    assert Member(Some(Object(fields)), name) == Find(fields, name);
    assert fields[1..] == [] && Find(fields[1..], name) == None;
  }

  lemma NothingFound(name: string)
    ensures Member(Some(Object([])), name) == None
  {
  }

  predicate IsObject(v: Option<Value>) {
    v.Some? && v.value.Object?
  }

  function TextOf(v: Option<Value>): Option<string> {
    if v.Some? && v.value.Text? then Some(v.value.text) else None
  }

  /** A number cut to an unsigned field of the given bound; 0 where C leaves the cast undefined. */
  function AsUint(v: Option<Value>, bound: nat): (n: nat)
    requires bound > 0
    ensures n < bound
    ensures v.Some? && v.value.Number? && 0.0 <= v.value.number < bound as real ==>
              n as real <= v.value.number < n as real + 1.0
    ensures !(v.Some? && v.value.Number? && 0.0 <= v.value.number < bound as real) ==> n == 0
  {
    if v.Some? && v.value.Number? && 0.0 <= v.value.number < bound as real
    then v.value.number.Floor
    else 0
  }

  lemma NatIsKept(n: nat, bound: nat)
    requires n < bound
    ensures AsUint(Some(Number(n as real)), bound) == n
  {
  }

  /** The first printed field of the name decides what is found. */
  function FindDoc(fields: seq<(string, Doc)>, name: string): Option<Doc> {
    if |fields| == 0 then None
    else if SameName(fields[0].0, name) then Some(fields[0].1)
    else FindDoc(fields[1..], name)
  }

  function ValueOfOption(d: Option<Doc>): Option<Value> {
    if d.Some? then Some(ValueOf(d.value)) else None
  }

  lemma {:induction false} FindPrinted(fields: seq<(string, Doc)>, name: string)
    ensures Find(FieldValues(fields), name) == ValueOfOption(FindDoc(fields, name))
  {
    hide SameName, ValueOf;
    if |fields| > 0 {
      assert FieldValues(fields)[1..] == FieldValues(fields[1..]);
      FindPrinted(fields[1..], name);
    }
  }

  lemma FindPast(other: string, d: Doc, rest: seq<(string, Doc)>, name: string)
    requires !SameName(other, name)
    ensures FindDoc([(other, d)] + rest, name) == FindDoc(rest, name)
  {
    assert ([(other, d)] + rest)[1..] == rest;
  }

  lemma {:induction false} FindDocAppend(a: seq<(string, Doc)>, b: seq<(string, Doc)>, name: string)
    ensures FindDoc(a + b, name) == if FindDoc(a, name).Some? then FindDoc(a, name) else FindDoc(b, name)
  {
    hide SameName;
    if |a| == 0 {
      assert a + b == b;
    } else {
      assert (a + b)[1..] == a[1..] + b;
      FindDocAppend(a[1..], b, name);
    }
  }

  lemma MemberOfNothing(name: string)
    ensures Member(None, name) == None
  {
  }

  lemma {:induction false} FindAt(fields: seq<(string, Doc)>, k: nat, name: string)
    requires k < |fields| && SameName(fields[k].0, name)
    requires forall i :: 0 <= i < k ==> !SameName(fields[i].0, name)
    ensures FindDoc(fields, name) == Some(fields[k].1)
  {
    hide SameName;
    if k > 0 {
      FindAt(fields[1..], k - 1, name);
    }
  }

  /** A member of a printed object is found by its name. */
  lemma MemberAt(fields: seq<(string, Doc)>, k: nat, name: string)
    requires k < |fields| && SameName(fields[k].0, name)
    requires forall i :: 0 <= i < k ==> !SameName(fields[i].0, name)
    ensures Member(Some(ValueOf(Fields(fields))), name) == Some(ValueOf(fields[k].1))
  {
    hide SameName, FindDoc, Find;
    FindAt(fields, k, name);
    FindPrinted(fields, name);
  }

  // ---------- Acceptance ----------

  /**
   * What both decoders check first: the checksum, where 0 stands for none, and that the text starts
   * with a JSON value; what follows the value is ignored.
   */
  predicate Accepted(payload: string, expectedCrc: bv32) {
    (expectedCrc == 0 || TextChecksum(payload) == expectedCrc) && ValueRead(payload).Some?
  }

  function ValueRead(payload: string): Option<Value> {
    match ParseValue(payload)
    case Failed => None
    case Read(value, _) => Some(value)
  }

  /** The bytes differ only within 32 consecutive bits. */
  ghost predicate DamagedWithin(sent: string, received: string, start: nat) {
    ShiftRegister.DifferOnlyWithin(Crc32.MessageBits(AsBytes(sent)), Crc32.MessageBits(AsBytes(received)), start, 32)
  }

  /**
   * With a checksum other than 0, a payload that differs from the checked one within 32 consecutive
   * bits is refused; a checksum of 0 switches this protection off.
   */
  lemma DamagedPayloadIsRefused(sent: string, received: string, start: nat)
    requires |sent| == |received| && AsBytes(sent) != AsBytes(received)
    requires DamagedWithin(sent, received, start)
    requires TextChecksum(sent) != 0
    ensures !Accepted(received, TextChecksum(sent))
  {
    Crc32.BurstDetected(AsBytes(sent), AsBytes(received), start);
  }

  /** The same damage is accepted exactly when the checksum is 0 and the payload starts with a value. */
  lemma DamagedPayloadExactlyWhen(sent: string, received: string, start: nat)
    requires |sent| == |received| && AsBytes(sent) != AsBytes(received)
    requires DamagedWithin(sent, received, start)
    ensures Accepted(received, TextChecksum(sent)) <==> TextChecksum(sent) == 0 && ValueRead(received).Some?
  {
    hide ValueRead;
    if TextChecksum(sent) != 0 {
      DamagedPayloadIsRefused(sent, received, start);
    }
  }
}
