/** How printed JSON documents fall apart into the pieces that the encoders print one by one. */
module JsonText {
  import opened Numerals
  import opened Json

  /** Further fields after the first ones. */
  function PrintTail(fields: seq<(string, Doc)>): string {
    if |fields| == 0 then "" else "," + PrintFields(fields)
  }

  lemma {:induction false} PrintFieldsAppend(a: seq<(string, Doc)>, b: seq<(string, Doc)>)
    requires |a| > 0
    ensures PrintFields(a + b) == PrintFields(a) + PrintTail(b)
    decreases |a|
  {
    if |a| == 1 {
      assert (a + b)[1..] == b;
      if |b| == 0 {
        assert a + b == a;
      }
    } else {
      assert (a + b)[1..] == a[1..] + b;
      PrintFieldsAppend(a[1..], b);
    }
  }

  lemma PrintTailAppend(a: seq<(string, Doc)>, b: seq<(string, Doc)>)
    ensures PrintTail(a + b) == PrintTail(a) + PrintTail(b)
  {
    if |a| == 0 {
      assert a + b == b;
    } else {
      PrintFieldsAppend(a, b);
    }
  }

  lemma PrintOne(field: (string, Doc))
    ensures PrintFields([field]) == PrintField(field)
  {
  }

  lemma PrintCons(field: (string, Doc), rest: seq<(string, Doc)>)
    requires |rest| > 0
    ensures PrintFields([field] + rest) == PrintField(field) + ("," + PrintFields(rest))
  {
    assert ([field] + rest)[1..] == rest;
  }

  lemma PrintTwo(a: (string, Doc), b: (string, Doc))
    ensures PrintFields([a, b]) == PrintField(a) + ("," + PrintField(b))
  {
    hide PrintField;
    PrintCons(a, [b]);
    assert [a] + [b] == [a, b];
    PrintOne(b);
  }

  lemma PrintFour(a: (string, Doc), b: (string, Doc), c: (string, Doc), d: (string, Doc))
    ensures PrintFields([a, b, c, d])
         == PrintField(a) + ("," + (PrintField(b) + ("," + (PrintField(c) + ("," + PrintField(d))))))
  {
    hide PrintField;
    PrintCons(a, [b, c, d]);
    assert [a] + [b, c, d] == [a, b, c, d];
    PrintCons(b, [c, d]);
    assert [b] + [c, d] == [b, c, d];
    PrintTwo(c, d);
  }

  lemma DecimalOne()
    ensures Decimal(1) == "1"
  {
  }

  /** The printed label of a field. */
  function Label(name: string): string {
    "\"" + name + "\":"
  }

  lemma FieldPrinted(field: (string, Doc))
    ensures PrintField(field) == Label(field.0) + Print(field.1)
  {
  }

  /** A field printed after another one. */
  function Further(name: string, d: Doc): string {
    "," + (Label(name) + Print(d))
  }

  lemma TailOfOne(name: string, d: Doc)
    ensures PrintTail([(name, d)]) == Further(name, d)
  {
    PrintOne((name, d));
    FieldPrinted((name, d));
  }

  lemma PrintedOne(a: (string, Doc))
    ensures Print(Fields([a])) == "{" + (Label(a.0) + (Print(a.1) + "}"))
  {
    hide PrintField, Label;
    PrintOne(a);
    FieldPrinted(a);
  }

  lemma PrintedTwo(a: (string, Doc), b: (string, Doc))
    ensures Print(Fields([a, b])) == "{" + (Label(a.0) + (Print(a.1) + (Further(b.0, b.1) + "}")))
  {
    hide PrintField, Label;
    PrintTwo(a, b);
    FieldPrinted(a);
    FieldPrinted(b);
    AppendTwo("{", Label(a.0), Print(a.1), Further(b.0, b.1), "}");
  }

  lemma AppendTwo(o: string, l: string, p: string, f: string, e: string)
    ensures o + ((l + p) + f) + e == o + (l + (p + (f + e)))
  {
  }

  lemma PrintedFour(a: (string, Doc), b: (string, Doc), c: (string, Doc), d: (string, Doc))
    ensures Print(Fields([a, b, c, d]))
         == "{" + (Label(a.0) + (Print(a.1) + (Further(b.0, b.1) + (Further(c.0, c.1) + (Further(d.0, d.1) + "}")))))
  {
    hide PrintField, Label;
    PrintFour(a, b, c, d);
    FieldPrinted(a);
    FieldPrinted(b);
    FieldPrinted(c);
    FieldPrinted(d);
    AppendFour("{", Label(a.0), Print(a.1), ",", PrintField(b), PrintField(c), PrintField(d), "}");
  }

  lemma AppendFour(o: string, l: string, p: string, k: string, f: string, g: string, h: string, e: string)
    ensures o + ((l + p) + (k + (f + (k + (g + (k + h)))))) + e == o + (l + (p + ((k + f) + ((k + g) + ((k + h) + e)))))
  {
  }

  lemma AppendPrintable(a: seq<(string, Doc)>, b: seq<(string, Doc)>)
    requires Printable(Fields(a)) && Printable(Fields(b))
    ensures Printable(Fields(a + b))
  {
  }
}
