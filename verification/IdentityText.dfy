/// The canonical JSON of src/xtypes/xtypes.cpp in full, as the text that type
/// identifiers hash.

module IdentityText {
  import opened Octets
  import opened Texts
  import opened TypeIdentity

  lemma Glued(a: string, b: string, c: string, d: string, e: string, f: string, g: string, h: string)
    ensures a + (b + (c + (d + (e + (f + (g + h)))))) == (a + b) + c + d + e + f + g + h
  {}

  lemma Marks()
    ensures "{" + "\"kind\":" == "{\"kind\":" && "{" + "\"element\":" == "{\"element\":"
    ensures "," + "\"fields\":" + "[" == ",\"fields\":[" && "]" + "," == "],"
  {}

  lemma MoreMarks()
    ensures "{\"fields\":" + "[" == "{\"fields\":["
    ensures "]" + ",\"name\":" == "],\"name\":"
  {}

  lemma LastPartIs(f: Field)
    ensures LastPart(f) == "\"kind\":" + (Quoted(KindText(f.kind)) + (",\"name\":" + (Quoted(f.name)
      + (",\"optional\":" + ((if f.optional then "true" else "false") + "}")))))
  {
    hide Quoted, KindText;
  }

  lemma FieldOf(f: Field)
    ensures FieldText(f) == "{" + (WithElement(f) + (WithFields(f) + LastPart(f)))
  {
    hide Quoted, LastPart;
  }

  function WithElement(f: Field): string {
    if f.element.Some? then "\"element\":" + (FieldText(f.element.value) + ",") else ""
  }

  function WithFields(f: Field): string {
    if |f.fields| > 0 then "\"fields\":" + (("[" + (ItemsText(Sorted(f.fields)) + "]")) + ",") else ""
  }

  lemma NoParts(f: Field, last: string)
    requires f.element.None? && |f.fields| == 0
    ensures WithElement(f) + (WithFields(f) + last) == last
  {}

  /** A field that holds no others. */
  lemma {:induction false} PlainFieldText(f: Field)
    requires f.element.None? && |f.fields| == 0
    ensures FieldText(f) ==
      "{\"kind\":" + Quoted(KindText(f.kind)) + ",\"name\":" + Quoted(f.name) + ",\"optional\":"
      + (if f.optional then "true" else "false") + "}"
  {
    hide *;
    FieldOf(f);
    NoParts(f, LastPart(f));
    LastPartIs(f);
    Marks();
    Glued("{", "\"kind\":", Quoted(KindText(f.kind)), ",\"name\":", Quoted(f.name), ",\"optional\":",
          if f.optional then "true" else "false", "}");
  }

  lemma TwoSorted(b: Field, a: Field)
    requires Less(a.name, b.name)
    ensures Sorted([b, a]) == Sorted([a, b]) == [a, b]
    ensures ItemsText([a, b]) == FieldText(a) + ("," + FieldText(b))
  {
    hide FieldText;
    LessTotal(a.name, b.name);
    assert [b, a][1..] == [a] && [a, b][1..] == [b] && |[a][1..]| == 0 && |[b][1..]| == 0;
    assert Sorted([a]) == [a] && Sorted([b]) == [b];
    assert [a][1..] == [];
  }

  lemma SameLastPart(f: Field, g: Field)
    requires g.kind == f.kind && g.name == f.name && g.optional == f.optional
    ensures LastPart(f) == LastPart(g)
  {}

  /** A field with an element and two fields: the element first, then the fields in
      the order of their names, then the rest. */
  lemma {:induction false} NestedFieldText(f: Field, e: Field, a: Field, b: Field)
    requires f.element == Some(e) && f.fields == [b, a] && Less(a.name, b.name)
    ensures FieldText(f) ==
      "{\"element\":" + FieldText(e) + ",\"fields\":[" + FieldText(a) + "," + FieldText(b) + "],"
      + FieldText(f.(element := None, fields := []))[1..]
  {
    var plain := f.(element := None, fields := []);
    PartsOf(f, e, a, b);
    hide *;
    FieldOf(f);
    FieldOf(plain);
    NoParts(plain, LastPart(plain));
    SameLastPart(f, plain);
    BehindBrace(LastPart(f));
    Marks();
    Nested(FieldText(e), FieldText(a), FieldText(b), LastPart(f));
  }

  lemma BehindBrace(s: string)
    ensures ("{" + s)[1..] == s
  {}

  lemma PartsOf(f: Field, e: Field, a: Field, b: Field)
    requires f.element == Some(e) && f.fields == [b, a] && Less(a.name, b.name)
    ensures WithElement(f) == "\"element\":" + (FieldText(e) + ",")
    ensures WithFields(f) == "\"fields\":" + (("[" + ((FieldText(a) + ("," + FieldText(b))) + "]")) + ",")
  {
    hide FieldText, Less, Sorted, ItemsText;
    TwoSorted(b, a);
  }

  lemma Nested(x: string, y: string, z: string, last: string)
    ensures "{" + (("\"element\":" + (x + ",")) + (("\"fields\":" + (("[" + ((y + ("," + z)) + "]")) + ",")) + last))
         == ("{" + "\"element\":") + x + ("," + "\"fields\":" + "[") + y + "," + z + ("]" + ",") + last
  {
    NestedIn("{", "\"element\":", x, ",", "\"fields\":", "[", y, z, "]", last);
  }

  lemma NestedIn(o: string, k: string, x: string, c: string, fs: string, l: string, y: string, z: string, r: string,
                 last: string)
    ensures o + ((k + (x + c)) + ((fs + ((l + ((y + (c + z)) + r)) + c)) + last))
         == (o + k) + x + (c + fs + l) + y + c + z + (r + c) + last
  {}

  /** A type of two fields, in whatever order they are declared. */
  lemma {:induction false} TwoFieldText(name: string, version: nat, a: Field, b: Field)
    requires Less(a.name, b.name)
    ensures CanonicalJson(Descriptor(name, version, [b, a])) == CanonicalJson(Descriptor(name, version, [a, b])) ==
      "{\"fields\":[" + FieldText(a) + "," + FieldText(b) + "],\"name\":" + Quoted(name) + ",\"version\":"
      + Decimal(version) + "}"
  {
    JsonOf(Descriptor(name, version, [b, a]));
    JsonOf(Descriptor(name, version, [a, b]));
    hide *;
    TwoSorted(b, a);
    MoreMarks();
    TypeIn("{\"fields\":", "[", FieldText(a), ",", FieldText(b), "]", ",\"name\":", Quoted(name), ",\"version\":",
           Decimal(version), "}");
  }

  lemma JsonOf(td: Descriptor)
    ensures CanonicalJson(td) == "{\"fields\":" + (("[" + (ItemsText(Sorted(td.fields)) + "]"))
      + (",\"name\":" + (Quoted(td.name) + (",\"version\":" + (Decimal(td.version) + "}")))))
  {
    hide Quoted, Decimal, ItemsText, Sorted;
  }

  lemma TypeIn(o: string, l: string, x: string, c: string, y: string, r: string, n: string, q: string, v: string,
               d: string, e: string)
    ensures o + ((l + ((x + (c + y)) + r)) + (n + (q + (v + (d + e)))))
         == (o + l) + x + c + y + (r + n) + q + v + d + e
  {}
}
