/// The canonical JSON text that type identifiers hash (src/xtypes/xtypes.cpp).

module TypeIdentity {
  import opened Octets
  import opened Texts

  datatype Field = Field(name: string, kind: octet, optional: bool, fields: seq<Field>, element: Option<Field>)

  datatype Descriptor = Descriptor(name: string, version: nat, fields: seq<Field>)

  function KindText(k: octet): string {
    match k
    case 0 => "bool" case 1 => "int32" case 2 => "int64" case 3 => "float64"
    case 4 => "string" case 5 => "bytes" case 6 => "struct" case 7 => "seq"
    case _ => "TypeKind(" + Decimal(k) + ")"
  }

  lemma KindTextTells(k: octet, l: octet)
    requires KindText(k) == KindText(l)
    ensures k == l
  {
    if k >= 8 && l >= 8 {
      var p := "TypeKind(";
      assert KindText(k) == p + (Decimal(k) + ")") && KindText(l) == p + (Decimal(l) + ")");
      Cancel(p, Decimal(k) + ")", Decimal(l) + ")");
      DecimalDecodes(k, l, ")", ")");
    } else {
      var a, b := KindText(k), KindText(l);
      assert a[0] == b[0] && a[1] == b[1] && a[2] == b[2] && (|a| > 3 ==> a[3] == b[3]);
    }
  }

  // ---- Sorting fields by name -------------------------------------------

  // The first place where f may stand: equal names keep their order.
  function Insert(f: Field, fs: seq<Field>): (r: seq<Field>)
    ensures multiset(r) == multiset(fs) + multiset{f}
  {
    if |fs| == 0 then [f]
    else if Less(fs[0].name, f.name) then
      assert fs == [fs[0]] + fs[1..];
      [fs[0]] + Insert(f, fs[1..])
    else [f] + fs
  }

  // std::stable_sort by name.
  function Sorted(fs: seq<Field>): (r: seq<Field>)
    ensures multiset(r) == multiset(fs)
  {
    if |fs| == 0 then []
    else
      assert fs == [fs[0]] + fs[1..];
      Insert(fs[0], Sorted(fs[1..]))
  }

  predicate Ascending(fs: seq<Field>) {
    forall i, j :: 0 <= i < j < |fs| ==> Less(fs[i].name, fs[j].name)
  }

  predicate Distinct(fs: seq<Field>) {
    forall i, j :: 0 <= i < j < |fs| ==> fs[i].name != fs[j].name
  }

  lemma {:induction false} InsertAscends(f: Field, fs: seq<Field>)
    requires Ascending(fs) && forall i :: 0 <= i < |fs| ==> fs[i].name != f.name
    ensures Ascending(Insert(f, fs))
    decreases |fs|
  {
    if |fs| > 0 {
      LessTotal(fs[0].name, f.name);
      var r := Insert(f, fs);
      if Less(fs[0].name, f.name) {
        InsertAscends(f, fs[1..]);
        forall j | 0 < j < |r| ensures Less(r[0].name, r[j].name) {
          assert r[j] == Insert(f, fs[1..])[j - 1] && r[j] in multiset(Insert(f, fs[1..]));
          assert r[j] in multiset(fs[1..]) + multiset{f};
          if r[j] != f { assert r[j] in fs[1..]; }
        }
      } else {
        forall j | 0 < j < |r| ensures Less(r[0].name, r[j].name) {
          if j > 1 { LessTransitive(f.name, fs[0].name, r[j].name); }
        }
      }
    }
  }

  lemma {:induction false} SortedAscends(fs: seq<Field>)
    requires Distinct(fs)
    ensures Ascending(Sorted(fs))
    decreases |fs|
  {
    if |fs| > 0 {
      SortedAscends(fs[1..]);
      forall i | 0 <= i < |Sorted(fs[1..])| ensures Sorted(fs[1..])[i].name != fs[0].name {
        assert Sorted(fs[1..])[i] in multiset(fs[1..]);
      }
      InsertAscends(fs[0], Sorted(fs[1..]));
    }
  }

  // ---- The canonical text -----------------------------------------------

  // Nesting depth; only for termination.
  function Depth(f: Field): nat {
    1 + Max(if f.element.Some? then Depth(f.element.value) else 0, MaxDepth(f.fields))
  }

  function MaxDepth(fs: seq<Field>): nat {
    if |fs| == 0 then 0 else Max(Depth(fs[0]), MaxDepth(fs[1..]))
  }

  function Max(a: nat, b: nat): nat { if a < b then b else a }

  lemma {:induction false} DepthBound(fs: seq<Field>, i: nat)
    requires i < |fs|
    ensures Depth(fs[i]) <= MaxDepth(fs)
    decreases |fs|
  {
    if i > 0 { DepthBound(fs[1..], i - 1); }
  }

  lemma {:induction false} DepthOfAll(fs: seq<Field>, m: nat)
    requires forall i :: 0 <= i < |fs| ==> Depth(fs[i]) <= m
    ensures MaxDepth(fs) <= m
    decreases |fs|
  {
    if |fs| > 0 { DepthOfAll(fs[1..], m); }
  }

  lemma SortedDepth(fs: seq<Field>)
    ensures MaxDepth(Sorted(fs)) <= MaxDepth(fs)
  {
    var gs := Sorted(fs);
    forall i | 0 <= i < |gs| ensures Depth(gs[i]) <= MaxDepth(fs) {
      assert gs[i] in multiset(fs);
      var j :| 0 <= j < |fs| && fs[j] == gs[i];
      DepthBound(fs, j);
    }
    DepthOfAll(gs, MaxDepth(fs));
  }

  // The keys, with the punctuation before and after them.
  function TopKey(): string { "{\"fields\":" }
  function NameKey(): string { ",\"name\":" }
  function OptionalKey(): string { ",\"optional\":" }
  function VersionKey(): string { ",\"version\":" }
  function ElementKey(): string { "\"element\":" }
  function FieldsKey(): string { "\"fields\":" }
  function KindKey(): string { "\"kind\":" }

  function BoolText(b: bool): string { if b then "true" else "false" }

  function LastPart(f: Field): string {
    KindKey() + (Quoted(KindText(f.kind))
      + (NameKey() + (Quoted(f.name) + (OptionalKey() + (BoolText(f.optional) + "}")))))
  }

  // One field: "element" and "fields" only where there are any.
  function FieldText(f: Field): string
    decreases Depth(f), 0
  {
    SortedDepth(f.fields);
    "{" + ((if f.element.Some? then ElementKey() + (FieldText(f.element.value) + ",") else "")
           + ((if |f.fields| > 0 then FieldsKey() + (ArrayText(Sorted(f.fields)) + ",") else "")
              + LastPart(f)))
  }

  function ArrayText(fs: seq<Field>): string
    decreases MaxDepth(fs), |fs| + 2
  {
    "[" + (ItemsText(fs) + "]")
  }

  function ItemsText(fs: seq<Field>): string
    decreases MaxDepth(fs), |fs| + 1
  {
    if |fs| == 0 then ""
    else if |fs| == 1 then FieldText(fs[0])
    else FieldText(fs[0]) + ("," + ItemsText(fs[1..]))
  }

  function CanonicalJson(td: Descriptor): string {
    TopKey() + (ArrayText(Sorted(td.fields))
      + (NameKey() + (Quoted(td.name) + (VersionKey() + (Decimal(td.version) + "}")))))
  }

  // ---- Equal up to the order of fields ----------------------------------

  /** Same name, kind, optionality and element, and the same fields in any
      order, at every level. */
  ghost predicate Same(a: Field, b: Field)
    decreases a, 0
  {
    && a.name == b.name && a.kind == b.kind && a.optional == b.optional
    && (match (a.element, b.element)
        case (None, None) => true
        case (Some(x), Some(y)) => Same(x, y)
        case _ => false)
    && SameFields(a.fields, b.fields)
  }

  ghost predicate Paired(fs: seq<Field>, gs: seq<Field>)
    decreases fs, 0
  {
    |fs| == |gs| && forall i :: 0 <= i < |fs| ==> Same(fs[i], gs[i])
  }

  predicate Reordered(hs: seq<Field>, gs: seq<Field>) { multiset(hs) == multiset(gs) }

  // gs can be put in an order that pairs it with fs, one to one.
  ghost predicate SameFields(fs: seq<Field>, gs: seq<Field>)
    decreases fs, 1
  {
    exists hs :: Reordered(hs, gs) && Paired(fs, hs)
  }

  ghost predicate SameDescriptor(a: Descriptor, b: Descriptor) {
    a.name == b.name && a.version == b.version && SameFields(a.fields, b.fields)
  }

  // Names are unique within their parent, at every level.
  predicate Unique(f: Field) {
    (f.element.Some? ==> Unique(f.element.value)) && AllUnique(f.fields)
  }

  predicate AllUnique(fs: seq<Field>) {
    Distinct(fs) && forall i :: 0 <= i < |fs| ==> Unique(fs[i])
  }

  // ---- The text tells the type ------------------------------------------

  lemma Assoc(a: string, b: string, c: string)
    ensures (a + b) + c == a + (b + c)
  {}

  // A field's text and what follows it, from "kind", "fields" or "element" on.
  function LastOn(f: Field, r: string): string {
    KindKey() + (Quoted(KindText(f.kind))
      + (NameKey() + (Quoted(f.name) + (OptionalKey() + (BoolText(f.optional) + ("}" + r))))))
  }

  function FieldsOn(f: Field, r: string): string {
    if |f.fields| > 0 then FieldsKey() + (ArrayText(Sorted(f.fields)) + ("," + LastOn(f, r))) else LastOn(f, r)
  }

  function ElementOn(f: Field, r: string): string {
    if f.element.Some? then ElementKey() + (FieldText(f.element.value) + ("," + FieldsOn(f, r))) else FieldsOn(f, r)
  }

  lemma LastPartOn(f: Field, r: string)
    ensures LastPart(f) + r == LastOn(f, r)
  {
    hide Quoted, KindText, BoolText;
    var d := BoolText(f.optional) + "}";
    var c := Quoted(f.name) + (OptionalKey() + d);
    var b := Quoted(KindText(f.kind)) + (NameKey() + c);
    Assoc(KindKey(), b, r);
    Assoc(Quoted(KindText(f.kind)), NameKey() + c, r);
    Assoc(NameKey(), c, r);
    Assoc(Quoted(f.name), OptionalKey() + d, r);
    Assoc(OptionalKey(), d, r);
    Assoc(BoolText(f.optional), "}", r);
  }

  lemma {:induction false} FieldTextOn(f: Field, r: string)
    ensures FieldText(f) + r == "{" + ElementOn(f, r)
  {
    hide LastPart, LastOn, ArrayText, Sorted;
    var last := LastPart(f);
    LastPartOn(f, r);
    var fields := (if |f.fields| > 0 then FieldsKey() + (ArrayText(Sorted(f.fields)) + ",") else "") + last;
    assert fields + r == FieldsOn(f, r) by {
      if |f.fields| > 0 { Assoc3(FieldsKey(), ArrayText(Sorted(f.fields)), ",", last, r); }
    }
    var element := (if f.element.Some? then ElementKey() + (FieldText(f.element.value) + ",") else "") + fields;
    assert element + r == ElementOn(f, r) by {
      if f.element.Some? { Assoc3(ElementKey(), FieldText(f.element.value), ",", fields, r); }
    }
    assert FieldText(f) == "{" + element;
    Assoc("{", element, r);
  }

  lemma Assoc2(v: string, c: string, x: string, r: string)
    ensures (v + (c + x)) + r == v + (c + (x + r))
  {}

  lemma Assoc3(k: string, v: string, c: string, x: string, r: string)
    ensures ((k + (v + c)) + x) + r == k + (v + (c + (x + r)))
  {}

  // The second character of each key tells which key comes next.
  lemma KeyTells(f: Field, r: string)
    ensures |LastOn(f, r)| > 1 && LastOn(f, r)[1] == 'k'
    ensures |FieldsOn(f, r)| > 1 && FieldsOn(f, r)[1] == if |f.fields| > 0 then 'f' else 'k'
    ensures |ElementOn(f, r)| > 1 && ElementOn(f, r)[1] == if f.element.Some? then 'e' else FieldsOn(f, r)[1]
  {
    hide Quoted, KindText, BoolText, ArrayText, Sorted, FieldText;
  }

  lemma LastDecodes(a: Field, b: Field, r: string, q: string)
    requires LastOn(a, r) == LastOn(b, q)
    ensures a.kind == b.kind && a.name == b.name && a.optional == b.optional && r == q
  {
    hide Quoted, KindText;
    var x2, y2 := BoolText(a.optional) + ("}" + r), BoolText(b.optional) + ("}" + q);
    var x1, y1 := Quoted(a.name) + (OptionalKey() + x2), Quoted(b.name) + (OptionalKey() + y2);
    var x0, y0 := Quoted(KindText(a.kind)) + (NameKey() + x1), Quoted(KindText(b.kind)) + (NameKey() + y1);
    Cancel(KindKey(), x0, y0);
    QuotedDecodes(KindText(a.kind), KindText(b.kind), NameKey() + x1, NameKey() + y1);
    KindTextTells(a.kind, b.kind);
    Cancel(NameKey(), x1, y1);
    QuotedDecodes(a.name, b.name, OptionalKey() + x2, OptionalKey() + y2);
    Cancel(OptionalKey(), x2, y2);
    BoolDecodes(a.optional, b.optional, r, q);
  }

  lemma BoolDecodes(a: bool, b: bool, r: string, q: string)
    requires BoolText(a) + ("}" + r) == BoolText(b) + ("}" + q)
    ensures a == b && r == q
  {
    assert (BoolText(a) + ("}" + r))[0] == BoolText(a)[0] && (BoolText(b) + ("}" + q))[0] == BoolText(b)[0];
    Cancel(BoolText(a), "}" + r, "}" + q);
    Cancel("}", r, q);
  }

  lemma SameParts(a: Field, b: Field)
    requires a.kind == b.kind && a.name == b.name && a.optional == b.optional
    requires a.element.Some? == b.element.Some? && (a.element.Some? ==> Same(a.element.value, b.element.value))
    requires SameFields(a.fields, b.fields)
    ensures Same(a, b)
  {}

  lemma NoFields(fs: seq<Field>, gs: seq<Field>)
    requires |fs| == |gs| == 0
    ensures SameFields(fs, gs)
  {
    assert Reordered(gs, gs) && Paired(fs, gs);
  }

  /** No two fields that differ in more than order are written alike, and the
      text says where it ends. */
  lemma {:induction false} FieldDecodes(a: Field, b: Field, r: string, q: string)
    requires FieldText(a) + r == FieldText(b) + q
    ensures Same(a, b) && r == q
    decreases Depth(a), 0
  {
    hide LastOn, Sorted, ArrayText, FieldText, Same, SameFields;
    FieldTextOn(a, r);
    FieldTextOn(b, q);
    Cancel("{", ElementOn(a, r), ElementOn(b, q));
    KeyTells(a, r);
    KeyTells(b, q);
    assert a.element.Some? == b.element.Some?;
    if a.element.Some? {
      var x, y := a.element.value, b.element.value;
      Cancel(ElementKey(), FieldText(x) + ("," + FieldsOn(a, r)), FieldText(y) + ("," + FieldsOn(b, q)));
      FieldDecodes(x, y, "," + FieldsOn(a, r), "," + FieldsOn(b, q));
      Cancel(",", FieldsOn(a, r), FieldsOn(b, q));
    }
    assert (|a.fields| > 0) == (|b.fields| > 0);
    if |a.fields| > 0 {
      var x, y := ArrayText(Sorted(a.fields)), ArrayText(Sorted(b.fields));
      Cancel(FieldsKey(), x + ("," + LastOn(a, r)), y + ("," + LastOn(b, q)));
      SortedDepth(a.fields);
      ArrayDecodes(Sorted(a.fields), Sorted(b.fields), "," + LastOn(a, r), "," + LastOn(b, q));
      Cancel(",", LastOn(a, r), LastOn(b, q));
      PairedIsSame(a.fields, b.fields);
    } else {
      NoFields(a.fields, b.fields);
    }
    LastDecodes(a, b, r, q);
    SameParts(a, b);
  }

  lemma {:induction false} ArrayDecodes(fs: seq<Field>, gs: seq<Field>, r: string, q: string)
    requires ArrayText(fs) + r == ArrayText(gs) + q
    ensures Paired(fs, gs) && r == q
    decreases MaxDepth(fs), |fs| + 2
  {
    hide ItemsText;
    assert ArrayText(fs) + r == "[" + (ItemsText(fs) + ("]" + r));
    assert ArrayText(gs) + q == "[" + (ItemsText(gs) + ("]" + q));
    Cancel("[", ItemsText(fs) + ("]" + r), ItemsText(gs) + ("]" + q));
    ItemsDecode(fs, gs, r, q);
  }

  function AfterItem(fs: seq<Field>, r: string): string
    requires |fs| > 0
  {
    if |fs| == 1 then "]" + r else "," + (ItemsText(fs[1..]) + ("]" + r))
  }

  lemma {:induction false} ItemsOn(fs: seq<Field>, r: string)
    ensures |fs| == 0 ==> ItemsText(fs) + ("]" + r) == "]" + r
    ensures |fs| > 0 ==> ItemsText(fs) + ("]" + r) == FieldText(fs[0]) + AfterItem(fs, r)
  {
    hide FieldText;
    if |fs| == 1 {
      assert ItemsText(fs) == FieldText(fs[0]);
    } else if |fs| > 1 {
      Assoc2(FieldText(fs[0]), ",", ItemsText(fs[1..]), "]" + r);
    }
  }

  // An array closes at once or goes on with a field.
  lemma {:induction false} ItemsFirst(fs: seq<Field>, r: string)
    ensures (ItemsText(fs) + ("]" + r))[0] == if |fs| == 0 then ']' else '{'
  {
    hide FieldText, ItemsText, AfterItem, ElementOn;
    ItemsOn(fs, r);
    if |fs| > 0 {
      FieldTextOn(fs[0], AfterItem(fs, r));
      assert ("{" + ElementOn(fs[0], AfterItem(fs, r)))[0] == '{';
    }
  }

  lemma {:induction false} ItemsDecode(fs: seq<Field>, gs: seq<Field>, r: string, q: string)
    requires ItemsText(fs) + ("]" + r) == ItemsText(gs) + ("]" + q)
    ensures Paired(fs, gs) && r == q
    decreases MaxDepth(fs), |fs| + 1
  {
    hide FieldText, Same;
    ItemsFirst(fs, r);
    ItemsFirst(gs, q);
    ItemsOn(fs, r);
    ItemsOn(gs, q);
    assert (|fs| == 0) == (|gs| == 0);
    if |fs| == 0 {
      Cancel("]", r, q);
    } else {
      DepthBound(fs, 0);
      FieldDecodes(fs[0], gs[0], AfterItem(fs, r), AfterItem(gs, q));
      assert AfterItem(fs, r)[0] == if |fs| == 1 then ']' else ',';
      assert AfterItem(gs, q)[0] == if |gs| == 1 then ']' else ',';
      if |fs| == 1 {
        Cancel("]", r, q);
      } else {
        Cancel(",", ItemsText(fs[1..]) + ("]" + r), ItemsText(gs[1..]) + ("]" + q));
        ItemsDecode(fs[1..], gs[1..], r, q);
        assert forall i :: 0 < i < |fs| ==> fs[i] == fs[1..][i - 1] && gs[i] == gs[1..][i - 1];
      }
    }
  }

  // Sorting loses no field and makes none up.
  lemma SortedHas(fs: seq<Field>, i: nat) returns (k: nat)
    requires i < |fs|
    ensures |Sorted(fs)| == |fs| && k < |fs| && Sorted(fs)[k] == fs[i]
  {
    assert |multiset(Sorted(fs))| == |multiset(fs)|;
    assert fs[i] in multiset(Sorted(fs));
    k :| 0 <= k < |Sorted(fs)| && Sorted(fs)[k] == fs[i];
  }

  lemma SortedFrom(fs: seq<Field>, k: nat) returns (i: nat)
    requires k < |Sorted(fs)|
    ensures |Sorted(fs)| == |fs| && i < |fs| && fs[i] == Sorted(fs)[k]
  {
    assert |multiset(Sorted(fs))| == |multiset(fs)|;
    assert Sorted(fs)[k] in multiset(fs);
    i :| 0 <= i < |fs| && fs[i] == Sorted(fs)[k];
  }

  function Without(fs: seq<Field>, k: nat): (r: seq<Field>)
    requires k < |fs|
    ensures multiset(fs) == multiset(r) + multiset{fs[k]}
  {
    assert fs == fs[..k] + ([fs[k]] + fs[k + 1..]);
    fs[..k] + fs[k + 1..]
  }

  lemma OneLess(a: multiset<Field>, b: multiset<Field>, f: Field)
    requires a + multiset{f} == b + multiset{f}
    ensures a == b
  {
    assert a == (a + multiset{f}) - multiset{f};
    assert b == (b + multiset{f}) - multiset{f};
  }

  // A pairing survives the reordering of one side, with the other side
  // reordered along.
  lemma {:induction false} PairingFollows(xs: seq<Field>, fs: seq<Field>, ys: seq<Field>) returns (hs: seq<Field>)
    requires Reordered(xs, fs) && Paired(xs, ys)
    ensures Reordered(hs, ys) && Paired(fs, hs)
    decreases |fs|
  {
    hide Same, Without;
    assert |multiset(xs)| == |multiset(fs)|;
    if |fs| == 0 {
      hs := [];
    } else {
      var k := FirstIsIn(xs, fs);
      WithoutPairs(xs, ys, k);
      var more := PairingFollows(Without(xs, k), fs[1..], Without(ys, k));
      hs := [ys[k]] + more;
      PutInFront(fs, more, ys, k);
    }
  }

  lemma FirstIsIn(xs: seq<Field>, fs: seq<Field>) returns (k: nat)
    requires Reordered(xs, fs) && |fs| > 0
    ensures k < |xs| && xs[k] == fs[0] && Reordered(Without(xs, k), fs[1..])
  {
    assert fs == [fs[0]] + fs[1..];
    assert fs[0] in multiset(xs);
    k :| 0 <= k < |xs| && xs[k] == fs[0];
    OneLess(multiset(Without(xs, k)), multiset(fs[1..]), fs[0]);
  }

  lemma WithoutPairs(xs: seq<Field>, ys: seq<Field>, k: nat)
    requires Paired(xs, ys) && k < |xs|
    ensures Paired(Without(xs, k), Without(ys, k)) && Same(xs[k], ys[k])
  {
    hide Same;
  }

  lemma PutInFront(fs: seq<Field>, more: seq<Field>, ys: seq<Field>, k: nat)
    requires |fs| > 0 && k < |ys| && Same(fs[0], ys[k])
    requires Paired(fs[1..], more) && Reordered(more, Without(ys, k))
    ensures Reordered([ys[k]] + more, ys) && Paired(fs, [ys[k]] + more)
  {
    hide Same;
    var hs := [ys[k]] + more;
    forall i | 0 <= i < |fs| ensures Same(fs[i], hs[i]) {
      if i > 0 { assert fs[i] == fs[1..][i - 1] && hs[i] == more[i - 1]; }
    }
  }

  // Pairing the sorted fields pairs the fields.
  lemma {:induction false} PairedIsSame(fs: seq<Field>, gs: seq<Field>)
    requires Paired(Sorted(fs), Sorted(gs))
    ensures SameFields(fs, gs)
  {
    hide Same, Sorted, Paired;
    var hs := PairingFollows(Sorted(fs), fs, Sorted(gs));
  }

  // ---- Equal types are written alike ------------------------------------

  predicate HasName(fs: seq<Field>, name: string) { exists j :: 0 <= j < |fs| && fs[j].name == name }

  ghost predicate NamesIn(fs: seq<Field>, gs: seq<Field>) {
    forall i :: 0 <= i < |fs| ==> HasName(gs, fs[i].name)
  }

  lemma NameAt(fs: seq<Field>, gs: seq<Field>, i: nat) returns (j: nat)
    requires NamesIn(fs, gs) && i < |fs|
    ensures j < |gs| && fs[i].name == gs[j].name
  {
    assert HasName(gs, fs[i].name);
    j :| 0 <= j < |gs| && gs[j].name == fs[i].name;
  }

  lemma {:induction false} Partner(fs: seq<Field>, gs: seq<Field>, i: nat) returns (j: nat)
    requires SameFields(fs, gs) && i < |fs|
    ensures |fs| == |gs| && j < |gs| && Same(fs[i], gs[j]) && fs[i].name == gs[j].name
  {
    var hs :| Reordered(hs, gs) && Paired(fs, hs);
    assert |multiset(hs)| == |multiset(gs)| && hs[i] in multiset(gs);
    j :| 0 <= j < |gs| && gs[j] == hs[i];
  }

  lemma {:induction false} PartnerBack(fs: seq<Field>, gs: seq<Field>, j: nat) returns (i: nat)
    requires SameFields(fs, gs) && j < |gs|
    ensures |fs| == |gs| && i < |fs| && Same(fs[i], gs[j]) && fs[i].name == gs[j].name
  {
    var hs :| Reordered(hs, gs) && Paired(fs, hs);
    assert |multiset(hs)| == |multiset(gs)| && gs[j] in multiset(hs);
    i :| 0 <= i < |hs| && hs[i] == gs[j];
  }

  // In ascending lists a name cannot come earlier than its rank.
  lemma {:induction false} RankIsLeast(fs: seq<Field>, gs: seq<Field>, i: nat, j: nat)
    requires Ascending(fs) && Ascending(gs) && NamesIn(fs, gs)
    requires i < |fs| && j < |gs| && fs[i].name == gs[j].name
    ensures i <= j
    decreases i
  {
    hide NamesIn;
    if i > 0 {
      var k := NameAt(fs, gs, i - 1);
      RankIsLeast(fs, gs, i - 1, k);
      LessTotal(gs[k].name, gs[j].name);
      assert Less(fs[i - 1].name, fs[i].name);
    }
  }

  lemma SameNames(fs: seq<Field>, gs: seq<Field>, k: nat)
    requires Ascending(fs) && Ascending(gs) && NamesIn(fs, gs) && NamesIn(gs, fs) && |fs| == |gs| && k < |fs|
    ensures fs[k].name == gs[k].name
  {
    hide NamesIn;
    var j := NameAt(fs, gs, k);
    var i := NameAt(gs, fs, k);
    RankIsLeast(fs, gs, k, j);
    RankIsLeast(gs, fs, k, i);
    LessTotal(fs[k].name, gs[k].name);
  }

  lemma {:induction false} SortedNames(fs: seq<Field>, gs: seq<Field>)
    requires SameFields(fs, gs)
    ensures NamesIn(Sorted(fs), Sorted(gs)) && |Sorted(fs)| == |Sorted(gs)| == |fs| == |gs|
  {
    hide Sorted, SameFields, Same;
    assert |multiset(Sorted(fs))| == |multiset(fs)| && |multiset(Sorted(gs))| == |multiset(gs)|;
    forall k | 0 <= k < |Sorted(fs)| ensures HasName(Sorted(gs), Sorted(fs)[k].name) {
      var i := SortedFrom(fs, k);
      var j := Partner(fs, gs, i);
      var m := SortedHas(gs, j);
    }
    assert |fs| == |gs| by { SameLength(fs, gs); }
  }

  lemma SameLength(fs: seq<Field>, gs: seq<Field>)
    requires SameFields(fs, gs)
    ensures |fs| == |gs|
  {
    hide Same;
    var hs :| Reordered(hs, gs) && Paired(fs, hs);
    assert |multiset(hs)| == |multiset(gs)|;
  }

  lemma {:induction false} SortedNamesBack(fs: seq<Field>, gs: seq<Field>)
    requires SameFields(fs, gs)
    ensures NamesIn(Sorted(gs), Sorted(fs))
  {
    hide Sorted, SameFields, Same;
    forall k | 0 <= k < |Sorted(gs)| ensures HasName(Sorted(fs), Sorted(gs)[k].name) {
      var j := SortedFrom(gs, k);
      var i := PartnerBack(fs, gs, j);
      var m := SortedHas(fs, i);
    }
  }

  lemma {:induction false} SamePairs(fs: seq<Field>, gs: seq<Field>, k: nat)
    requires SameFields(fs, gs) && Distinct(fs) && Distinct(gs) && k < |fs|
    ensures |Sorted(fs)| == |Sorted(gs)| == |fs| && Same(Sorted(fs)[k], Sorted(gs)[k])
  {
    hide Sorted, SameFields, Same, NamesIn, Distinct;
    SortedNames(fs, gs);
    SortedNamesBack(fs, gs);
    SortedAscends(fs);
    SortedAscends(gs);
    SameNames(Sorted(fs), Sorted(gs), k);
    var i := SortedFrom(fs, k);
    var j := Partner(fs, gs, i);
    var m := SortedHas(gs, j);
    NamesAreApart(Sorted(gs), m, k);
  }

  lemma NamesAreApart(fs: seq<Field>, i: nat, j: nat)
    requires Ascending(fs) && i < |fs| && j < |fs| && fs[i].name == fs[j].name
    ensures i == j
  {
    LessTotal(fs[i].name, fs[i].name);
    AscendsAt(fs, i, j);
    AscendsAt(fs, j, i);
  }

  lemma AscendsAt(fs: seq<Field>, i: nat, j: nat)
    requires Ascending(fs) && i < |fs| && j < |fs|
    ensures i < j ==> Less(fs[i].name, fs[j].name)
  {}

  lemma {:induction false} ItemsAlike(fs: seq<Field>, gs: seq<Field>)
    requires |fs| == |gs| && forall i :: 0 <= i < |fs| ==> FieldText(fs[i]) == FieldText(gs[i])
    ensures ItemsText(fs) == ItemsText(gs)
    decreases |fs|
  {
    hide FieldText;
    if |fs| > 1 {
      assert forall i :: 0 <= i < |fs| - 1 ==> fs[1..][i] == fs[i + 1] && gs[1..][i] == gs[i + 1];
      ItemsAlike(fs[1..], gs[1..]);
    }
  }

  lemma {:induction false} SameIsWrittenAlike(a: Field, b: Field)
    requires Same(a, b) && Unique(a) && Unique(b)
    ensures FieldText(a) == FieldText(b)
    decreases Depth(a), 0
  {
    hide LastPart, Sorted, ArrayText, SameFields, AllUnique;
    if a.element.Some? { SameIsWrittenAlike(a.element.value, b.element.value); }
    FieldsAreWrittenAlike(a.fields, b.fields);
    SameLast(a, b);
  }

  lemma SameLast(a: Field, b: Field)
    requires a.name == b.name && a.kind == b.kind && a.optional == b.optional
    ensures LastPart(a) == LastPart(b)
  {}

  lemma UniqueAt(fs: seq<Field>, i: nat)
    requires AllUnique(fs) && i < |fs|
    ensures Distinct(fs) && Unique(fs[i])
  {}

  lemma {:induction false} FieldsAreWrittenAlike(fs: seq<Field>, gs: seq<Field>)
    requires SameFields(fs, gs) && AllUnique(fs) && AllUnique(gs)
    ensures |fs| == |gs| && ArrayText(Sorted(fs)) == ArrayText(Sorted(gs))
    decreases MaxDepth(fs), 1
  {
    hide FieldText, Same, Sorted, Unique, AllUnique, SameFields, Distinct, NamesIn;
    SortedNames(fs, gs);
    forall k | 0 <= k < |fs| ensures FieldText(Sorted(fs)[k]) == FieldText(Sorted(gs)[k]) {
      var i := SortedFrom(fs, k);
      var j := SortedFrom(gs, k);
      UniqueAt(fs, i);
      UniqueAt(gs, j);
      SamePairs(fs, gs, k);
      DepthBound(fs, i);
      SameIsWrittenAlike(Sorted(fs)[k], Sorted(gs)[k]);
    }
    ItemsAlike(Sorted(fs), Sorted(gs));
  }

  /** The canonical text is the type up to the order of its fields: with names
      unique within each parent, two descriptors are written alike exactly when
      they are equal up to reordering at every level. */
  lemma CanonicalJsonIsIdentity(a: Descriptor, b: Descriptor)
    requires AllUnique(a.fields) && AllUnique(b.fields)
    ensures CanonicalJson(a) == CanonicalJson(b) <==> SameDescriptor(a, b)
  {
    hide Same, Sorted, ArrayText, AllUnique;
    if SameDescriptor(a, b) { FieldsAreWrittenAlike(a.fields, b.fields); }
    if CanonicalJson(a) == CanonicalJson(b) { JsonDecodes(a, b); }
  }

  // Even without unique names, only types equal up to reordering are written
  // alike.
  lemma JsonDecodes(a: Descriptor, b: Descriptor)
    requires CanonicalJson(a) == CanonicalJson(b)
    ensures SameDescriptor(a, b)
  {
    hide Same, Sorted, ArrayText, Quoted, Decimal;
    var x2, y2 := Decimal(a.version) + "}", Decimal(b.version) + "}";
    var x1, y1 := Quoted(a.name) + (VersionKey() + x2), Quoted(b.name) + (VersionKey() + y2);
    var x0, y0 := ArrayText(Sorted(a.fields)) + (NameKey() + x1), ArrayText(Sorted(b.fields)) + (NameKey() + y1);
    Cancel(TopKey(), x0, y0);
    ArrayDecodes(Sorted(a.fields), Sorted(b.fields), NameKey() + x1, NameKey() + y1);
    PairedIsSame(a.fields, b.fields);
    Cancel(NameKey(), x1, y1);
    QuotedDecodes(a.name, b.name, VersionKey() + x2, VersionKey() + y2);
    Cancel(VersionKey(), x2, y2);
    DecimalDecodes(a.version, b.version, "}", "}");
  }

  lemma EscapedStep(s: string, i: nat)
    requires i < |s|
    ensures Escaped(s[i..]) == Escape(s[i]) + Escaped(s[i + 1..])
  {
    assert s[i..][1..] == s[i + 1..];
  }

  lemma EscapedNothing(s: string, before: string)
    requires |s| == 0
    ensures before + Escaped(s) == before
  {}

  // ---- The writer -------------------------------------------------------

  /** The string the append functions extend. */
  class JsonWriter {
    var out: string

    constructor ()
      ensures out == ""
    {
      out := "";
    }

    method AppendString(s: string)
      modifies this
      ensures out == old(out) + Quoted(s)
    {
      hide Escape, Escaped;
      ghost var was, all := out, Escaped(s);
      out := out + "\"";
      Assoc(was, "\"", all);
      assert s[0..] == s;
      for i := 0 to |s|
        invariant out + Escaped(s[i..]) == was + ("\"" + all)
      {
        EscapedStep(s, i);
        Assoc(out, Escape(s[i]), Escaped(s[i + 1..]));
        out := out + Escape(s[i]);
      }
      EscapedNothing(s[|s|..], out);
      out := out + "\"";
      Assoc(was, "\"" + all, "\"");
    }

    method AppendField(f: Field)
      modifies this
      ensures out == old(out) + FieldText(f)
      decreases Depth(f), 0
    {
      hide FieldText, ArrayText, Sorted, LastPart, ElementKey, FieldsKey;
      ghost var was := out;
      out := out + "{";
      var first := true;
      if f.element.Some? {
        out := out + ElementKey();
        AppendField(f.element.value);
        first := false;
      }
      ghost var withElement := out;
      assert withElement == was + ("{" + ElementPart(f));
      if |f.fields| > 0 {
        if !first { out := out + ","; }
        first := false;
        out := out + FieldsKey();
        AppendFieldArray(f.fields);
      }
      assert out == was + ("{" + ElementPart(f) + FieldsPart(f));
      if !first { out := out + ","; }
      AppendLast(f);
      TextInParts(f);
    }

    method AppendLast(f: Field)
      modifies this
      ensures out == old(out) + LastPart(f)
    {
      hide Quoted, KindText, BoolText, KindKey, NameKey, OptionalKey;
      ghost var was := out;
      out := out + KindKey();
      AppendString(KindText(f.kind));
      out := out + NameKey();
      AppendString(f.name);
      out := out + OptionalKey();
      out := out + BoolText(f.optional);
      var kind, name, last := Quoted(KindText(f.kind)), Quoted(f.name), BoolText(f.optional);
      Chain(was, KindKey(), kind, NameKey(), name, OptionalKey(), last + "}");
      Assoc(was + KindKey() + kind + NameKey() + name + OptionalKey(), last, "}");
      out := out + "}";
    }

    method AppendFieldArray(fields: seq<Field>)
      modifies this
      ensures out == old(out) + ArrayText(Sorted(fields))
      decreases MaxDepth(fields), 1
    {
      hide FieldText, Sorted;
      ghost var was := out;
      out := out + "[";
      var sorted := Sorted(fields);
      assert sorted[0..] == sorted;
      Assoc(was, "[", ItemsText(sorted));
      SortedDepth(fields);
      for i := 0 to |sorted|
        invariant out + ItemsFrom(sorted, i) == was + ("[" + ItemsText(sorted))
      {
        ItemsStep(sorted, i);
        ghost var before := out;
        if i > 0 { out := out + ","; }
        DepthBound(sorted, i);
        AppendField(sorted[i]);
        assert out == before + ((if i > 0 then "," else "") + FieldText(sorted[i]));
        Assoc(before, (if i > 0 then "," else "") + FieldText(sorted[i]), ItemsFrom(sorted, i + 1));
      }
      assert out + "" == out;
      Assoc2(was, "[", ItemsText(sorted), "]");
      out := out + "]";
    }

    method WriteCanonicalJson(td: Descriptor)
      requires out == ""
      modifies this
      ensures out == CanonicalJson(td)
    {
      hide ArrayText, Sorted, Quoted, Decimal, TopKey, NameKey, VersionKey;
      out := TopKey();
      AppendFieldArray(td.fields);
      out := out + NameKey();
      AppendString(td.name);
      out := out + VersionKey();
      out := out + Decimal(td.version);
      var fields, name, last := ArrayText(Sorted(td.fields)), Quoted(td.name), Decimal(td.version);
      Chain("", TopKey(), fields, NameKey(), name, VersionKey(), last + "}");
      Assoc(TopKey() + fields + NameKey() + name + VersionKey(), last, "}");
      assert "" + TopKey() == TopKey();
      out := out + "}";
    }
  }

  lemma Chain(w: string, a: string, b: string, c: string, d: string, e: string, f: string)
    ensures w + a + b + c + d + e + f == w + (a + (b + (c + (d + (e + f)))))
  {}

  // What the array still lacks before item i.
  function ItemsFrom(fs: seq<Field>, i: nat): string
    requires i <= |fs|
  {
    if i == |fs| then "" else (if i > 0 then "," else "") + ItemsText(fs[i..])
  }

  lemma ItemsStep(fs: seq<Field>, i: nat)
    requires i < |fs|
    ensures ItemsFrom(fs, i) == (if i > 0 then "," else "") + FieldText(fs[i]) + ItemsFrom(fs, i + 1)
  {
    hide FieldText;
    assert fs[i..][0] == fs[i] && fs[i..][1..] == fs[i + 1..];
  }

  function ElementPart(f: Field): string {
    if f.element.Some? then ElementKey() + FieldText(f.element.value) else ""
  }

  function FieldsPart(f: Field): string {
    if |f.fields| > 0 then (if f.element.Some? then "," else "") + FieldsKey() + ArrayText(Sorted(f.fields)) else ""
  }

  lemma TextInParts(f: Field)
    ensures FieldText(f) == "{" + ElementPart(f) + FieldsPart(f)
                            + (if f.element.Some? || |f.fields| > 0 then "," else "") + LastPart(f)
  {
    hide ArrayText, Sorted, LastPart;
  }
}
