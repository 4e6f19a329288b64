/// IDL module trees and the generator's name lookup (include/dds/idl/idl.hpp,
/// src/idl/gen.cpp).

module Idl {
  import opened Octets
  import opened Cdr

  datatype TypeSpec =
    | Primitive(p: Prim)
    | Sequence(elem: Option<TypeSpec>)
    | Array(elem: Option<TypeSpec>, size: nat)
    | Named(name: string, isEnum: bool)    // a struct, enum or typedef, maybe Module::Name

  datatype Field = Field(name: string, typ: TypeSpec, key: bool)
  datatype Struct = Struct(name: string, fields: seq<Field>)
  datatype Enum = Enum(name: string, values: seq<string>)
  datatype Typedef = Typedef(name: string, typ: TypeSpec)
  datatype Module = Module(name: string, typedefs: seq<Typedef>, enums: seq<Enum>,
                           structs: seq<Struct>, modules: seq<Module>)

  // ---- Names ------------------------------------------------------------

  // Where the first "::" is.
  function FindSep(s: string): (r: Option<nat>)
    ensures r.Some? ==> r.value + 2 <= |s|
  {
    if |s| < 2 then None
    else if s[0] == ':' && s[1] == ':' then Some(0)
    else match FindSep(s[1..]) case None => None case Some(i) => Some(i + 1)
  }

  // What follows the last "::".
  function Bare(s: string): string {
    if |s| < 2 then s
    else
      var tail := Bare(s[1..]);
      if |tail| < |s| - 1 then tail
      else if s[0] == ':' && s[1] == ':' then s[2..]
      else s
  }

  // ---- Lookup -----------------------------------------------------------

  datatype Kind = StructKind | EnumKind | TypedefKind
  datatype Decl = StructDecl(s: Struct) | EnumDecl(e: Enum) | TypedefDecl(t: Typedef)

  function DeclName(d: Decl): string {
    match d case StructDecl(s) => s.name case EnumDecl(e) => e.name case TypedefDecl(t) => t.name
  }

  predicate IsKind(d: Decl, k: Kind) {
    match k case StructKind => d.StructDecl? case EnumKind => d.EnumDecl? case TypedefKind => d.TypedefDecl?
  }

  function Decls(m: Module, k: Kind): (ds: seq<Decl>)
    ensures forall d :: d in ds ==> IsKind(d, k)
  {
    match k
    case StructKind => seq(|m.structs|, i requires 0 <= i < |m.structs| => StructDecl(m.structs[i]))
    case EnumKind => seq(|m.enums|, i requires 0 <= i < |m.enums| => EnumDecl(m.enums[i]))
    case TypedefKind => seq(|m.typedefs|, i requires 0 <= i < |m.typedefs| => TypedefDecl(m.typedefs[i]))
  }

  function FirstNamed(ds: seq<Decl>, name: string): (r: Option<Decl>)
    ensures r.Some? ==> r.value in ds
  {
    if |ds| == 0 then None
    else if DeclName(ds[0]) == name then Some(ds[0])
    else FirstNamed(ds[1..], name)
  }

  // A qualified name is followed module by module; a bare one is taken from
  // anywhere in the tree, outermost first.
  function Search(m: Module, k: Kind, name: string): (r: Option<Decl>)
    ensures r.Some? ==> IsKind(r.value, k)
    decreases m, 1
  {
    match FindSep(name)
    case Some(i) => InNamed(m.modules, k, name[..i], name[i + 2..])
    case None =>
      var d := FirstNamed(Decls(m, k), name);
      if d.Some? then d else InAny(m.modules, k, name)
  }

  function InNamed(ms: seq<Module>, k: Kind, mod: string, rest: string): (r: Option<Decl>)
    ensures r.Some? ==> IsKind(r.value, k)
    decreases ms, 0
  {
    if |ms| == 0 then None
    else if ms[0].name == mod then Search(ms[0], k, rest)
    else InNamed(ms[1..], k, mod, rest)
  }

  function InAny(ms: seq<Module>, k: Kind, name: string): (r: Option<Decl>)
    ensures r.Some? ==> IsKind(r.value, k)
    decreases ms, 0
  {
    if |ms| == 0 then None
    else
      var d := Search(ms[0], k, name);
      if d.Some? then d else InAny(ms[1..], k, name)
  }

  function FindStruct(m: Module, name: string): Option<Struct> {
    match Search(m, StructKind, name) case None => None case Some(d) => Some(d.s)
  }

  predicate IsEnum(m: Module, name: string) { Search(m, EnumKind, name).Some? }

  function FindTypedef(m: Module, name: string): Option<TypeSpec> {
    match Search(m, TypedefKind, name) case None => None case Some(d) => Some(d.t.typ)
  }

  // One level of typedef expansion.
  function Resolve(m: Module, ts: TypeSpec): TypeSpec {
    if ts.Named? && !ts.isEnum then
      match FindTypedef(m, Bare(ts.name)) case None => ts case Some(t) => t
    else ts
  }

  // ---- What lookup finds ------------------------------------------------

  // The declarations of a tree, a module's own before those of its submodules.
  function TreeDecls(m: Module, k: Kind): seq<Decl>
    decreases m, 1
  {
    Decls(m, k) + ListDecls(m.modules, k)
  }

  function ListDecls(ms: seq<Module>, k: Kind): seq<Decl>
    decreases ms, 0
  {
    if |ms| == 0 then [] else TreeDecls(ms[0], k) + ListDecls(ms[1..], k)
  }

  // The first of this name stands at i.
  predicate IsFirstNamed(ds: seq<Decl>, name: string, i: int) {
    0 <= i < |ds| && DeclName(ds[i]) == name && forall j :: 0 <= j < i ==> DeclName(ds[j]) != name
  }

  lemma {:induction false} FirstNamedIsFirst(ds: seq<Decl>, name: string)
    ensures FirstNamed(ds, name).None? ==> forall i :: 0 <= i < |ds| ==> DeclName(ds[i]) != name
    ensures FirstNamed(ds, name).Some? ==> exists i :: IsFirstNamed(ds, name, i) && ds[i] == FirstNamed(ds, name).value
    decreases |ds|
  {
    if |ds| > 0 {
      if DeclName(ds[0]) == name {
        assert IsFirstNamed(ds, name, 0);
      } else {
        FirstNamedIsFirst(ds[1..], name);
        assert forall j :: 1 <= j < |ds| ==> ds[j] == ds[1..][j - 1];
        if i :| IsFirstNamed(ds[1..], name, i) && ds[1..][i] == FirstNamed(ds, name).value {
          assert IsFirstNamed(ds, name, i + 1);
        }
      }
    }
  }

  lemma {:induction false} FirstNamedOfBoth(a: seq<Decl>, b: seq<Decl>, name: string)
    ensures FirstNamed(a + b, name) == if FirstNamed(a, name).Some? then FirstNamed(a, name) else FirstNamed(b, name)
    decreases |a|
  {
    if |a| == 0 { assert a + b == b; } else {
      assert (a + b)[1..] == a[1..] + b;
      FirstNamedOfBoth(a[1..], b, name);
    }
  }

  lemma {:induction false} SearchIsFirstNamed(m: Module, k: Kind, name: string)
    requires FindSep(name).None?
    ensures Search(m, k, name) == FirstNamed(TreeDecls(m, k), name)
    decreases m, 1
  {
    hide FirstNamed, Decls;
    InAnyIsFirstNamed(m.modules, k, name);
    FirstNamedOfBoth(Decls(m, k), ListDecls(m.modules, k), name);
  }

  lemma {:induction false} InAnyIsFirstNamed(ms: seq<Module>, k: Kind, name: string)
    requires FindSep(name).None?
    ensures InAny(ms, k, name) == FirstNamed(ListDecls(ms, k), name)
    decreases ms, 0
  {
    if |ms| > 0 {
      SearchIsFirstNamed(ms[0], k, name);
      InAnyIsFirstNamed(ms[1..], k, name);
      FirstNamedOfBoth(TreeDecls(ms[0], k), ListDecls(ms[1..], k), name);
    }
  }

  /** A name without "::" finds the first declaration of that name and kind in
      the tree, a module's own before those of its submodules. */
  lemma {:induction false} BareNameFindsFirst(m: Module, k: Kind, name: string)
    requires FindSep(name).None?
    ensures var ds, r := TreeDecls(m, k), Search(m, k, name);
      && (r.None? ==> forall i :: 0 <= i < |ds| ==> DeclName(ds[i]) != name)
      && (r.Some? ==> exists i :: IsFirstNamed(ds, name, i) && ds[i] == r.value)
  {
    hide *;
    SearchIsFirstNamed(m, k, name);
    FirstNamedIsFirst(TreeDecls(m, k), name);
  }

  predicate IsFirstModule(ms: seq<Module>, name: string, i: int) {
    0 <= i < |ms| && ms[i].name == name && forall j :: 0 <= j < i ==> ms[j].name != name
  }

  /** A name a::rest looks for rest in the first submodule called a, and nowhere
      else. */
  lemma {:induction false} QualifiedNameIsFollowed(m: Module, k: Kind, a: string, rest: string)
    requires FindSep(a).None? && (|a| > 0 ==> a[|a| - 1] != ':')
    ensures var r := Search(m, k, a + "::" + rest);
      && (forall i :: IsFirstModule(m.modules, a, i) ==> r == Search(m.modules[i], k, rest))
      && ((forall i :: 0 <= i < |m.modules| ==> m.modules[i].name != a) ==> r.None?)
  {
    var name := a + "::" + rest;
    SepAfter(a, rest);
    assert name[..|a|] == a && name[|a| + 2..] == rest;
    InNamedIsFirst(m.modules, k, a, rest);
  }

  lemma {:induction false} SepAfter(a: string, rest: string)
    requires FindSep(a).None? && (|a| > 0 ==> a[|a| - 1] != ':')
    ensures FindSep(a + "::" + rest) == Some(|a|)
    decreases |a|
  {
    var s := a + "::" + rest;
    if |a| > 0 {
      assert s[1..] == a[1..] + "::" + rest;
      SepAfter(a[1..], rest);
    }
  }

  lemma {:induction false} InNamedIsFirst(ms: seq<Module>, k: Kind, a: string, rest: string)
    ensures forall i :: IsFirstModule(ms, a, i) ==> InNamed(ms, k, a, rest) == Search(ms[i], k, rest)
    ensures (forall i :: 0 <= i < |ms| ==> ms[i].name != a) ==> InNamed(ms, k, a, rest).None?
    decreases |ms|
  {
    hide Search;
    if |ms| > 0 && ms[0].name != a {
      var more := ms[1..];
      InNamedIsFirst(more, k, a, rest);
      assert forall j :: 0 <= j < |more| ==> more[j] == ms[j + 1];
      forall i | IsFirstModule(ms, a, i) ensures IsFirstModule(more, a, i - 1) && ms[i] == more[i - 1] {}
    }
  }

  /** The bare name is what follows the last "::". */
  lemma {:induction false} BareIsLastPart(pre: string, b: string)
    requires FindSep(b).None? && (|b| > 0 ==> b[0] != ':')
    ensures Bare(b) == b && Bare(pre + "::" + b) == b
    decreases |pre|
  {
    NoSepIsBare(b);
    var s := pre + "::" + b;
    if |pre| > 0 {
      assert s[1..] == pre[1..] + "::" + b;
      BareIsLastPart(pre[1..], b);
    } else {
      assert s[1..] == ":" + b && s[1..][1..] == b && s[2..] == b;
      assert |b| > 0 ==> Bare(s[1..]) == s[1..];
    }
  }

  lemma {:induction false} NoSepIsBare(b: string)
    requires FindSep(b).None?
    ensures Bare(b) == b
    decreases |b|
  {
    if |b| >= 2 { NoSepIsBare(b[1..]); }
  }

  // ---- What bounds the generator's recursion ----------------------------

  // The one name a type mentions, without its qualification.
  function Leaf(ts: TypeSpec): Option<string> {
    match ts
    case Primitive(_) => None
    case Sequence(None) => None
    case Sequence(Some(e)) => Leaf(e)
    case Array(None, _) => None
    case Array(Some(e), _) => Leaf(e)
    case Named(name, _) => Some(Bare(name))
  }

  function Depth(ts: TypeSpec): nat {
    match ts
    case Sequence(Some(e)) => Depth(e) + 1
    case Array(Some(e), _) => Depth(e) + 1
    case _ => 0
  }

  function LeafSet(ts: TypeSpec): set<string> {
    match Leaf(ts) case None => {} case Some(b) => {b}
  }

  function FieldLeaves(fs: seq<Field>): set<string> {
    if |fs| == 0 then {} else LeafSet(fs[0].typ) + FieldLeaves(fs[1..])
  }

  function DeclLeaves(d: Decl): set<string> {
    match d
    case StructDecl(s) => FieldLeaves(s.fields)
    case EnumDecl(_) => {}
    case TypedefDecl(t) => LeafSet(t.typ)
  }

  function LeavesOf(ds: seq<Decl>): set<string> {
    if |ds| == 0 then {} else DeclLeaves(ds[0]) + LeavesOf(ds[1..])
  }

  // Every name mentioned anywhere in the tree.
  function Leaves(m: Module): set<string>
    decreases m, 1
  {
    LeavesOf(Decls(m, StructKind)) + LeavesOf(Decls(m, TypedefKind)) + LeavesIn(m.modules)
  }

  function LeavesIn(ms: seq<Module>): set<string>
    decreases ms, 0
  {
    if |ms| == 0 then {} else Leaves(ms[0]) + LeavesIn(ms[1..])
  }

  lemma {:induction false} LeavesOfCover(ds: seq<Decl>, d: Decl)
    requires d in ds
    ensures DeclLeaves(d) <= LeavesOf(ds)
  {
    if d != ds[0] { LeavesOfCover(ds[1..], d); }
  }

  lemma {:induction false} SearchStaysInTree(m: Module, k: Kind, name: string)
    requires !k.EnumKind?
    ensures Search(m, k, name).Some? ==> DeclLeaves(Search(m, k, name).value) <= Leaves(m)
    decreases m, 1
  {
    var r := Search(m, k, name);
    match FindSep(name)
    case Some(i) => InNamedStaysInTree(m.modules, k, name[..i], name[i + 2..]);
    case None =>
      var d := FirstNamed(Decls(m, k), name);
      if d.Some? { LeavesOfCover(Decls(m, k), d.value); }
      else { InAnyStaysInTree(m.modules, k, name); }
  }

  lemma {:induction false} InNamedStaysInTree(ms: seq<Module>, k: Kind, mod: string, rest: string)
    requires !k.EnumKind?
    ensures InNamed(ms, k, mod, rest).Some? ==> DeclLeaves(InNamed(ms, k, mod, rest).value) <= LeavesIn(ms)
    decreases ms, 0
  {
    if |ms| > 0 {
      if ms[0].name == mod { SearchStaysInTree(ms[0], k, rest); }
      else { InNamedStaysInTree(ms[1..], k, mod, rest); }
    }
  }

  lemma {:induction false} InAnyStaysInTree(ms: seq<Module>, k: Kind, name: string)
    requires !k.EnumKind?
    ensures InAny(ms, k, name).Some? ==> DeclLeaves(InAny(ms, k, name).value) <= LeavesIn(ms)
    decreases ms, 0
  {
    if |ms| > 0 {
      SearchStaysInTree(ms[0], k, name);
      if Search(ms[0], k, name).None? { InAnyStaysInTree(ms[1..], k, name); }
    }
  }

  lemma {:induction false} FieldLeavesCover(fs: seq<Field>, f: Field)
    requires f in fs
    ensures LeafSet(f.typ) <= FieldLeaves(fs)
  {
    if f != fs[0] { FieldLeavesCover(fs[1..], f); }
  }

  // How many typedefs deep a type is, given the height of each typedef name.
  function RankOf(m: Module, rank: string -> nat, ts: TypeSpec): nat {
    match Leaf(ts)
    case None => 0
    case Some(b) => if FindTypedef(m, b).Some? then rank(b) + 1 else 0
  }

  /** No typedef mentions itself, directly or through other typedefs. */
  ghost predicate Acyclic(m: Module, rank: string -> nat) {
    forall b :: FindTypedef(m, b).Some? ==> RankOf(m, rank, FindTypedef(m, b).value) <= rank(b)
  }

  ghost predicate Mentions(m: Module, ts: TypeSpec) { LeafSet(ts) <= Leaves(m) }

  lemma ResolveStaysInTree(m: Module, ts: TypeSpec)
    requires Mentions(m, ts)
    ensures Mentions(m, Resolve(m, ts))
  {
    if ts.Named? && !ts.isEnum { SearchStaysInTree(m, TypedefKind, Bare(ts.name)); }
  }

  lemma StructStaysInTree(m: Module, name: string)
    requires FindStruct(m, name).Some?
    ensures forall f :: f in FindStruct(m, name).value.fields ==> Mentions(m, f.typ)
  {
    SearchStaysInTree(m, StructKind, name);
    var s := FindStruct(m, name).value;
    forall f | f in s.fields ensures Mentions(m, f.typ) {
      FieldLeavesCover(s.fields, f);
    }
  }

  // The element of a resolved type is fewer typedefs deep, or as deep and
  // smaller.
  lemma ElementIsSmaller(m: Module, rank: string -> nat, ts: TypeSpec, e: TypeSpec)
    requires Acyclic(m, rank)
    requires Resolve(m, ts) == Sequence(Some(e)) || exists n: nat :: Resolve(m, ts) == Array(Some(e), n)
    ensures RankOf(m, rank, e) < RankOf(m, rank, ts)
            || (RankOf(m, rank, e) == RankOf(m, rank, ts) && Depth(e) < Depth(ts))
  {
    if ts.Named? {
      assert FindTypedef(m, Bare(ts.name)).Some?;
    }
  }

  // ---- Paths of types ---------------------------------------------------

  // The bare name of the struct a type stands for.
  function StructAt(m: Module, ts: TypeSpec): Option<string> {
    match Resolve(m, ts)
    case Named(name, _) => if !IsEnum(m, name) && FindStruct(m, name).Some? then Some(Bare(name)) else None
    case _ => None
  }

  // A sequence or array without element, or a name of neither enum nor struct.
  predicate IsDeadEnd(m: Module, ts: TypeSpec) {
    match Resolve(m, ts)
    case Sequence(e) => e.None?
    case Array(e, _) => e.None?
    case Named(name, _) => !IsEnum(m, name) && FindStruct(m, name).None?
    case _ => false
  }

  /** From a sequence or array to its element, through a typedef, and from a
      struct to the type of a field. */
  ghost predicate LeadsTo(m: Module, a: TypeSpec, b: TypeSpec) {
    match Resolve(m, a)
    case Sequence(e) => e == Some(b)
    case Array(e, _) => e == Some(b)
    case Named(name, _) => StructAt(m, a).Some? && exists f :: f in FindStruct(m, name).value.fields && f.typ == b
    case _ => false
  }

  ghost predicate IsPath(m: Module, p: seq<TypeSpec>) {
    |p| > 0 && forall i :: 0 <= i < |p| - 1 ==> LeadsTo(m, p[i], p[i + 1])
  }

  predicate WentThrough(m: Module, p: seq<TypeSpec>, bare: string) {
    exists i :: 0 <= i < |p| - 1 && StructAt(m, p[i]) == Some(bare)
  }

  // The path ends in a dead end, in a struct named in `visited`, or in one with
  // the bare name of a struct it went through.
  predicate IsBlocked(m: Module, p: seq<TypeSpec>, visited: set<string>)
    requires |p| > 0
  {
    var last := p[|p| - 1];
    || IsDeadEnd(m, last)
    || (StructAt(m, last).Some?
        && (StructAt(m, last).value in visited || WentThrough(m, p, StructAt(m, last).value)))
  }

  /** No path from this type is blocked. */
  ghost predicate IsClear(m: Module, ts: TypeSpec, visited: set<string>) {
    forall p :: IsPath(m, p) && p[0] == ts ==> !IsBlocked(m, p, visited)
  }

  function Entered(m: Module, ts: TypeSpec): set<string> {
    match StructAt(m, ts) case None => {} case Some(b) => {b}
  }

  lemma {:induction false} PathGrows(m: Module, ts: TypeSpec, q: seq<TypeSpec>)
    requires |q| > 0
    ensures IsPath(m, [ts] + q) <==> IsPath(m, q) && LeadsTo(m, ts, q[0])
  {
    hide LeadsTo;
    var p := [ts] + q;
    if IsPath(m, p) {
      assert LeadsTo(m, p[0], p[1]);
      forall i | 0 <= i < |q| - 1 ensures LeadsTo(m, q[i], q[i + 1]) { assert LeadsTo(m, p[i + 1], p[i + 2]); }
    }
    if IsPath(m, q) && LeadsTo(m, ts, q[0]) {
      forall i | 0 <= i < |p| - 1 ensures LeadsTo(m, p[i], p[i + 1]) {
        if i > 0 { assert LeadsTo(m, q[i - 1], q[i]); }
      }
    }
  }

  lemma {:induction false} WentThroughGrows(m: Module, ts: TypeSpec, q: seq<TypeSpec>, b: string)
    requires |q| > 0
    ensures WentThrough(m, [ts] + q, b) <==> StructAt(m, ts) == Some(b) || WentThrough(m, q, b)
  {
    hide StructAt;
    var p := [ts] + q;
    if i :| 0 <= i < |q| - 1 && StructAt(m, q[i]) == Some(b) { assert StructAt(m, p[i + 1]) == Some(b); }
    if i :| 0 <= i < |p| - 1 && StructAt(m, p[i]) == Some(b) {
      if i > 0 { assert StructAt(m, q[i - 1]) == Some(b); } else { assert p[0] == ts; }
    }
    if StructAt(m, ts) == Some(b) { assert StructAt(m, p[0]) == Some(b); }
  }

  lemma {:induction false} BlockGrows(m: Module, ts: TypeSpec, q: seq<TypeSpec>, visited: set<string>)
    requires |q| > 0
    ensures IsBlocked(m, [ts] + q, visited) <==> IsBlocked(m, q, visited + Entered(m, ts))
  {
    hide WentThrough, StructAt, IsDeadEnd;
    var p := [ts] + q;
    assert p[|p| - 1] == q[|q| - 1];
    var last := StructAt(m, q[|q| - 1]);
    if last.Some? { WentThroughGrows(m, ts, q, last.value); }
  }

  // Clear one step at a time.
  lemma {:induction false} ClearStep(m: Module, ts: TypeSpec, visited: set<string>)
    ensures IsClear(m, ts, visited) <==>
      && !IsDeadEnd(m, ts) && Entered(m, ts) !! visited
      && forall b :: LeadsTo(m, ts, b) ==> IsClear(m, b, visited + Entered(m, ts))
  {
    hide LeadsTo, IsDeadEnd, StructAt, IsPath, IsBlocked;
    BlockedAtOnce(m, ts, visited);
    var more := visited + Entered(m, ts);
    if IsClear(m, ts, visited) {
      forall b | LeadsTo(m, ts, b) ensures IsClear(m, b, more) {
        forall q | IsPath(m, q) && q[0] == b ensures !IsBlocked(m, q, more) {
          PathGrows(m, ts, q);
          BlockGrows(m, ts, q, visited);
          assert ([ts] + q)[0] == ts;
        }
      }
    }
    if Entered(m, ts) !! visited && !IsDeadEnd(m, ts) && forall b :: LeadsTo(m, ts, b) ==> IsClear(m, b, more) {
      forall p | IsPath(m, p) && p[0] == ts ensures !IsBlocked(m, p, visited) {
        if |p| == 1 {
          assert p == [ts];
        } else {
          assert p == [ts] + p[1..];
          PathGrows(m, ts, p[1..]);
          BlockGrows(m, ts, p[1..], visited);
        }
      }
    }
  }

  lemma {:induction false} BlockedAtOnce(m: Module, ts: TypeSpec, visited: set<string>)
    ensures IsPath(m, [ts]) && forall p :: IsPath(m, p) ==> |p| > 0
    ensures IsBlocked(m, [ts], visited) <==> IsDeadEnd(m, ts) || !(Entered(m, ts) !! visited)
  {}
}
