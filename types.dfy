/** The type-descriptor algebra of index.js: the nine kinds of descriptor,
    their membership tests, the cross product `BinaryType.xprod`, the
    canonical text `toString` that ENUM and RECORD descriptors are compared
    by, `rejectAny` and `equalTypes`. */
module Types {
  import opened Wrappers
  import opened Dicts
  import opened Hosts

  /** The predicate a named type was built with: `K(true)`, `$$typeEq(tag)`, or one of the runtime's. */
  datatype Leaf = Always | HasTag(tag: string) | Custom(key: string)

  /** The predicate a container was built with: a leaf predicate, or, for a type
      made by `UnaryType.from(t)` or `BinaryType.from(t)`, the whole test of `t`
      (which includes the checks of `t`'s own children). */
  datatype Pred = Base(leaf: Leaf) | TestOf(from: Type)

  /** A type descriptor. `Unary`/`Binary` keep the name, the predicate they were built
      with and (through the name) the extractors; `Enum` keeps what `EnumType` computes
      from its members (their `$$type` tags and their `show` texts); `Record` keeps its
      field object as a list of entries. */
  datatype Type =
    | Any
    | Unknown
    | Inconsistent
    | Variable(name: string)
    | Nullary(name: string, leaf: Leaf)
    | Unary(name: string, test: Pred, t1: Type)
    | Binary(name: string, test: Pred, t1: Type, t2: Type)
    | Enum(tags: seq<string>, reprs: seq<string>)
    | Record(fields: seq<Entry<Type>>)

  /** A type class: a name and, through the runtime, its test. */
  datatype TypeClass = TypeClass(name: string)

  const NullableName := "sanctuary-def/Nullable"

  /** The `name` property; `undefined` (None) for ANY, UNKNOWN, INCONSISTENT, ENUM and RECORD. */
  function NameOf(t: Type): Option<string> {
    match t
    case Variable(n) => Some(n)
    case Nullary(n, _) => Some(n)
    case Unary(n, _, _) => Some(n)
    case Binary(n, _, _, _) => Some(n)
    case _ => None
  }

  /** `String(t.name)`, the key a descriptor is stored under in a dictionary. */
  function KeyOf(t: Type): string {
    match NameOf(t)
    case Some(n) => n
    case None => "undefined"
  }

  function Holds(h: Host, p: Leaf, x: Value): bool {
    match p
    case Always => true
    case HasTag(tag) => h.typeId(x) == tag
    case Custom(k) => h.test(k, x)
  }

  /** `t.test(x)`. A container accepts `x` when the predicate it was built with does and every
      extracted child passes the child descriptor; a record when `x` is not
      nullish and every field is an own property passing that field's descriptor. */
  function Test(h: Host, t: Type, x: Value): bool
    decreases t
  {
    match t
    case Any => true
    case Unknown => true
    case Inconsistent => false
    case Variable(_) => true
    case Nullary(_, p) => Holds(h, p, x)
    case Unary(n, p, a) =>
      && (match p case Base(l) => Holds(h, l, x) case TestOf(s) => Test(h, s, x))
      && forall c :: c in h.child1(n, x) ==> Test(h, a, c)
    case Binary(n, p, a, b) =>
      && (match p case Base(l) => Holds(h, l, x) case TestOf(s) => Test(h, s, x))
      && (forall c :: c in h.child1(n, x) ==> Test(h, a, c))
      && (forall c :: c in h.child2(n, x) ==> Test(h, b, c))
    case Enum(tags, reprs) => h.typeId(x) in tags && h.show(x) in reprs
    case Record(fields) =>
      && !h.isNullish(x)
      && forall i :: 0 <= i < |fields| ==>
           h.prop(x, fields[i].key).Some? && Test(h, fields[i].val, h.prop(x, fields[i].key).value)
  }

  /** The `test` of a `RecordType`: a loop over the fields that stops at the first
      field missing from `x` or failing its descriptor. (The source visits the
      field names sorted; the answer does not depend on the order.) */
  method RecordTest(h: Host, fields: seq<Entry<Type>>, x: Value) returns (b: bool)
    ensures b == Test(h, Record(fields), x)
  {
    if h.isNullish(x) {
      return false;
    }
    var idx := 0;
    while idx < |fields|
      invariant 0 <= idx <= |fields|
      invariant forall i :: 0 <= i < idx ==>
        h.prop(x, fields[i].key).Some? && Test(h, fields[i].val, h.prop(x, fields[i].key).value)
    {
      var v := h.prop(x, fields[idx].key);
      if v.None? || !Test(h, fields[idx].val, v.value) {
        return false;
      }
      idx := idx + 1;
    }
    return true;
  }

  /** `type0(tag)`: the nullary type of the values whose `$$type` is `tag`. */
  function Type0(tag: string): (r: Type)
    ensures r.Nullary? && r.name == tag
  {
    Nullary(tag, HasTag(tag))
  }

  lemma Type0Accepts(h: Host, tag: string, x: Value)
    ensures Test(h, Type0(tag), x) <==> h.typeId(x) == tag
  {
  }

  /** `EnumType(members)`: the tags and the `show` texts of the members. */
  function EnumType(h: Host, members: seq<Value>): (r: Type)
    ensures r.Enum? && |r.tags| == |members| && |r.reprs| == |members|
    ensures forall i :: 0 <= i < |members| ==> r.tags[i] == h.typeId(members[i]) && r.reprs[i] == h.show(members[i])
  {
    Enum(seq(|members|, i requires 0 <= i < |members| => h.typeId(members[i])),
         seq(|members|, i requires 0 <= i < |members| => h.show(members[i])))
  }

  /** A value belongs to an enumeration when its tag is some member's tag and
      its `show` text is some member's `show` text. */
  lemma EnumTypeAccepts(h: Host, members: seq<Value>, x: Value)
    ensures Test(h, EnumType(h, members), x) <==>
      (exists i :: 0 <= i < |members| && h.typeId(members[i]) == h.typeId(x)) &&
      (exists j :: 0 <= j < |members| && h.show(members[j]) == h.show(x))
  {
    var r := EnumType(h, members);
    assert Test(h, r, x) == (h.typeId(x) in r.tags && h.show(x) in r.reprs);
    EnumMembers(h, members, r.tags, r.reprs);
  }

  lemma EnumMembers(h: Host, members: seq<Value>, tags: seq<string>, reprs: seq<string>)
    requires |tags| == |members| && forall i :: 0 <= i < |members| ==> tags[i] == h.typeId(members[i])
    requires |reprs| == |members| && forall i :: 0 <= i < |members| ==> reprs[i] == h.show(members[i])
    ensures forall x :: h.typeId(x) in tags <==>
      exists i :: 0 <= i < |members| && h.typeId(members[i]) == h.typeId(x)
    ensures forall x :: h.show(x) in reprs <==>
      exists i :: 0 <= i < |members| && h.show(members[i]) == h.show(x)
  {
    forall x ensures h.typeId(x) in tags <==>
      exists i :: 0 <= i < |members| && h.typeId(members[i]) == h.typeId(x)
    {
      if h.typeId(x) in tags {
        var i :| 0 <= i < |tags| && tags[i] == h.typeId(x);
        assert h.typeId(members[i]) == h.typeId(x);
      }
    }
    forall x ensures h.show(x) in reprs <==>
      exists i :: 0 <= i < |members| && h.show(members[i]) == h.show(x)
    {
      if h.show(x) in reprs {
        var i :| 0 <= i < |reprs| && reprs[i] == h.show(x);
        assert h.show(members[i]) == h.show(x);
      }
    }
  }

  // ---------------------------------------------------------------------
  // Specialisation of container types
  // ---------------------------------------------------------------------

  /** `map(cs, UnaryType.from(t))`: `t` respecialised over each child. The new
      types keep `t`'s name and extractor and take `t`'s whole test as their predicate. */
  function UnaryOver(t: Type, cs: seq<Type>): (r: seq<Type>)
    requires t.Unary?
    ensures |r| == |cs|
    ensures forall i :: 0 <= i < |cs| ==> r[i] == Unary(t.name, TestOf(t), cs[i])
  {
    seq(|cs|, i requires 0 <= i < |cs| => Unary(t.name, TestOf(t), cs[i]))
  }

  /** A type made by `UnaryType.from(t)` accepts what `t` accepts whose elements
      also pass the new child: the checks of `t`'s old child stay in force. */
  lemma UnaryFromAccepts(h: Host, t: Type, c: Type, x: Value)
    requires t.Unary?
    ensures Test(h, Unary(t.name, TestOf(t), c), x) <==>
      && Test(h, t, x)
      && (forall e :: e in h.child1(t.name, x) ==> Test(h, t.t1, e) && Test(h, c, e))
  {
  }

  /** A type made by `BinaryType.from(t)` accepts what `t` accepts whose children
      also pass the new children. */
  lemma BinaryFromAccepts(h: Host, t: Type, c1: Type, c2: Type, x: Value)
    requires t.Binary?
    ensures Test(h, Binary(t.name, TestOf(t), c1, c2), x) <==>
      && Test(h, t, x)
      && (forall e :: e in h.child1(t.name, x) ==> Test(h, t.t1, e) && Test(h, c1, e))
      && (forall e :: e in h.child2(t.name, x) ==> Test(h, t.t2, e) && Test(h, c2, e))
  {
  }

  /** `UnaryType.from($.Array($.Number))(c)` still demands elements of type Number,
      whatever `c` is. */
  lemma FromKeepsChildChecks(h: Host, c: Type, x: Value)
    ensures var arrayOfNumber := Unary("Array", Base(HasTag("Array")), Type0("Number"));
      Test(h, UnaryOver(arrayOfNumber, [c])[0], x) ==>
        h.typeId(x) == "Array" && forall e :: e in h.child1("Array", x) ==> h.typeId(e) == "Number"
  {
    var arrayOfNumber := Unary("Array", Base(HasTag("Array")), Type0("Number"));
    if Test(h, UnaryOver(arrayOfNumber, [c])[0], x) {
      UnaryFromAccepts(h, arrayOfNumber, c, x);
      forall e | e in h.child1("Array", x) ensures h.typeId(e) == "Number" {
        Type0Accepts(h, "Number", e);
      }
    }
  }

  /** `BinaryType.xprod(t, $1s, $2s)`: `BinaryType.from(t)` applied to every pairing
      of a first child with a second child, first children outermost. */
  function Xprod(t: Type, s1: seq<Type>, s2: seq<Type>): (r: seq<Type>)
    requires t.Binary?
  {
    if s1 == [] then []
    else seq(|s2|, j requires 0 <= j < |s2| => Binary(t.name, TestOf(t), s1[0], s2[j])) + Xprod(t, s1[1..], s2)
  }

  /** `xprod` contains exactly the respecialisations of `t` over one child of each list. */
  lemma {:induction false} XprodMembers(t: Type, s1: seq<Type>, s2: seq<Type>, u: Type)
    requires t.Binary?
    ensures u in Xprod(t, s1, s2) <==>
      exists i, j :: 0 <= i < |s1| && 0 <= j < |s2| && u == Binary(t.name, TestOf(t), s1[i], s2[j])
  {
    if s1 != [] {
      var n, p := t.name, TestOf(t);
      XprodMembers(t, s1[1..], s2, u);
      var row := seq(|s2|, j requires 0 <= j < |s2| => Binary(n, p, s1[0], s2[j]));
      assert Xprod(t, s1, s2) == row + Xprod(t, s1[1..], s2);
      if u in Xprod(t, s1[1..], s2) {
        var i, j :| 0 <= i < |s1[1..]| && 0 <= j < |s2| && u == Binary(n, p, s1[1..][i], s2[j]);
        assert u == Binary(n, p, s1[i + 1], s2[j]);
      }
      if u in row {
        var j :| 0 <= j < |s2| && row[j] == u;
        assert u == Binary(n, p, s1[0], s2[j]);
      }
      if exists i, j :: 0 <= i < |s1| && 0 <= j < |s2| && u == Binary(n, p, s1[i], s2[j]) {
        var i, j :| 0 <= i < |s1| && 0 <= j < |s2| && u == Binary(n, p, s1[i], s2[j]);
        if i == 0 {
          assert row[j] == u;
        } else {
          assert s1[1..][i - 1] == s1[i];
        }
      }
    }
  }

  /** `xprod` has `|s1| * |s2|` elements; in particular it is empty exactly when one list is. */
  lemma {:induction false} XprodLength(t: Type, s1: seq<Type>, s2: seq<Type>)
    requires t.Binary?
    ensures |Xprod(t, s1, s2)| == |s1| * |s2|
  {
    if s1 != [] {
      XprodLength(t, s1[1..], s2);
      assert |s1| * |s2| == |s2| + (|s1| - 1) * |s2|;
    }
  }

  lemma XprodSingletons(t: Type, a: Type, b: Type)
    requires t.Binary?
    ensures Xprod(t, [a], [b]) == [Binary(t.name, TestOf(t), a, b)]
  {
    assert Xprod(t, [a], [b]) == [Binary(t.name, TestOf(t), a, b)] + Xprod(t, [], [b]);
  }

  // ---------------------------------------------------------------------
  // Canonical text
  // ---------------------------------------------------------------------

  /** The position of the first entry with key `k`. */
  function KeyIndex(d: seq<Entry<Type>>, k: string): (r: nat)
    requires k in KeysOf(d)
    ensures r < |d| && d[r].key == k
  {
    if d[0].key == k then 0 else 1 + KeyIndex(d[1..], k)
  }

  /** `String(t)`, the `toString` of each descriptor; `show(t)` gives the same text. */
  function ShowType(t: Type): string
    decreases t
  {
    match t
    case Any => "Any"
    case Unknown => "???"
    case Inconsistent => "???"
    case Variable(n) => n
    case Nullary(n, _) => StripNamespace(n)
    case Unary(n, _, a) => "(" + StripNamespace(n) + " " + ShowType(a) + ")"
    case Binary(n, _, a, b) => "(" + StripNamespace(n) + " " + ShowType(a) + " " + ShowType(b) + ")"
    case Enum(_, reprs) => "(" + Join(reprs, " | ") + ")"
    case Record(fields) =>
      var ks := SortedKeys(fields);
      SortKeepsMembers(KeysOf(fields));
      var parts := seq(|ks|, i requires 0 <= i < |ks| =>
        ks[i] + " :: " + ShowType(fields[KeyIndex(fields, ks[i])].val));
      if ks == [] then "{}" else "{ " + Join(parts, ", ") + " }"
  }

  // ---------------------------------------------------------------------
  // rejectAny
  // ---------------------------------------------------------------------

  /** ANY occurs in the container spine of `t` (records and enumerations are not looked into). */
  predicate HasAny(t: Type) {
    match t
    case Any => true
    case Unary(_, _, a) => HasAny(a)
    case Binary(_, _, a, b) => HasAny(a) || HasAny(b)
    case _ => false
  }

  /** `rejectAny(t)`. */
  function RejectAny(t: Type): (r: seq<Type>)
  {
    match t
    case Any => []
    case Unary(_, _, a) => UnaryOver(t, RejectAny(a))
    case Binary(_, _, a, b) => Xprod(t, RejectAny(a), RejectAny(b))
    case _ => [t]
  }

  /** The copy `rejectAny` makes of an ANY-free descriptor: every container in the
      spine is rebuilt by `from` over its rebuilt children. */
  function Renewed(t: Type): Type {
    match t
    case Unary(n, _, a) => Unary(n, TestOf(t), Renewed(a))
    case Binary(n, _, a, b) => Binary(n, TestOf(t), Renewed(a), Renewed(b))
    case _ => t
  }

  /** `rejectAny` keeps a descriptor or drops it: nothing when ANY occurs anywhere
      in its container spine, otherwise exactly one copy of it. So it never returns ANY. */
  lemma {:induction false} RejectAnyResult(t: Type)
    ensures RejectAny(t) == if HasAny(t) then [] else [Renewed(t)]
    ensures forall u :: u in RejectAny(t) ==> !u.Any? && !HasAny(u)
  {
    match t {
      case Unary(n, p, a) =>
        RejectAnyResult(a);
        if !HasAny(a) {
          assert UnaryOver(t, [Renewed(a)]) == [Renewed(t)];
        }
      case Binary(n, p, a, b) =>
        RejectAnyResult(a);
        RejectAnyResult(b);
        if !HasAny(a) && !HasAny(b) {
          XprodSingletons(t, Renewed(a), Renewed(b));
        } else {
          XprodLength(t, RejectAny(a), RejectAny(b));
        }
      case _ =>
    }
    RenewedFacts(t);
  }

  /** The copy is the descriptor again, as far as anything can tell: same kind,
      name, canonical text and ANY-freedom, and it accepts exactly the same values. */
  lemma {:induction false} RenewedFacts(t: Type)
    ensures NameOf(Renewed(t)) == NameOf(t) && ShowType(Renewed(t)) == ShowType(t)
    ensures HasAny(Renewed(t)) == HasAny(t)
    ensures Renewed(t).Unary? == t.Unary? && Renewed(t).Binary? == t.Binary?
    ensures !t.Unary? && !t.Binary? ==> Renewed(t) == t
  {
    match t
    case Unary(n, p, a) => RenewedFacts(a);
    case Binary(n, p, a, b) => RenewedFacts(a); RenewedFacts(b);
    case _ =>
  }

  lemma {:induction false} RenewedAccepts(h: Host, t: Type, x: Value)
    ensures Test(h, Renewed(t), x) == Test(h, t, x)
    decreases t, 0
  {
    match t
    case Unary(n, p, a) =>
      forall e | e in h.child1(n, x) ensures Test(h, Renewed(a), e) == Test(h, a, e) {
        RenewedAccepts(h, a, e);
      }
    case Binary(n, p, a, b) =>
      forall e | e in h.child1(n, x) ensures Test(h, Renewed(a), e) == Test(h, a, e) {
        RenewedAccepts(h, a, e);
      }
      forall e | e in h.child2(n, x) ensures Test(h, Renewed(b), e) == Test(h, b, e) {
        RenewedAccepts(h, b, e);
      }
    case _ =>
  }

  /** `equalTypes` cannot tell the copy from the descriptor. */
  lemma {:induction false} RenewedEqual(t: Type, u: Type, loose: bool)
    ensures EqualTypes(Renewed(t), u, loose) == EqualTypes(t, u, loose)
    decreases t
  {
    RenewedFacts(t);
    match t
    case Unary(n, p, a) =>
      if u.Unary? { RenewedEqual(a, u.t1, loose); }
    case Binary(n, p, a, b) =>
      if u.Binary? {
        RenewedEqual(a, u.t1, loose);
        RenewedEqual(b, u.t2, loose);
      }
    case _ =>
  }

  // ---------------------------------------------------------------------
  // equalTypes
  // ---------------------------------------------------------------------

  /** `equalTypes(t1, t2, loose)`. The source throws `unexpectedType` for an ANY or
      VARIABLE first operand, which happens when the environment holds a type
      variable; here that is `false`. */
  function EqualTypes(t1: Type, t2: Type, loose: bool): bool
    decreases t1
  {
    if t1.Inconsistent? || t2.Inconsistent? then loose
    else if t1.Unknown? || t2.Unknown? then true
    else
      match t1
      case Nullary(n, _) => t2.Nullary? && t2.name == n
      case Unary(n, _, a) => t2.Unary? && t2.name == n && EqualTypes(a, t2.t1, loose)
      case Binary(n, _, a, b) =>
        t2.Binary? && t2.name == n && EqualTypes(a, t2.t1, loose) && EqualTypes(b, t2.t2, loose)
      case Enum(_, _) => t2.Enum? && ShowType(t1) == ShowType(t2)
      case Record(_) => t2.Record? && ShowType(t1) == ShowType(t2)
      case _ => false
  }

  /** The sentinels decide first (INCONSISTENT gives `loose`, then UNKNOWN gives
      true); otherwise kinds must agree, nullary types by name, containers by name
      and children. */
  lemma EqualTypesRules(t1: Type, t2: Type, loose: bool)
    ensures (t1.Inconsistent? || t2.Inconsistent?) ==> EqualTypes(t1, t2, loose) == loose
    ensures !t1.Inconsistent? && !t2.Inconsistent? && (t1.Unknown? || t2.Unknown?) ==>
      EqualTypes(t1, t2, loose)
    ensures t1.Nullary? && t2.Nullary? ==> (EqualTypes(t1, t2, loose) <==> t1.name == t2.name)
    ensures t1.Unary? && t2.Unary? ==>
      (EqualTypes(t1, t2, loose) <==> t1.name == t2.name && EqualTypes(t1.t1, t2.t1, loose))
    ensures t1.Binary? && t2.Binary? ==>
      (EqualTypes(t1, t2, loose) <==>
        t1.name == t2.name && EqualTypes(t1.t1, t2.t1, loose) && EqualTypes(t1.t2, t2.t2, loose))
    ensures t1.Nullary? && !(t2.Nullary? || t2.Unknown? || t2.Inconsistent?) ==> !EqualTypes(t1, t2, loose)
  {
  }

  /** `equalTypes` does not depend on the order of its operands. */
  lemma {:induction false} EqualTypesSymmetric(t1: Type, t2: Type, loose: bool)
    ensures EqualTypes(t1, t2, loose) == EqualTypes(t2, t1, loose)
    decreases t1
  {
    if !t1.Inconsistent? && !t2.Inconsistent? && !t1.Unknown? && !t2.Unknown? {
      match t1
      case Unary(n, _, a) =>
        if t2.Unary? { EqualTypesSymmetric(a, t2.t1, loose); }
      case Binary(n, _, a, b) =>
        if t2.Binary? {
          EqualTypesSymmetric(a, t2.t1, loose);
          EqualTypesSymmetric(b, t2.t2, loose);
        }
      case _ =>
    }
  }

  /** Strict equality implies loose equality. */
  lemma {:induction false} EqualTypesStrictImpliesLoose(t1: Type, t2: Type)
    requires EqualTypes(t1, t2, false)
    ensures EqualTypes(t1, t2, true)
    decreases t1
  {
    match t1
    case Unary(n, _, a) =>
      if !t2.Unknown? { EqualTypesStrictImpliesLoose(a, t2.t1); }
    case Binary(n, _, a, b) =>
      if !t2.Unknown? {
        EqualTypesStrictImpliesLoose(a, t2.t1);
        EqualTypesStrictImpliesLoose(b, t2.t2);
      }
    case _ =>
  }

  /** Descriptors `equalTypes` can compare with themselves: no ANY or VARIABLE in
      the container spine, and no INCONSISTENT either unless comparing loosely. */
  predicate Comparable(t: Type, loose: bool) {
    match t
    case Any => false
    case Variable(_) => false
    case Inconsistent => loose
    case Unary(_, _, a) => Comparable(a, loose)
    case Binary(_, _, a, b) => Comparable(a, loose) && Comparable(b, loose)
    case _ => true
  }

  /** On comparable descriptors `equalTypes` is reflexive, and on no others. */
  lemma {:induction false} EqualTypesReflexive(t: Type, loose: bool)
    ensures EqualTypes(t, t, loose) <==> Comparable(t, loose)
  {
    match t
    case Unary(_, _, a) => EqualTypesReflexive(a, loose);
    case Binary(_, _, a, b) =>
      EqualTypesReflexive(a, loose);
      EqualTypesReflexive(b, loose);
    case _ =>
  }
}
