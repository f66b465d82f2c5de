/** Type inference inside `create`: `commonTypes`, `filterTypesByValues` and
    `_determineActualTypes` with its strict and loose variants. The environment
    is a list of descriptors already resolved (factories applied to UNKNOWN). */
module Inference {
  import opened Wrappers
  import opened Dicts
  import opened Lists
  import opened Hosts
  import opened Types

  // ---------------------------------------------------------------------
  // commonTypes
  // ---------------------------------------------------------------------

  /** `chain(typeses, id)`. */
  const Id := (ts: seq<Type>) => ts

  /** `t.$1` (or, with `second`, `t.$2`), for the descriptors that have one. */
  function Child(t: Type, second: bool): Option<Type> {
    if second then (if t.Binary? then Some(t.t2) else None)
    else if t.Unary? || t.Binary? then Some(t.t1) else None
  }

  /** One loop step: a child other than UNKNOWN is stored under the key `String(child.name)`. */
  function Store(d: seq<Entry<Type>>, c: Type): seq<Entry<Type>> {
    if c.Unknown? then d else Put(d, KeyOf(c), c)
  }

  /** The `$1s` (or `$2s`) dictionary after the loop has run over `ts`, descriptors
      without that child being passed over. */
  function Gathered(ts: seq<Type>, second: bool): seq<Entry<Type>>
    decreases |ts|
  {
    if ts == [] then []
    else
      var d := Gathered(ts[..|ts| - 1], second);
      match Child(ts[|ts| - 1], second)
      case None => d
      case Some(c) => Store(d, c)
  }

  /** `t` has the child that is looked at, that child is not UNKNOWN, and its key is `k`. */
  predicate Keeps(t: Type, second: bool, k: string) {
    Stores(t, second) && KeyOf(Child(t, second).value) == k
  }

  /** `t` has the child that is looked at, and that child is not UNKNOWN. */
  predicate Stores(t: Type, second: bool) {
    Child(t, second).Some? && !Child(t, second).value.Unknown?
  }

  /** `ts[i]` is the last descriptor of `ts` whose child is stored under `k`. */
  predicate LastKept(ts: seq<Type>, second: bool, i: int, k: string) {
    0 <= i < |ts| && Keeps(ts[i], second, k) && forall j :: i < j < |ts| ==> !Keeps(ts[j], second, k)
  }

  /** The dictionary has one entry per name of a child other than UNKNOWN. */
  lemma {:induction false} GatheredKeys(ts: seq<Type>, second: bool)
    ensures DistinctKeys(Gathered(ts, second))
    ensures forall k :: k in KeysOf(Gathered(ts, second)) <==> exists i :: 0 <= i < |ts| && Keeps(ts[i], second, k)
    decreases |ts|
  {
    if ts != [] {
      var init := ts[..|ts| - 1];
      GatheredKeys(init, second);
      assert forall i :: 0 <= i < |init| ==> init[i] == ts[i];
      if Stores(ts[|ts| - 1], second) {
        var c := Child(ts[|ts| - 1], second).value;
        PutFacts(Gathered(init, second), KeyOf(c), c);
      }
    }
  }

  /** The value under a name is the last child other than UNKNOWN with that name. */
  lemma {:induction false} GatheredValue(ts: seq<Type>, second: bool, k: string)
    requires k in KeysOf(Gathered(ts, second))
    ensures exists i :: LastKept(ts, second, i, k) && ValueOf(Gathered(ts, second), k) == Child(ts[i], second).value
    decreases |ts|
  {
    var init := ts[..|ts| - 1];
    var last := |ts| - 1;
    var d := Gathered(init, second);
    var g := Gathered(ts, second);
    if Keeps(ts[last], second, k) {
      PutFacts(d, k, Child(ts[last], second).value);
    } else {
      assert k in KeysOf(d) && ValueOf(g, k) == ValueOf(d, k) by {
        if Stores(ts[last], second) {
          var c := Child(ts[last], second).value;
          assert g == Put(d, KeyOf(c), c);
          PutFacts(d, KeyOf(c), c);
        } else {
          assert g == d;
        }
      }
      GatheredValue(init, second, k);
      var i :| LastKept(init, second, i, k) && ValueOf(d, k) == Child(init[i], second).value;
      assert init[i] == ts[i];
      forall j | i < j < |ts| ensures !Keeps(ts[j], second, k) {
        if j < last { assert init[j] == ts[j]; }
      }
    }
  }

  /** `or(map(keys($1s), k => $1s[k]), [Unknown])`: the stored children, or UNKNOWN
      alone when none was stored. */
  function Merged(d: seq<Entry<Type>>): (r: seq<Type>)
    ensures r != []
    ensures SortedValues(d) == [] ==> r == [Unknown]
    ensures SortedValues(d) != [] ==> r == SortedValues(d)
  {
    Or(SortedValues(d), [Unknown])
  }

  /** What the merge of the `$1s` (or `$2s`) dictionary holds: for each name, the last
      child other than UNKNOWN with that name, or UNKNOWN alone when there is none. */
  lemma MergedOf(ts: seq<Type>, second: bool, c: Type)
    ensures c in Merged(Gathered(ts, second)) <==>
      if exists i :: 0 <= i < |ts| && Stores(ts[i], second) then
        exists i :: LastKept(ts, second, i, KeyOf(c)) && Child(ts[i], second).value == c
      else c == Unknown
  {
    var g := Gathered(ts, second);
    GatheredKeys(ts, second);
    SortedKeysFacts(g);
    if i :| 0 <= i < |ts| && Stores(ts[i], second) {
      assert KeyOf(Child(ts[i], second).value) in KeysOf(g);
      assert Merged(g) == SortedValues(g);
      StoredMembers(ts, second, c);
    } else {
      HeadIsMember(KeysOf(g));
      assert Merged(g) == [Unknown];
    }
  }

  /** A stored child is among the sorted values exactly when it is the last one of its name. */
  lemma StoredMembers(ts: seq<Type>, second: bool, c: Type)
    ensures c in SortedValues(Gathered(ts, second)) <==>
      exists i :: LastKept(ts, second, i, KeyOf(c)) && Child(ts[i], second).value == c
  {
    var g := Gathered(ts, second);
    GatheredKeys(ts, second);
    SortedValuesMembers(g);
    if c in SortedValues(g) {
      var k :| k in KeysOf(g) && ValueOf(g, k) == c;
      GatheredValue(ts, second, k);
      var m :| LastKept(ts, second, m, k) && ValueOf(g, k) == Child(ts[m], second).value;
      assert KeyOf(c) == k;
    }
    if m :| LastKept(ts, second, m, KeyOf(c)) && Child(ts[m], second).value == c {
      var k := KeyOf(c);
      assert k in KeysOf(g);
      GatheredValue(ts, second, k);
      var n :| LastKept(ts, second, n, k) && ValueOf(g, k) == Child(ts[n], second).value;
      assert m == n;
    }
  }

  /** The candidates of `commonTypes`: for a container at the head of the flattened
      input, the container respecialised over the merged children; otherwise the
      flattened input itself. */
  function Candidates(types: seq<Type>): seq<Type>
    requires types != []
  {
    var t := types[0];
    if t.Unary? then UnaryOver(t, Merged(Gathered(types, false)))
    else if t.Binary? then Xprod(t, Merged(Gathered(types, false)), Merged(Gathered(types, true)))
    else types
  }

  /** Every input set holds a type `equalTypes`-equal to `t1`. */
  predicate InEvery(typeses: seq<seq<Type>>, t1: Type, loose: bool) {
    forall i :: 0 <= i < |typeses| ==>
      exists j :: 0 <= j < |typeses[i]| && EqualTypes(t1, typeses[i][j], loose)
  }

  function InEveryOf(typeses: seq<seq<Type>>, loose: bool): Type -> bool {
    t1 => InEvery(typeses, t1, loose)
  }

  /** `commonTypes(typeses, loose)`, with the loop passing over descriptors that
      lack the child it reads (see `CommonTypesAsWritten`). */
  function Common(typeses: seq<seq<Type>>, loose: bool): seq<Type> {
    var types := Chained(typeses, Id);
    if types == [] then [] else Filtered(Candidates(types), InEveryOf(typeses, loose))
  }

  /** `commonTypes`: flattens the input, fills `$1s`/`$2s` in one loop over it,
      then keeps the candidates found in every input set. */
  method CommonTypes(typeses: seq<seq<Type>>, loose: bool) returns (r: seq<Type>)
    ensures r == Common(typeses, loose)
  {
    var types := Chain(typeses, Id);
    if types == [] {
      return [];
    }
    var candidates;
    if types[0].Unary? || types[0].Binary? {
      var s1, s2 := [], [];
      var idx := 0;
      while idx < |types|
        invariant 0 <= idx <= |types|
        invariant s1 == Gathered(types[..idx], false)
        invariant s2 == Gathered(types[..idx], true)
      {
        GatheredStep(types, idx, false);
        GatheredStep(types, idx, true);
        var t := types[idx];
        if (t.Unary? || t.Binary?) && !t.t1.Unknown? {
          s1 := Put(s1, KeyOf(t.t1), t.t1);
        }
        if t.Binary? && !t.t2.Unknown? {
          s2 := Put(s2, KeyOf(t.t2), t.t2);
        }
        idx := idx + 1;
      }
      assert types[..idx] == types;
      if types[0].Unary? {
        candidates := UnaryOver(types[0], Merged(s1));
      } else {
        candidates := Xprod(types[0], Merged(s1), Merged(s2));
      }
    } else {
      candidates := types;
    }
    r := Filter(candidates, InEveryOf(typeses, loose));
  }

  /** One more descriptor of the loop: its child, when stored, is put under its key. */
  lemma GatheredStep(ts: seq<Type>, i: nat, second: bool)
    requires i < |ts|
    ensures Gathered(ts[..i + 1], second) ==
      if Stores(ts[i], second) then Put(Gathered(ts[..i], second), KeyOf(Child(ts[i], second).value), Child(ts[i], second).value)
      else Gathered(ts[..i], second)
  {
    assert ts[..i + 1][..i] == ts[..i];
    assert ts[..i + 1][i] == ts[i];
  }

  /** `commonTypes` gives nothing when every input set is empty. */
  lemma CommonOfEmpties(typeses: seq<seq<Type>>, loose: bool)
    requires forall i :: 0 <= i < |typeses| ==> typeses[i] == []
    ensures Common(typeses, loose) == []
  {
    ChainedEmpty(typeses, Id);
  }

  /** Every type `commonTypes` returns is `equalTypes`-equal to a member of every
      input set; for a container head it is that container respecialised, and
      otherwise it is one of the input types. */
  lemma CommonSound(typeses: seq<seq<Type>>, loose: bool, t: Type)
    requires t in Common(typeses, loose)
    ensures InEvery(typeses, t, loose)
    ensures var types := Chained(typeses, Id);
      && types != []
      && (types[0].Unary? ==> t.Unary? && t.name == types[0].name && t.test == TestOf(types[0]))
      && (types[0].Binary? ==> t.Binary? && t.name == types[0].name && t.test == TestOf(types[0]))
      && (!types[0].Unary? && !types[0].Binary? ==> exists i :: 0 <= i < |typeses| && t in typeses[i])
  {
    var types := Chained(typeses, Id);
    var cs := Candidates(types);
    assert t in cs;
    if types[0].Binary? {
      XprodMembers(types[0], Merged(Gathered(types, false)), Merged(Gathered(types, true)), t);
    } else if !types[0].Unary? {
      ChainedMembers(typeses, Id, t);
    }
  }

  /** A candidate that every input set holds (up to `equalTypes`) is kept. */
  lemma CommonComplete(typeses: seq<seq<Type>>, loose: bool, t: Type)
    requires Chained(typeses, Id) != []
    requires t in Candidates(Chained(typeses, Id))
    requires InEvery(typeses, t, loose)
    ensures t in Common(typeses, loose)
  {
  }

  // ---------------------------------------------------------------------
  // commonTypes as written
  // ---------------------------------------------------------------------

  /** The loop of `commonTypes` as written: it reads `t.$1.type` (or `t.$2.type`)
      of every flattened type, and that throws a `TypeError` (None) as soon as one
      has no such child. */
  function GatheredAsWritten(ts: seq<Type>, second: bool): Option<seq<Entry<Type>>>
    decreases |ts|
  {
    if ts == [] then Some([])
    else
      match GatheredAsWritten(ts[..|ts| - 1], second)
      case None => None
      case Some(d) =>
        match Child(ts[|ts| - 1], second)
        case None => None
        case Some(c) => Some(Store(d, c))
  }

  /** `commonTypes` exactly as written; None is the `TypeError` thrown by the loop. */
  function CommonTypesAsWritten(typeses: seq<seq<Type>>, loose: bool): Option<seq<Type>> {
    var types := Chained(typeses, Id);
    if types == [] then Some([])
    else if types[0].Unary? then
      match GatheredAsWritten(types, false)
      case None => None
      case Some(d1) =>
        Some(Filtered(UnaryOver(types[0], Merged(d1)), InEveryOf(typeses, loose)))
    else if types[0].Binary? then
      match GatheredAsWritten(types, false)
      case None => None
      case Some(d1) =>
        match GatheredAsWritten(types, true)
        case None => None
        case Some(d2) =>
          Some(Filtered(Xprod(types[0], Merged(d1), Merged(d2)), InEveryOf(typeses, loose)))
    else Some(Filtered(types, InEveryOf(typeses, loose)))
  }

  /** The loop as written fails exactly when some type lacks the child, and
      otherwise builds the same dictionary as the corrected loop. */
  lemma {:induction false} GatheredAsWrittenFacts(ts: seq<Type>, second: bool)
    ensures GatheredAsWritten(ts, second).None? <==> exists i :: 0 <= i < |ts| && Child(ts[i], second).None?
    ensures GatheredAsWritten(ts, second).Some? ==> GatheredAsWritten(ts, second).value == Gathered(ts, second)
    decreases |ts|
  {
    if ts != [] {
      var init := ts[..|ts| - 1];
      GatheredAsWrittenFacts(init, second);
      assert forall i :: 0 <= i < |init| ==> init[i] == ts[i];
    }
  }

  /** Where the source does not throw, it agrees with the corrected `Common`. */
  lemma CommonTypesAsWrittenAgrees(typeses: seq<seq<Type>>, loose: bool)
    requires CommonTypesAsWritten(typeses, loose).Some?
    ensures CommonTypesAsWritten(typeses, loose).value == Common(typeses, loose)
  {
    var types := Chained(typeses, Id);
    if types != [] {
      GatheredAsWrittenFacts(types, false);
      GatheredAsWrittenFacts(types, true);
    }
  }

  /** One array of numbers next to one string: the flattened types are
      `Array Number` and `String`, and `String` has no `$1`, so the source throws
      where the corrected `Common` finds no common type. */
  lemma CommonTypesAsWrittenThrows()
    ensures var typeses := [[Unary("Array", Base(HasTag("Array")), Type0("Number"))], [Type0("String")]];
      CommonTypesAsWritten(typeses, false).None? && Common(typeses, false) == []
  {
    var arrayOfNumber := Unary("Array", Base(HasTag("Array")), Type0("Number"));
    var typeses := [[arrayOfNumber], [Type0("String")]];
    var types := Chained(typeses, Id);
    assert Chained(typeses[1..][1..], Id) == [];
    assert Chained(typeses[1..], Id) == [Type0("String")];
    assert types == [arrayOfNumber] + Chained(typeses[1..], Id);
    GatheredAsWrittenFacts(types, false);
    assert Child(types[1], false).None?;
    var cs := Candidates(types);
    assert Gathered(types[..0], false) == [];
    assert Gathered(types[..1], false) == [Entry("Number", Type0("Number"))];
    var d := [Entry("Number", Type0("Number"))];
    assert Gathered(types, false) == d;
    assert SortedKeys(d) == ["Number"];
    assert SortedValues(d) == [Type0("Number")];
    assert cs == [Unary("Array", TestOf(arrayOfNumber), Type0("Number"))];
    assert !InEvery(typeses, cs[0], false) by {
      assert !EqualTypes(cs[0], typeses[1][0], false);
    }
  }

  // ---------------------------------------------------------------------
  // filterTypesByValues
  // ---------------------------------------------------------------------

  predicate AcceptsAll(h: Host, t: Type, vs: seq<Value>) {
    forall i :: 0 <= i < |vs| ==> Test(h, t, vs[i])
  }

  function AcceptsAllOf(h: Host, vs: seq<Value>): Type -> bool {
    t => AcceptsAll(h, t, vs)
  }

  /** `filterTypesByValues(types, values)`. */
  function FilterTypesByValues(h: Host, types: seq<Type>, vs: seq<Value>): seq<Type> {
    Filtered(types, AcceptsAllOf(h, vs))
  }

  /** It keeps exactly the types that accept every value, in their original order. */
  lemma FilterTypesByValuesExact(h: Host, types: seq<Type>, vs: seq<Value>)
    ensures forall t :: t in FilterTypesByValues(h, types, vs) <==> t in types && AcceptsAll(h, t, vs)
    ensures Subsequence(FilterTypesByValues(h, types, vs), types)
  {
    FilteredIsSubsequence(types, AcceptsAllOf(h, vs));
  }

  // ---------------------------------------------------------------------
  // _determineActualTypes
  // ---------------------------------------------------------------------

  /** `chain(env, rejectAny)`: the environment without the types mentioning ANY,
      each kept one as the copy `rejectAny` makes of it. */
  function ConsistentTypes(env: seq<Type>): seq<Type> {
    Chained(env, RejectAny)
  }

  lemma ConsistentTypesExact(env: seq<Type>, u: Type)
    ensures u in ConsistentTypes(env) <==> exists i :: 0 <= i < |env| && !HasAny(env[i]) && u == Renewed(env[i])
  {
    ChainedMembers(env, RejectAny, u);
    forall i | 0 <= i < |env| {
      RejectAnyResult(env[i]);
    }
  }

  /** `recur(values)` of `_determineActualTypes(loose)`. */
  function Determine(h: Host, env: seq<Type>, loose: bool, vs: seq<Value>): (r: seq<Type>)
    decreases Rank(h, vs), 2, 0
  {
    if vs == [] then [Unknown]
    else
      var consistent := ConsistentTypes(env);
      var common := Common(Typeses(h, env, loose, consistent, vs), loose);
      if common != [] then common
      else if Foreign(h, consistent, vs) then [Type0(h.typeId(vs[0]))]
      else [Inconsistent]
  }

  /** No environment type accepts every value, and every value carries `values[0]`'s tag. */
  predicate Foreign(h: Host, consistent: seq<Type>, vs: seq<Value>)
    requires vs != []
  {
    FilterTypesByValues(h, consistent, vs) == [] &&
    forall i :: 1 <= i < |vs| ==> h.typeId(vs[i]) == h.typeId(vs[0])
  }

  /** `typeses`: the candidate types of each value, in order. */
  function Typeses(h: Host, env: seq<Type>, loose: bool, consistent: seq<Type>, vs: seq<Value>): (r: seq<seq<Type>>)
    ensures |r| == |vs|
    decreases Rank(h, vs), 1, |vs|
  {
    if vs == [] then []
    else
      RankTail(h, vs);
      [TypesOf(h, env, loose, vs[0], consistent)] + Typeses(h, env, loose, consistent, vs[1..])
  }

  /** `chain(consistentTypes, t => ...)` for one value. */
  function TypesOf(h: Host, env: seq<Type>, loose: bool, v: Value, ts: seq<Type>): seq<Type>
    decreases 1 + h.depth(v), 0, |ts|
  {
    if ts == [] then [] else Specialised(h, env, loose, v, ts[0]) + TypesOf(h, env, loose, v, ts[1..])
  }

  /** What one environment type contributes for a value: nothing for `Nullable` or
      when its test rejects the value; a container respecialised over the types
      inferred for the value's children; any other type itself. */
  function Specialised(h: Host, env: seq<Type>, loose: bool, v: Value, t: Type): seq<Type>
    decreases 1 + h.depth(v), 0, 0
  {
    if NameOf(t) == Some(NullableName) || !Test(h, t, v) then []
    else
      match t
      case Unary(n, p, _) =>
        RankBound(h, h.child1(n, v), h.depth(v));
        UnaryOver(t, Determine(h, env, loose, h.child1(n, v)))
      case Binary(n, p, _, _) =>
        RankBound(h, h.child1(n, v), h.depth(v));
        RankBound(h, h.child2(n, v), h.depth(v));
        Xprod(t, Determine(h, env, loose, h.child1(n, v)), Determine(h, env, loose, h.child2(n, v)))
      case _ => [t]
  }

  /** `rejectInconsistent`. */
  function RejectInconsistent(ts: seq<Type>): (r: seq<Type>)
    ensures forall u :: u in r <==> u in ts && !u.Inconsistent?
  {
    Filtered(ts, (t: Type) => !t.Inconsistent?)
  }

  /** Dropping INCONSISTENT from `[Inconsistent]` leaves nothing, and from a list
      without it leaves the list. */
  lemma RejectInconsistentFacts(ts: seq<Type>)
    ensures ts == [Inconsistent] ==> RejectInconsistent(ts) == []
    ensures Inconsistent !in ts ==> RejectInconsistent(ts) == ts
  {
    if ts == [Inconsistent] {
      assert RejectInconsistent(ts) == Filtered(ts[1..], (t: Type) => !t.Inconsistent?);
    }
    if Inconsistent !in ts {
      FilteredAll(ts, (t: Type) => !t.Inconsistent?);
    }
  }

  /** `determineActualTypesStrict`. */
  function Strict(h: Host, env: seq<Type>, vs: seq<Value>): (r: seq<Type>)
    ensures forall u :: u in r ==> !u.Inconsistent?
    ensures r == [] <==> Determine(h, env, false, vs) == [Inconsistent]
  {
    var d := Determine(h, env, false, vs);
    DetermineOutcome(h, env, false, vs);
    RejectInconsistentFacts(d);
    RejectInconsistent(d)
  }

  /** `determineActualTypesLoose`. */
  function Loose(h: Host, env: seq<Type>, vs: seq<Value>): (r: seq<Type>)
    ensures forall u :: u in r ==> !u.Inconsistent?
    ensures r == [] <==> Determine(h, env, true, vs) == [Inconsistent]
  {
    var d := Determine(h, env, true, vs);
    DetermineOutcome(h, env, true, vs);
    RejectInconsistentFacts(d);
    RejectInconsistent(d)
  }

  /** Inference never returns an empty list. With no values it is `[Unknown]`;
      otherwise it is the common types when there are any, else the foreign type
      when no environment type accepts all the values and they share one tag,
      else `[Inconsistent]`. A common set of types never contains INCONSISTENT alone. */
  lemma DetermineOutcome(h: Host, env: seq<Type>, loose: bool, vs: seq<Value>)
    ensures Determine(h, env, loose, vs) != []
    ensures vs == [] ==> Determine(h, env, loose, vs) == [Unknown]
    ensures vs != [] ==>
      var consistent := ConsistentTypes(env);
      var common := Common(Typeses(h, env, loose, consistent, vs), loose);
      || (common != [] && Determine(h, env, loose, vs) == common)
      || (common == [] && Foreign(h, consistent, vs) && Determine(h, env, loose, vs) == [Type0(h.typeId(vs[0]))])
      || (common == [] && !Foreign(h, consistent, vs) && Determine(h, env, loose, vs) == [Inconsistent])
    ensures Determine(h, env, loose, vs) == [Inconsistent] ==>
      vs != [] && !Foreign(h, ConsistentTypes(env), vs)
    ensures Inconsistent in Determine(h, env, loose, vs) ==> Determine(h, env, loose, vs) == [Inconsistent]
  {
    if vs != [] {
      var consistent := ConsistentTypes(env);
      var typeses := Typeses(h, env, loose, consistent, vs);
      var common := Common(typeses, loose);
      if Inconsistent in common {
        CommonSound(typeses, loose, Inconsistent);
        var types := Chained(typeses, Id);
        var i :| 0 <= i < |typeses| && Inconsistent in typeses[i];
        TypesesAt(h, env, loose, consistent, vs, i);
        TypesOfSources(h, env, loose, vs[i], consistent, Inconsistent);
      }
    }
  }

  lemma {:induction false} TypesesAt(h: Host, env: seq<Type>, loose: bool, consistent: seq<Type>, vs: seq<Value>, i: nat)
    requires i < |vs|
    ensures Typeses(h, env, loose, consistent, vs)[i] == TypesOf(h, env, loose, vs[i], consistent)
    decreases i
  {
    if i > 0 {
      TypesesAt(h, env, loose, consistent, vs[1..], i - 1);
    }
  }

  /** A value of every candidate list stems from an environment type of the same
      name that accepts the value and is not `Nullable`. */
  lemma {:induction false} TypesOfSources(h: Host, env: seq<Type>, loose: bool, v: Value, ts: seq<Type>, u: Type)
    requires u in TypesOf(h, env, loose, v, ts)
    ensures exists i :: (0 <= i < |ts| && Test(h, ts[i], v) && NameOf(ts[i]) != Some(NullableName) &&
      NameOf(u) == NameOf(ts[i]))
    ensures !u.Inconsistent?
    decreases |ts|
  {
    var s := Specialised(h, env, loose, v, ts[0]);
    if u in s {
      var t := ts[0];
      if t.Binary? {
        XprodMembers(t, Determine(h, env, loose, h.child1(t.name, v)),
                     Determine(h, env, loose, h.child2(t.name, v)), u);
      }
    } else {
      TypesOfSources(h, env, loose, v, ts[1..], u);
      var i :| 0 <= i < |ts[1..]| && Test(h, ts[1..][i], v) && NameOf(ts[1..][i]) != Some(NullableName) &&
        NameOf(u) == NameOf(ts[1..][i]);
      assert ts[1..][i] == ts[i + 1];
    }
  }

  /** Conversely, an environment type that accepts the value and is not `Nullable`
      contributes at least one candidate of its own name: the inferred child lists
      are never empty, so neither is their respecialisation. */
  lemma {:induction false} TypesOfComplete(h: Host, env: seq<Type>, loose: bool, v: Value, ts: seq<Type>, i: nat)
    requires i < |ts| && Test(h, ts[i], v) && NameOf(ts[i]) != Some(NullableName)
    ensures exists u :: u in TypesOf(h, env, loose, v, ts) && NameOf(u) == NameOf(ts[i])
    decreases i
  {
    if i == 0 {
      var t := ts[0];
      var s := Specialised(h, env, loose, v, t);
      assert TypesOf(h, env, loose, v, ts) == s + TypesOf(h, env, loose, v, ts[1..]);
      if t.Unary? {
        var n := t.name;
        DetermineOutcome(h, env, loose, h.child1(n, v));
        assert s[0] in s && NameOf(s[0]) == NameOf(t);
      } else if t.Binary? {
        var n := t.name;
        var d1, d2 := Determine(h, env, loose, h.child1(n, v)), Determine(h, env, loose, h.child2(n, v));
        DetermineOutcome(h, env, loose, h.child1(n, v));
        DetermineOutcome(h, env, loose, h.child2(n, v));
        var u := Binary(n, TestOf(t), d1[0], d2[0]);
        XprodMembers(t, d1, d2, u);
        assert s == Xprod(t, d1, d2);
        assert u in TypesOf(h, env, loose, v, ts) && NameOf(u) == NameOf(t);
      }
    } else {
      TypesOfComplete(h, env, loose, v, ts[1..], i - 1);
      assert ts[1..][i - 1] == ts[i];
    }
  }

  /** The candidate list of value `k` names, for each consistent type, that type
      exactly when it accepts the value and is not `Nullable`. */
  lemma TypesesNames(h: Host, env: seq<Type>, loose: bool, consistent: seq<Type>, vs: seq<Value>, k: nat, i: nat)
    requires k < |vs| && i < |consistent|
    ensures Test(h, consistent[i], vs[k]) && NameOf(consistent[i]) != Some(NullableName) ==>
      exists u :: u in Typeses(h, env, loose, consistent, vs)[k] && NameOf(u) == NameOf(consistent[i])
    ensures forall u :: u in Typeses(h, env, loose, consistent, vs)[k] ==>
      exists j :: 0 <= j < |consistent| && Test(h, consistent[j], vs[k]) &&
        NameOf(consistent[j]) != Some(NullableName) && NameOf(u) == NameOf(consistent[j])
  {
    TypesesAt(h, env, loose, consistent, vs, k);
    if Test(h, consistent[i], vs[k]) && NameOf(consistent[i]) != Some(NullableName) {
      TypesOfComplete(h, env, loose, vs[k], consistent, i);
    }
    forall u | u in Typeses(h, env, loose, consistent, vs)[k]
      ensures exists j :: (0 <= j < |consistent| && Test(h, consistent[j], vs[k]) &&
        NameOf(consistent[j]) != Some(NullableName) && NameOf(u) == NameOf(consistent[j]))
    {
      TypesOfSources(h, env, loose, vs[k], consistent, u);
    }
  }

  /** A value no environment type accepts yields no candidates. */
  lemma {:induction false} TypesOfRejected(h: Host, env: seq<Type>, loose: bool, v: Value, ts: seq<Type>)
    requires forall i :: 0 <= i < |ts| ==> !Test(h, ts[i], v)
    ensures TypesOf(h, env, loose, v, ts) == []
    decreases |ts|
  {
    if ts != [] {
      TypesOfRejected(h, env, loose, v, ts[1..]);
    }
  }

  /** A value that no consistent environment type accepts gets the foreign type
      named after its tag, and that type accepts it. */
  lemma DetermineForeignValue(h: Host, env: seq<Type>, loose: bool, v: Value)
    requires forall t :: t in ConsistentTypes(env) ==> !Test(h, t, v)
    ensures Determine(h, env, loose, [v]) == [Type0(h.typeId(v))]
    ensures Test(h, Type0(h.typeId(v)), v)
  {
    var consistent := ConsistentTypes(env);
    TypesOfRejected(h, env, loose, v, consistent);
    var typeses := Typeses(h, env, loose, consistent, [v]);
    assert typeses == [[]];
    CommonOfEmpties(typeses, loose);
    assert forall i :: 0 <= i < |consistent| ==> !AcceptsAllOf(h, [v])(consistent[i]) by {
      forall i | 0 <= i < |consistent| ensures !AcceptsAll(h, consistent[i], [v]) {
        assert !Test(h, consistent[i], [v][0]);
      }
    }
    FilteredNone(consistent, AcceptsAllOf(h, [v]));
  }
}
