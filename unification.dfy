/** Unification and constraint checking: `_satisfactoryTypes` and
    `satisfactoryTypes`. The per-call type-variable map is an object updated in
    place (`TypeVarMap`); the function `Unify` says what one run does to it. */
module Unification {
  import opened Wrappers
  import opened Dicts
  import opened Lists
  import opened Hosts
  import opened Types
  import opened Inference

  /** The slot being checked: an argument position, or the return value (`NaN` in the source). */
  datatype Position = Arg(index: nat) | Return

  /** An entry of `$typeVarMap`: the candidate types of a variable and the history
      (where it was last bound and to which values). */
  datatype Binding = Binding(types: seq<Type>, at: Position, values: seq<Value>)

  /** The errors `def` and the curried functions throw, as constructors. */
  datatype Failure =
    | ArityMismatch(expected: nat, received: nat)
    | ArityTooLarge
    | NotInEnvironment(t: Type)
    | InvalidValue(index: nat, value: Value)
    | ConstraintViolation(at: Position, value: Value, typeVar: string, typeClass: TypeClass)
    | ConflictingTypeVar(at: Position, typeVar: string, values: seq<Value>)
    | ConflictingTypeVar2(at: Position, typeVar: string, values: seq<Value>, previous: Binding)

  /** The type-class constraints of a signature: variable name to its classes. */
  type Constraints = seq<Entry<seq<TypeClass>>>

  // ---------------------------------------------------------------------
  // Type-class constraints
  // ---------------------------------------------------------------------

  /** The first class in `classes` whose test rejects `v`. */
  function FirstFailing(h: Host, classes: seq<TypeClass>, v: Value): Option<TypeClass> {
    if classes == [] then None
    else if !h.classTest(classes[0].name, v) then Some(classes[0])
    else FirstFailing(h, classes[1..], v)
  }

  /** The first (value, class) pair, values outermost, where the class rejects the value. */
  function Violation(h: Host, classes: seq<TypeClass>, vs: seq<Value>): Option<(Value, TypeClass)> {
    if vs == [] then None
    else
      match FirstFailing(h, classes, vs[0])
      case Some(c) => Some((vs[0], c))
      case None => Violation(h, classes, vs[1..])
  }

  /** There is no violation exactly when every class accepts every value, and a
      violation names a value and a class that rejects it. */
  lemma {:induction false} ViolationExact(h: Host, classes: seq<TypeClass>, vs: seq<Value>)
    ensures Violation(h, classes, vs).None? <==>
      forall i, j :: 0 <= i < |vs| && 0 <= j < |classes| ==> h.classTest(classes[j].name, vs[i])
    ensures Violation(h, classes, vs).Some? ==>
      var (v, c) := Violation(h, classes, vs).value;
      v in vs && c in classes && !h.classTest(c.name, v)
  {
    if vs != [] {
      ViolationExact(h, classes, vs[1..]);
      FirstFailingExact(h, classes, vs[0]);
      if Violation(h, classes, vs).None? {
        forall i, j | 0 <= i < |vs| && 0 <= j < |classes|
          ensures h.classTest(classes[j].name, vs[i])
        {
          if i > 0 {
            assert vs[i] == vs[1..][i - 1];
          }
        }
      }
    }
  }

  lemma {:induction false} FirstFailingExact(h: Host, classes: seq<TypeClass>, v: Value)
    ensures FirstFailing(h, classes, v).None? <==> forall j :: 0 <= j < |classes| ==> h.classTest(classes[j].name, v)
    ensures FirstFailing(h, classes, v).Some? ==>
      FirstFailing(h, classes, v).value in classes && !h.classTest(FirstFailing(h, classes, v).value.name, v)
  {
    if classes != [] {
      FirstFailingExact(h, classes[1..], v);
      assert forall j :: 1 <= j < |classes| ==> classes[j] == classes[1..][j - 1];
    }
  }

  /** `constraints[name]` when the name has constraints, and no classes otherwise. */
  function ClassesOf(constraints: Constraints, n: string): seq<TypeClass> {
    if n in KeysOf(constraints) then ValueOf(constraints, n) else []
  }

  /** The nested loop over the values and the classes of one type variable. */
  method CheckConstraints(h: Host, classes: seq<TypeClass>, vs: seq<Value>) returns (r: Option<(Value, TypeClass)>)
    ensures r == Violation(h, classes, vs)
  {
    var idx := 0;
    while idx < |vs|
      invariant 0 <= idx <= |vs|
      invariant Violation(h, classes, vs) == Violation(h, classes, vs[idx..])
    {
      var idx2 := 0;
      while idx2 < |classes|
        invariant 0 <= idx2 <= |classes|
        invariant FirstFailing(h, classes, vs[idx]) == FirstFailing(h, classes[idx2..], vs[idx])
      {
        assert classes[idx2..][1..] == classes[idx2 + 1..];
        if !h.classTest(classes[idx2].name, vs[idx]) {
          return Some((vs[idx], classes[idx2]));
        }
        idx2 := idx2 + 1;
      }
      assert vs[idx..][1..] == vs[idx + 1..];
      idx := idx + 1;
    }
    return None;
  }

  // ---------------------------------------------------------------------
  // Unification as a function of the map
  // ---------------------------------------------------------------------

  /** The result of one run and the map it leaves behind. */
  datatype Step = Step(result: Result<seq<Type>, Failure>, entries: map<string, Binding>)

  /** `expType._1`/`expType._2` of a container type named `n`. */
  function Extract(h: Host, n: string, second: bool): Value -> seq<Value> {
    x => if second then h.child2(n, x) else h.child1(n, x)
  }

  /** `recur(expType, values, ...)` of `_satisfactoryTypes`, run against the map `entries`. */
  function Unify(h: Host, env: seq<Type>, constraints: Constraints, entries: map<string, Binding>,
                 t: Type, vs: seq<Value>, at: Position): Step
    decreases t
  {
    match t
    case Variable(n) =>
      var violation := Violation(h, ClassesOf(constraints, n), vs);
      if violation.Some? then
        Step(Err(ConstraintViolation(at, violation.value.0, n, violation.value.1)), entries)
      else if n in entries then
        var ok := FilterTypesByValues(h, entries[n].types, vs);
        if ok == [] then Step(Err(ConflictingTypeVar2(at, n, vs, entries[n])), entries)
        else Step(Ok(ok), entries[n := Binding(ok, at, vs)])
      else
        var ok := Strict(h, env, vs);
        if ok == [] then Step(Err(ConflictingTypeVar(at, n, vs)), entries)
        else Step(Ok(ok), entries[n := Binding(ok, at, vs)])
    case Unary(n, p, a) =>
      var s := Unify(h, env, constraints, entries, a, Chained(vs, Extract(h, n, false)), at);
      if s.result.Err? then s
      else Step(Ok(UnaryOver(t, Or(s.result.value, [a]))), s.entries)
    case Binary(n, p, a, b) =>
      var s1 := Unify(h, env, constraints, entries, a, Chained(vs, Extract(h, n, false)), at);
      if s1.result.Err? then s1
      else
        var s2 := Unify(h, env, constraints, s1.entries, b, Chained(vs, Extract(h, n, true)), at);
        if s2.result.Err? then s2
        else Step(Ok(Xprod(t, Or(s1.result.value, [a]), Or(s2.result.value, [b]))), s2.entries)
    case _ => Step(Ok(Strict(h, env, vs)), entries)
  }

  /** `e2` is `e1` narrowed: no variable is forgotten, and each variable's
      candidates are a subset of its old candidates. */
  ghost predicate Narrower(e1: map<string, Binding>, e2: map<string, Binding>) {
    forall k :: k in e1 ==> k in e2 && forall u :: u in e2[k].types ==> u in e1[k].types
  }

  /** Every variable of the map has at least one candidate. */
  ghost predicate Inhabited(e: map<string, Binding>) {
    forall k :: k in e ==> e[k].types != []
  }

  lemma NarrowerTransitive(e1: map<string, Binding>, e2: map<string, Binding>, e3: map<string, Binding>)
    requires Narrower(e1, e2) && Narrower(e2, e3)
    ensures Narrower(e1, e3)
  {
  }

  /** The VARIABLE case, first step: when a value fails a class test of the
      variable the run stops with a constraint violation naming that value and
      class, and leaves the map alone; otherwise it goes on. */
  lemma UnifyVariableConstraints(h: Host, env: seq<Type>, constraints: Constraints, entries: map<string, Binding>,
                                 n: string, vs: seq<Value>, at: Position)
    ensures var s := Unify(h, env, constraints, entries, Variable(n), vs, at);
      && ((s.result.Err? && s.result.error.ConstraintViolation?) <==>
            exists i, j :: 0 <= i < |vs| && 0 <= j < |ClassesOf(constraints, n)| &&
              !h.classTest(ClassesOf(constraints, n)[j].name, vs[i]))
      && (s.result.Err? && s.result.error.ConstraintViolation? ==>
            var f := s.result.error;
            f.value in vs && f.typeClass in ClassesOf(constraints, n) && !h.classTest(f.typeClass.name, f.value))
      && (s.result.Err? ==> s.entries == entries)
  {
    ViolationExact(h, ClassesOf(constraints, n), vs);
  }

  /** The VARIABLE case for a bound variable that passes its class tests: the new
      candidates are the old ones that accept every value, in their order; none
      left is a conflict reporting the old binding; otherwise the entry for this
      variable, and no other, is replaced. */
  lemma UnifyVariableBound(h: Host, env: seq<Type>, constraints: Constraints, entries: map<string, Binding>,
                           n: string, vs: seq<Value>, at: Position)
    requires n in entries
    requires forall i, j :: 0 <= i < |vs| && 0 <= j < |ClassesOf(constraints, n)| ==>
      h.classTest(ClassesOf(constraints, n)[j].name, vs[i])
    ensures var s := Unify(h, env, constraints, entries, Variable(n), vs, at);
      var ok := FilterTypesByValues(h, entries[n].types, vs);
      && (forall u :: u in ok <==> u in entries[n].types && AcceptsAll(h, u, vs))
      && Subsequence(ok, entries[n].types)
      && (ok == [] ==> s == Step(Err(ConflictingTypeVar2(at, n, vs, entries[n])), entries))
      && (ok != [] ==> s == Step(Ok(ok), entries[n := Binding(ok, at, vs)]))
  {
    ViolationExact(h, ClassesOf(constraints, n), vs);
    FilterTypesByValuesExact(h, entries[n].types, vs);
  }

  /** The VARIABLE case for an unbound variable that passes its class tests: the
      candidates are the strict inference of the values; none is a conflict;
      otherwise the variable is bound to them and nothing else changes. */
  lemma UnifyVariableUnbound(h: Host, env: seq<Type>, constraints: Constraints, entries: map<string, Binding>,
                             n: string, vs: seq<Value>, at: Position)
    requires n !in entries
    requires forall i, j :: 0 <= i < |vs| && 0 <= j < |ClassesOf(constraints, n)| ==>
      h.classTest(ClassesOf(constraints, n)[j].name, vs[i])
    ensures var s := Unify(h, env, constraints, entries, Variable(n), vs, at);
      var ok := Strict(h, env, vs);
      && (ok == [] ==> s == Step(Err(ConflictingTypeVar(at, n, vs)), entries))
      && (ok != [] ==> s == Step(Ok(ok), entries[n := Binding(ok, at, vs)]))
      && (ok == [] <==> Determine(h, env, false, vs) == [Inconsistent])
      && (forall u :: u in ok ==> !u.Inconsistent?)
  {
    ViolationExact(h, ClassesOf(constraints, n), vs);
  }

  /** Unification only narrows the map and keeps every variable inhabited. */
  lemma {:induction false} UnifyNarrows(h: Host, env: seq<Type>, constraints: Constraints, entries: map<string, Binding>,
                                        t: Type, vs: seq<Value>, at: Position)
    ensures Narrower(entries, Unify(h, env, constraints, entries, t, vs, at).entries)
    ensures Inhabited(entries) ==> Inhabited(Unify(h, env, constraints, entries, t, vs, at).entries)
    decreases t
  {
    match t
    case Variable(n) =>
      UnifyVariableConstraints(h, env, constraints, entries, n, vs, at);
      if n in entries {
        FilterTypesByValuesExact(h, entries[n].types, vs);
      }
    case Unary(n, p, a) =>
      UnifyNarrows(h, env, constraints, entries, a, Chained(vs, Extract(h, n, false)), at);
    case Binary(n, p, a, b) =>
      var s1 := Unify(h, env, constraints, entries, a, Chained(vs, Extract(h, n, false)), at);
      UnifyNarrows(h, env, constraints, entries, a, Chained(vs, Extract(h, n, false)), at);
      if s1.result.Ok? {
        UnifyNarrows(h, env, constraints, s1.entries, b, Chained(vs, Extract(h, n, true)), at);
        NarrowerTransitive(entries, s1.entries, Unify(h, env, constraints, s1.entries, b, Chained(vs, Extract(h, n, true)), at).entries);
      }
    case _ =>
  }

  /** A successful run of a container type gives that container respecialised,
      and never nothing. */
  lemma {:induction false} UnifyShape(h: Host, env: seq<Type>, constraints: Constraints, entries: map<string, Binding>,
                                      t: Type, vs: seq<Value>, at: Position)
    requires Unify(h, env, constraints, entries, t, vs, at).result.Ok?
    ensures var r := Unify(h, env, constraints, entries, t, vs, at).result.value;
      && (t.Unary? ==> r != [] && forall u :: u in r ==> u.Unary? && u.name == t.name && u.test == TestOf(t))
      && (t.Binary? ==> r != [] && forall u :: u in r ==> u.Binary? && u.name == t.name && u.test == TestOf(t))
      && (t.Variable? ==> r != [])
  {
    match t
    case Binary(n, p, a, b) =>
      var s1 := Unify(h, env, constraints, entries, a, Chained(vs, Extract(h, n, false)), at);
      var s2 := Unify(h, env, constraints, s1.entries, b, Chained(vs, Extract(h, n, true)), at);
      var r := Xprod(t, Or(s1.result.value, [a]), Or(s2.result.value, [b]));
      XprodLength(t, Or(s1.result.value, [a]), Or(s2.result.value, [b]));
      forall u | u in r ensures u.Binary? && u.name == n && u.test == TestOf(t) {
        XprodMembers(t, Or(s1.result.value, [a]), Or(s2.result.value, [b]), u);
      }
    case _ =>
  }

  // ---------------------------------------------------------------------
  // The map object and the imperative unifier
  // ---------------------------------------------------------------------

  /** `$typeVarMap`: type-variable name to binding, updated in place. */
  class TypeVarMap {
    var entries: map<string, Binding>

    constructor Empty()
      ensures entries == map[]
    {
      entries := map[];
    }

    /** The copy `curry` makes with `for (typeVarName in _typeVarMap)`. */
    constructor Copy(other: TypeVarMap)
      ensures entries == other.entries
    {
      var m: map<string, Binding> := map[];
      var todo := other.entries.Keys;
      while todo != {}
        invariant todo <= other.entries.Keys
        invariant m.Keys == other.entries.Keys - todo
        invariant forall k :: k in m ==> m[k] == other.entries[k]
        decreases |todo|
      {
        var k :| k in todo;
        m := m[k := other.entries[k]];
        todo := todo - {k};
      }
      entries := m;
    }

    /** `recur(expType, values, typePath, propPath)`: one recursive run of
        `_satisfactoryTypes` against this map. */
    method Satisfy(h: Host, env: seq<Type>, constraints: Constraints, t: Type, vs: seq<Value>, at: Position)
      returns (r: Result<seq<Type>, Failure>)
      modifies this
      ensures Step(r, entries) == Unify(h, env, constraints, old(entries), t, vs, at)
      decreases t
    {
      match t
      case Variable(n) =>
        var violation := CheckConstraints(h, ClassesOf(constraints, n), vs);
        if violation.Some? {
          return Err(ConstraintViolation(at, violation.value.0, n, violation.value.1));
        }
        var ok;
        if n in entries {
          ok := Filter(entries[n].types, AcceptsAllOf(h, vs));
          if ok == [] {
            return Err(ConflictingTypeVar2(at, n, vs, entries[n]));
          }
        } else {
          ok := Strict(h, env, vs);
          if ok == [] {
            return Err(ConflictingTypeVar(at, n, vs));
          }
        }
        entries := entries[n := Binding(ok, at, vs)];
        return Ok(ok);
      case Unary(n, p, a) =>
        var children := Chain(vs, Extract(h, n, false));
        var s1 := Satisfy(h, env, constraints, a, children, at);
        if s1.Err? {
          return s1;
        }
        return Ok(UnaryOver(t, Or(s1.value, [a])));
      case Binary(n, p, a, b) =>
        var children1 := Chain(vs, Extract(h, n, false));
        var s1 := Satisfy(h, env, constraints, a, children1, at);
        if s1.Err? {
          return s1;
        }
        var children2 := Chain(vs, Extract(h, n, true));
        var s2 := Satisfy(h, env, constraints, b, children2, at);
        if s2.Err? {
          return s2;
        }
        return Ok(Xprod(t, Or(s1.value, [a]), Or(s2.value, [b])));
      case _ =>
        return Ok(Strict(h, env, vs));
    }

    /** `satisfactoryTypes(..., expType, value, index)`: a run on the single value. */
    method SatisfactoryTypes(h: Host, env: seq<Type>, constraints: Constraints, t: Type, v: Value, at: Position)
      returns (r: Result<seq<Type>, Failure>)
      modifies this
      ensures Step(r, entries) == Unify(h, env, constraints, old(entries), t, [v], at)
      ensures Narrower(old(entries), entries)
      ensures Inhabited(old(entries)) ==> Inhabited(entries)
    {
      r := Satisfy(h, env, constraints, t, [v], at);
      UnifyNarrows(h, env, constraints, old(entries), t, [v], at);
    }
  }
}
