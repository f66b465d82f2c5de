/** The curry dispatcher and `def`: the environment-membership check of a
    signature, one call of a curried function (arity check, placeholder-aware
    filling of the argument array, type checking against a fresh copy of the
    type-variable map, invocation on saturation, the check of the returned
    value), and `def`'s arity ceiling. */
module Curry {
  import opened Wrappers
  import opened Lists
  import opened Hosts
  import opened Types
  import opened Inference
  import opened Unification

  // ---------------------------------------------------------------------
  // assertExpectedTypesInEnvironment
  // ---------------------------------------------------------------------

  function Size(t: Type): nat {
    match t
    case Unary(_, _, a) => 1 + Size(a)
    case Binary(_, _, a, b) => 1 + Size(a) + Size(b)
    case _ => 1
  }

  function SizeAll(ts: seq<Type>): nat {
    if ts == [] then 0 else Size(ts[0]) + SizeAll(ts[1..])
  }

  lemma {:induction false} SizeAllDrop(ts: seq<Type>, i: nat)
    requires i < |ts|
    ensures Size(ts[i]) + SizeAll(ts[i + 1..]) <= SizeAll(ts)
    decreases i
  {
    if i > 0 {
      SizeAllDrop(ts[1..], i - 1);
      assert ts[1..][i - 1] == ts[i] && ts[1..][i..] == ts[i + 1..];
    }
  }

  lemma SizeChildren(t: Type)
    ensures SizeAll(Children(t)) < Size(t)
  {
    match t
    case Unary(_, _, a) =>
      assert SizeAll([a]) == Size(a) + SizeAll([a][1..]);
      assert [a][1..] == [];
    case Binary(_, _, a, b) =>
      assert SizeAll([a, b]) == Size(a) + SizeAll([a, b][1..]);
      assert [a, b][1..] == [b];
      assert SizeAll([b]) == Size(b) + SizeAll([b][1..]);
      assert [b][1..] == [];
    case _ =>
  }

  /** `any(env, eqProps('name')(t))`: some environment type has the same `name`
      (for unnamed descriptors, any other unnamed one). */
  predicate NameInEnv(env: seq<Type>, t: Type) {
    exists i :: 0 <= i < |env| && NameOf(env[i]) == NameOf(t)
  }

  /** The children `recur` descends into. */
  function Children(t: Type): seq<Type> {
    match t
    case Unary(_, _, a) => [a]
    case Binary(_, _, a, b) => [a, b]
    case _ => []
  }

  /** The type `recur(expTypes)` throws `typeNotInEnvironment` for, if any:
      depth first, left to right, skipping type variables (and their children). */
  function FirstMissing(env: seq<Type>, ts: seq<Type>): Option<Type>
    decreases SizeAll(ts)
  {
    if ts == [] then None
    else
      var t := ts[0];
      SizeAllDrop(ts, 0);
      if t.Variable? then FirstMissing(env, ts[1..])
      else if !NameInEnv(env, t) then Some(t)
      else
        SizeChildren(t);
        var inner := FirstMissing(env, Children(t));
        if inner.Some? then inner else FirstMissing(env, ts[1..])
  }

  /** Every non-variable type in `t`'s container spine is named in the environment. */
  predicate InEnv(env: seq<Type>, t: Type) {
    match t
    case Variable(_) => true
    case Unary(_, _, a) => NameInEnv(env, t) && InEnv(env, a)
    case Binary(_, _, a, b) => NameInEnv(env, t) && InEnv(env, a) && InEnv(env, b)
    case _ => NameInEnv(env, t)
  }

  /** `u` occurs in `t`'s container spine, below no type variable. */
  predicate Occurs(u: Type, t: Type) {
    u == t || (!t.Variable? && exists i :: 0 <= i < |Children(t)| && Occurs(u, Children(t)[i]))
  }

  /** The check passes exactly when every type of the signature is in the
      environment; when it fails it names a non-variable type of the signature
      that no environment type shares a name with. */
  lemma {:induction false} FirstMissingExact(env: seq<Type>, ts: seq<Type>)
    ensures FirstMissing(env, ts).None? <==> forall i :: 0 <= i < |ts| ==> InEnv(env, ts[i])
    ensures FirstMissing(env, ts).Some? ==>
      var u := FirstMissing(env, ts).value;
      !u.Variable? && !NameInEnv(env, u) && exists i :: 0 <= i < |ts| && Occurs(u, ts[i])
    decreases SizeAll(ts)
  {
    if ts != [] {
      var t := ts[0];
      SizeAllDrop(ts, 0);
      FirstMissingExact(env, ts[1..]);
      assert forall i :: 1 <= i < |ts| ==> ts[i] == ts[1..][i - 1];
      if !t.Variable? && NameInEnv(env, t) {
        SizeChildren(t);
        FirstMissingExact(env, Children(t));
        var inner := FirstMissing(env, Children(t));
        assert inner.None? <==> InEnv(env, t) by {
          match t
          case Unary(_, _, a) =>
          case Binary(_, _, a, b) =>
          case _ =>
        }
        if inner.Some? {
          assert Occurs(inner.value, t);
        }
      }
      if FirstMissing(env, ts).Some? && FirstMissing(env, ts) == FirstMissing(env, ts[1..]) {
        var u := FirstMissing(env, ts).value;
        var i :| 0 <= i < |ts[1..]| && Occurs(u, ts[1..][i]);
        assert Occurs(u, ts[i + 1]);
      }
    }
  }

  /** One turn of the loop, as `FirstMissing` sees it. */
  lemma FirstMissingStep(env: seq<Type>, ts: seq<Type>, idx: nat)
    requires idx < |ts|
    ensures FirstMissing(env, ts[idx..]) ==
      if ts[idx].Variable? then FirstMissing(env, ts[idx + 1..])
      else if !NameInEnv(env, ts[idx]) then Some(ts[idx])
      else if FirstMissing(env, Children(ts[idx])).Some? then FirstMissing(env, Children(ts[idx]))
      else FirstMissing(env, ts[idx + 1..])
  {
    assert ts[idx..][0] == ts[idx] && ts[idx..][1..] == ts[idx + 1..];
  }

  /** `assertExpectedTypesInEnvironment(name)(expTypes)`: the loop with its early
      `throw`, recurring into the children of containers. */
  method AssertInEnvironment(env: seq<Type>, ts: seq<Type>) returns (r: Option<Type>)
    ensures r == FirstMissing(env, ts)
    decreases SizeAll(ts)
  {
    var idx := 0;
    while idx < |ts|
      invariant 0 <= idx <= |ts|
      invariant FirstMissing(env, ts) == FirstMissing(env, ts[idx..])
    {
      var t := ts[idx];
      FirstMissingStep(env, ts, idx);
      if !t.Variable? {
        var found := Lists.Any(env, (e: Type) => NameOf(e) == NameOf(t));
        if !found {
          return Some(t);
        }
        SizeAllDrop(ts, idx);
        SizeChildren(t);
        var inner := AssertInEnvironment(env, Children(t));
        if inner.Some? {
          return inner;
        }
      }
      idx := idx + 1;
    }
    assert ts[idx..] == [];
    return None;
  }

  // ---------------------------------------------------------------------
  // One call of a curried function, as a function
  // ---------------------------------------------------------------------

  /** A signature: name, constraints, argument types and return type. */
  datatype Signature = Signature(name: string, constraints: Constraints, args: seq<Type>, ret: Type)

  /** An argument as supplied: the placeholder `__`, or a value. */
  datatype Arg = Placeholder | Given(value: Value)

  /** Argument `k` is supplied: present and not the placeholder. */
  predicate Supplied(args: seq<Arg>, k: int) {
    0 <= k < |args| && args[k].Given?
  }

  /** `_indexes` are positions of the argument array. */
  predicate Positions(p: seq<int>, n: nat) {
    forall j :: 0 <= j < |p| ==> 0 <= p[j] < n
  }

  /** A curried state is well formed: one slot per argument type, pending
      positions in increasing order, and every empty slot pending. */
  ghost predicate ValidState(arity: nat, values: seq<Option<Value>>, pending: seq<int>) {
    && |values| == arity
    && Positions(pending, arity)
    && StrictlyIncreasing(pending)
    && forall i :: 0 <= i < arity && values[i].None? ==> i in pending
  }

  /** What the loop has built so far: `values`, `indexes` and the copied map. */
  datatype CallState = CallState(values: seq<Option<Value>>, pending: seq<int>, entries: map<string, Binding>)

  /** The failure when the return value fails its type. */
  function ReturnFailure(sig: Signature, rv: Value): (f: Failure)
    ensures f.InvalidValue? && f.index == |sig.args| && (sig.args + [sig.ret])[f.index] == sig.ret
  {
    InvalidValue(|sig.args|, rv)
  }

  /** What happens to a supplied argument: with `checkTypes`, it must pass its
      type and `satisfactoryTypes` must neither throw nor return nothing; then it
      is written to its slot. */
  function Admit(h: Host, env: seq<Type>, sig: Signature, checkTypes: bool,
                 st: CallState, index: nat, v: Value): Result<CallState, Failure>
    requires index < |st.values| && index < |sig.args|
  {
    if !checkTypes then Ok(st.(values := st.values[index := Some(v)]))
    else if !Test(h, sig.args[index], v) then Err(InvalidValue(index, v))
    else
      var s := Unify(h, env, sig.constraints, st.entries, sig.args[index], [v], Arg(index));
      if s.result.Err? then Err(s.result.error)
      else if s.result.value == [] then Err(InvalidValue(index, v))
      else Ok(CallState(st.values[index := Some(v)], st.pending, s.entries))
  }

  /** The state after the loop of `curry` has visited the first `k` pending positions. */
  function Run(h: Host, env: seq<Type>, sig: Signature, checkTypes: bool, values: seq<Option<Value>>,
               entries: map<string, Binding>, p: seq<int>, args: seq<Arg>, k: nat): (r: Result<CallState, Failure>)
    requires k <= |p|
    requires |values| == |sig.args| && Positions(p, |values|)
    ensures r.Ok? ==> |r.value.values| == |values|
    decreases k
  {
    if k == 0 then Ok(CallState(values, [], entries))
    else
      match Run(h, env, sig, checkTypes, values, entries, p, args, k - 1)
      case Err(e) => Err(e)
      case Ok(st) =>
        if Supplied(args, k - 1) then Admit(h, env, sig, checkTypes, st, p[k - 1], args[k - 1].value)
        else Ok(st.(pending := st.pending + [p[k - 1]]))
  }

  /** What a call returns: the implementation's value, or a new curried state. */
  datatype Outcome = Done(value: Value) | More(values: seq<Option<Value>>, pending: seq<int>, entries: map<string, Binding>)

  /** One call of the function `curry` returns, on arguments `args`. `body` is the implementation. */
  function Call(h: Host, env: seq<Type>, sig: Signature, checkTypes: bool, values: seq<Option<Value>>,
                entries: map<string, Binding>, p: seq<int>, body: seq<Option<Value>> -> Value,
                args: seq<Arg>): Result<Outcome, Failure>
    requires |values| == |sig.args| && Positions(p, |values|)
  {
    if checkTypes && |args| > |p| then Err(ArityMismatch(|sig.args|, |sig.args| + (|args| - |p|)))
    else
      match Run(h, env, sig, checkTypes, values, entries, p, args, |p|)
      case Err(e) => Err(e)
      case Ok(st) =>
        if st.pending != [] then Ok(More(st.values, st.pending, st.entries))
        else
          var rv := body(st.values);
          if !checkTypes then Ok(Done(rv))
          else if !Test(h, sig.ret, rv) then Err(ReturnFailure(sig, rv))
          else
            var s := Unify(h, env, sig.constraints, st.entries, sig.ret, [rv], Return);
            if s.result.Err? then Err(s.result.error) else Ok(Done(rv))
  }

  /** The loop reaches the implementation exactly when it ends with nothing pending. */
  predicate Saturates(h: Host, env: seq<Type>, sig: Signature, checkTypes: bool, values: seq<Option<Value>>,
                      entries: map<string, Binding>, p: seq<int>, args: seq<Arg>)
    requires |values| == |sig.args| && Positions(p, |values|)
  {
    && !(checkTypes && |args| > |p|)
    && var r := Run(h, env, sig, checkTypes, values, entries, p, args, |p|);
       r.Ok? && r.value.pending == []
  }

  // ---------------------------------------------------------------------
  // Lemmas about one call
  // ---------------------------------------------------------------------

  /** When `checkTypes` holds, too many arguments fail with the arity error,
      before any argument is examined or stored. */
  lemma ArityCheckedFirst(h: Host, env: seq<Type>, sig: Signature, values: seq<Option<Value>>,
                          entries: map<string, Binding>, p: seq<int>, body: seq<Option<Value>> -> Value, args: seq<Arg>)
    requires |values| == |sig.args| && Positions(p, |values|)
    requires |args| > |p|
    ensures Call(h, env, sig, true, values, entries, p, body, args) ==
      Err(ArityMismatch(|sig.args|, |sig.args| + |args| - |p|))
    ensures !Saturates(h, env, sig, true, values, entries, p, args)
  {
  }

  /** Without type checking, the loop never fails and leaves the map alone. */
  lemma {:induction false} RunUncheckedOk(h: Host, env: seq<Type>, sig: Signature, values: seq<Option<Value>>,
                                          entries: map<string, Binding>, p: seq<int>, args: seq<Arg>, k: nat)
    requires k <= |p|
    requires |values| == |sig.args| && Positions(p, |values|)
    ensures var r := Run(h, env, sig, false, values, entries, p, args, k);
      r.Ok? && r.value.entries == entries
    decreases k
  {
    if k > 0 {
      RunUncheckedOk(h, env, sig, values, entries, p, args, k - 1);
    }
  }

  /** Each supplied argument lands in its slot, and every slot not filled in this
      call keeps its value. */
  lemma {:induction false} RunUncheckedValues(h: Host, env: seq<Type>, sig: Signature, values: seq<Option<Value>>,
                                              entries: map<string, Binding>, p: seq<int>, args: seq<Arg>, k: nat)
    requires k <= |p|
    requires |values| == |sig.args| && Positions(p, |values|)
    requires StrictlyIncreasing(p)
    ensures var r := Run(h, env, sig, false, values, entries, p, args, k);
      && r.Ok?
      && (forall j :: 0 <= j < k && Supplied(args, j) ==> r.value.values[p[j]] == Some(args[j].value))
      && (forall i :: 0 <= i < |values| && (forall j :: 0 <= j < k && p[j] == i ==> !Supplied(args, j)) ==>
            r.value.values[i] == values[i])
    decreases k
  {
    RunUncheckedOk(h, env, sig, values, entries, p, args, k);
    if k > 0 {
      RunUncheckedValues(h, env, sig, values, entries, p, args, k - 1);
      assert forall j :: 0 <= j < k - 1 ==> p[j] != p[k - 1];
    }
  }

  /** The new pending list holds exactly the visited positions that received no
      value, in their old order. */
  lemma {:induction false} RunUncheckedPending(h: Host, env: seq<Type>, sig: Signature, values: seq<Option<Value>>,
                                               entries: map<string, Binding>, p: seq<int>, args: seq<Arg>, k: nat)
    requires k <= |p|
    requires |values| == |sig.args| && Positions(p, |values|)
    requires StrictlyIncreasing(p)
    ensures var r := Run(h, env, sig, false, values, entries, p, args, k);
      && r.Ok?
      && (forall i :: i in r.value.pending <==> exists j :: 0 <= j < k && p[j] == i && !Supplied(args, j))
      && Subsequence(r.value.pending, p[..k])
      && StrictlyIncreasing(r.value.pending)
    decreases k
  {
    RunUncheckedOk(h, env, sig, values, entries, p, args, k);
    if k > 0 {
      RunUncheckedPending(h, env, sig, values, entries, p, args, k - 1);
      var st := Run(h, env, sig, false, values, entries, p, args, k - 1).value;
      var r := Run(h, env, sig, false, values, entries, p, args, k);
      assert p[..k] == p[..k - 1] + [p[k - 1]];
      if Supplied(args, k - 1) {
        SubsequenceSnocRight(st.pending, p[..k - 1], p[k - 1]);
      } else {
        SubsequenceSnocBoth(st.pending, p[..k - 1], p[k - 1]);
        assert forall x :: x in st.pending ==> x < p[k - 1];
        assert r.value.pending == st.pending + [p[k - 1]];
        forall a, b | 0 <= a < b < |r.value.pending| ensures r.value.pending[a] < r.value.pending[b] {
          assert r.value.pending[a] == st.pending[a] && st.pending[a] in st.pending;
          if b < |st.pending| {
            assert r.value.pending[b] == st.pending[b];
            assert st.pending[a] < st.pending[b];
          } else {
            assert r.value.pending[b] == p[k - 1];
          }
        }
      }
    }
  }

  /** With type checking, a loop that gets through fills and leaves pending
      exactly what the unchecked loop does, and only narrows the map. */
  lemma {:induction false} RunCheckedAgrees(h: Host, env: seq<Type>, sig: Signature, values: seq<Option<Value>>,
                                            entries: map<string, Binding>, p: seq<int>, args: seq<Arg>, k: nat)
    requires k <= |p|
    requires |values| == |sig.args| && Positions(p, |values|)
    requires Run(h, env, sig, true, values, entries, p, args, k).Ok?
    ensures var c := Run(h, env, sig, true, values, entries, p, args, k).value;
      var u := Run(h, env, sig, false, values, entries, p, args, k);
      && u.Ok? && c.values == u.value.values && c.pending == u.value.pending
      && Narrower(entries, c.entries)
      && (Inhabited(entries) ==> Inhabited(c.entries))
    decreases k
  {
    if k > 0 {
      RunCheckedAgrees(h, env, sig, values, entries, p, args, k - 1);
      var st := Run(h, env, sig, true, values, entries, p, args, k - 1).value;
      if Supplied(args, k - 1) {
        var index := p[k - 1];
        var v := args[k - 1].value;
        UnifyNarrows(h, env, sig.constraints, st.entries, sig.args[index], [v], Arg(index));
        NarrowerTransitive(entries, st.entries,
          Unify(h, env, sig.constraints, st.entries, sig.args[index], [v], Arg(index)).entries);
      }
    }
  }

  /** A failure in the loop is final: every later step passes it on. */
  lemma {:induction false} RunErrorSticks(h: Host, env: seq<Type>, sig: Signature, checkTypes: bool, values: seq<Option<Value>>,
                                          entries: map<string, Binding>, p: seq<int>, args: seq<Arg>, k: nat, k2: nat)
    requires k <= k2 <= |p|
    requires |values| == |sig.args| && Positions(p, |values|)
    requires Run(h, env, sig, checkTypes, values, entries, p, args, k).Err?
    ensures Run(h, env, sig, checkTypes, values, entries, p, args, k2) == Run(h, env, sig, checkTypes, values, entries, p, args, k)
    decreases k2
  {
    if k2 > k {
      RunErrorSticks(h, env, sig, checkTypes, values, entries, p, args, k, k2 - 1);
    }
  }

  /** A call keeps the state well formed, and it saturates exactly when every
      pending position receives a value; the implementation then sees every slot filled. */
  lemma CallKeepsValid(h: Host, env: seq<Type>, sig: Signature, checkTypes: bool, values: seq<Option<Value>>,
                       entries: map<string, Binding>, p: seq<int>, args: seq<Arg>)
    requires ValidState(|sig.args|, values, p)
    requires Run(h, env, sig, checkTypes, values, entries, p, args, |p|).Ok?
    ensures var st := Run(h, env, sig, checkTypes, values, entries, p, args, |p|).value;
      && ValidState(|sig.args|, st.values, st.pending)
      && Subsequence(st.pending, p)
      && (st.pending == [] <==> forall j :: 0 <= j < |p| ==> Supplied(args, j))
      && (st.pending == [] ==> forall i :: 0 <= i < |st.values| ==> st.values[i].Some?)
  {
    RunUncheckedValues(h, env, sig, values, entries, p, args, |p|);
    RunUncheckedPending(h, env, sig, values, entries, p, args, |p|);
    if checkTypes {
      RunCheckedAgrees(h, env, sig, values, entries, p, args, |p|);
    }
    var st := Run(h, env, sig, checkTypes, values, entries, p, args, |p|).value;
    assert p[..|p|] == p;
    forall i | 0 <= i < |sig.args| && st.values[i].None?
      ensures i in st.pending
    {
      if forall j :: 0 <= j < |p| && p[j] == i ==> !Supplied(args, j) {
        assert i in p;
      }
    }
    forall j | 0 <= j < |st.pending| ensures 0 <= st.pending[j] < |sig.args| {
      assert st.pending[j] in st.pending;
    }
    if st.pending != [] {
      assert st.pending[0] in st.pending;
    }
    if !forall j :: 0 <= j < |p| ==> Supplied(args, j) {
      var j :| 0 <= j < |p| && !Supplied(args, j);
      assert p[j] in st.pending;
    }
  }

  // ---------------------------------------------------------------------
  // The return-value check: the finding
  // ---------------------------------------------------------------------

  /** The failure as written: the position passed to `invalidValue` is
      `_indexes.length`, the number of positions pending before this call. */
  function ReturnFailureAsWritten(p: seq<int>, rv: Value): Failure {
    InvalidValue(|p|, rv)
  }

  /** The two agree exactly when the call supplies every argument at once. */
  lemma ReturnFailureAgreement(sig: Signature, p: seq<int>, rv: Value)
    ensures ReturnFailureAsWritten(p, rv) == ReturnFailure(sig, rv) <==> |p| == |sig.args|
  {
  }

  /** A binary function applied one argument at a time whose result is not of the
      return type: on the second call one position is pending, so the error
      points at the second argument's type instead of the return type. */
  lemma ReturnFailureAsWrittenMisplaced(v: Value)
    ensures var sig := Signature("f", [], [Type0("A"), Type0("B")], Type0("C"));
      var f := ReturnFailureAsWritten([1], v);
      f.InvalidValue? && (sig.args + [sig.ret])[f.index] == Type0("B") != sig.ret
  {
  }

  // ---------------------------------------------------------------------
  // The objects: implementation, curried function, def
  // ---------------------------------------------------------------------

  /** The implementation passed to `def`, with a log of the argument arrays it was applied to. */
  class Implementation {
    const body: seq<Option<Value>> -> Value
    var calls: seq<seq<Option<Value>>>

    constructor (body: seq<Option<Value>> -> Value)
      ensures this.body == body && calls == []
    {
      this.body := body;
      calls := [];
    }

    /** `impl.apply(this, values)`. */
    method Apply(values: seq<Option<Value>>) returns (v: Value)
      modifies this
      ensures v == body(values) && calls == old(calls) + [values]
    {
      calls := calls + [values];
      v := body(values);
    }
  }

  /** What a call of a curried function gives back: the implementation's value
      once every argument is in, or a new curried function for the rest. */
  datatype Reply = Returned(value: Value) | Partial(next: Curried)

  /** What a curried function closes over: the signature, the type-variable map,
      the argument array so far, the pending positions and the implementation. */
  class Curried {
    const sig: Signature
    const typeVars: TypeVarMap
    const values: seq<Option<Value>>
    const pending: seq<int>
    const impl: Implementation

    ghost predicate Valid() {
      ValidState(|sig.args|, values, pending)
    }

    constructor (sig: Signature, typeVars: TypeVarMap, values: seq<Option<Value>>, pending: seq<int>, impl: Implementation)
      ensures this.sig == sig && this.typeVars == typeVars && this.values == values
      ensures this.pending == pending && this.impl == impl
    {
      this.sig := sig;
      this.typeVars := typeVars;
      this.values := values;
      this.pending := pending;
      this.impl := impl;
    }

    /** Calling the curried function on `args`. The caller's map is never touched;
        the implementation runs once when the call saturates, on the filled array,
        and not at all otherwise; a partial call returns a new curried function over
        a fresh map. */
    method Invoke(h: Host, env: seq<Type>, checkTypes: bool, args: seq<Arg>) returns (r: Result<Reply, Failure>)
      requires Valid()
      modifies impl
      ensures unchanged(typeVars)
      ensures var spec := Call(h, env, sig, checkTypes, values, typeVars.entries, pending, impl.body, args);
        && (r.Err? <==> spec.Err?)
        && (r.Err? ==> r.error == spec.error)
        && (spec.Ok? && spec.value.Done? ==> r == Ok(Returned(spec.value.value)))
        && (spec.Ok? && spec.value.More? ==>
              && r.Ok? && r.value.Partial?
              && var next := r.value.next;
                 && fresh(next) && fresh(next.typeVars) && next.typeVars != typeVars
                 && next.sig == sig && next.impl == impl
                 && next.values == spec.value.values && next.pending == spec.value.pending
                 && next.typeVars.entries == spec.value.entries
                 && next.Valid())
      ensures impl.calls == old(impl.calls) +
        (if Saturates(h, env, sig, checkTypes, values, typeVars.entries, pending, args)
         then [Run(h, env, sig, checkTypes, values, typeVars.entries, pending, args, |pending|).value.values]
         else [])
    {
      if checkTypes && |args| > |pending| {
        return Err(ArityMismatch(|sig.args|, |sig.args| + (|args| - |pending|)));
      }
      var m := new TypeVarMap.Copy(typeVars);
      var vals := new Option<Value>[|values|](i requires 0 <= i < |values| => values[i]);
      var indexes: seq<int> := [];
      var idx := 0;
      assert vals[..] == values;
      while idx < |pending|
        invariant 0 <= idx <= |pending|
        invariant fresh(m) && fresh(vals) && vals.Length == |values|
        invariant impl.calls == old(impl.calls)
        invariant Run(h, env, sig, checkTypes, values, typeVars.entries, pending, args, idx) ==
          Ok(CallState(vals[..], indexes, m.entries))
      {
        var index := pending[idx];
        if idx < |args| && args[idx].Given? {
          var value := args[idx].value;
          if checkTypes {
            var expType := sig.args[index];
            if !Test(h, expType, value) {
              RunErrorSticks(h, env, sig, checkTypes, values, typeVars.entries, pending, args, idx + 1, |pending|);
              return Err(InvalidValue(index, value));
            }
            var s := m.SatisfactoryTypes(h, env, sig.constraints, expType, value, Arg(index));
            if s.Err? {
              RunErrorSticks(h, env, sig, checkTypes, values, typeVars.entries, pending, args, idx + 1, |pending|);
              return Err(s.error);
            }
            if s.value == [] {
              RunErrorSticks(h, env, sig, checkTypes, values, typeVars.entries, pending, args, idx + 1, |pending|);
              return Err(InvalidValue(index, value));
            }
          }
          vals[index] := Some(value);
        } else {
          indexes := indexes + [index];
        }
        idx := idx + 1;
      }
      if indexes == [] {
        var rv := impl.Apply(vals[..]);
        if checkTypes {
          if !Test(h, sig.ret, rv) {
            return Err(ReturnFailure(sig, rv));
          }
          var s := m.SatisfactoryTypes(h, env, sig.constraints, sig.ret, rv, Return);
          if s.Err? {
            return Err(s.error);
          }
        }
        return Ok(Returned(rv));
      }
      CallKeepsValid(h, env, sig, checkTypes, values, typeVars.entries, pending, args);
      var next := new Curried(sig, m, vals[..], indexes, impl);
      return Ok(Partial(next));
    }
  }

  /** `def(name, constraints, expTypes, impl)`: arity above nine is a range error
      whatever `checkTypes` says; with `checkTypes` every type of the signature must
      be in the environment; then a curried function with every position pending. */
  method Def(env: seq<Type>, checkTypes: bool, name: string, constraints: Constraints,
             expTypes: seq<Type>, impl: Implementation) returns (r: Result<Curried, Failure>)
    requires |expTypes| >= 1
    ensures |expTypes| - 1 > 9 ==> r == Err(ArityTooLarge)
    ensures |expTypes| - 1 <= 9 && checkTypes && FirstMissing(env, expTypes).Some? ==>
      r == Err(NotInEnvironment(FirstMissing(env, expTypes).value))
    ensures r.Err? ==> |expTypes| - 1 > 9 || (checkTypes && FirstMissing(env, expTypes).Some?)
    ensures r.Ok? ==>
      && fresh(r.value) && fresh(r.value.typeVars) && r.value.typeVars.entries == map[]
      && r.value.sig == Signature(name, constraints, expTypes[..|expTypes| - 1], expTypes[|expTypes| - 1])
      && r.value.values == seq(|expTypes| - 1, i => None)
      && r.value.pending == Interval(0, |expTypes| - 1)
      && r.value.impl == impl
      && r.value.Valid()
  {
    var expArgTypes := expTypes[..|expTypes| - 1];
    var arity := |expArgTypes|;
    if arity > 9 {
      return Err(ArityTooLarge);
    }
    if checkTypes {
      var missing := AssertInEnvironment(env, expTypes);
      if missing.Some? {
        return Err(NotInEnvironment(missing.value));
      }
    }
    var m := new TypeVarMap.Empty();
    var indexes := Range(0, arity);
    IntervalShape(0, arity);
    assert |indexes| == arity;
    assert forall i :: 0 <= i < arity ==> indexes[i] == i;
    forall i | 0 <= i < arity ensures i in indexes {
      assert indexes[i] == i;
    }
    var c := new Curried(Signature(name, constraints, expArgTypes, expTypes[|expTypes| - 1]), m,
                         seq(arity, i => None), indexes, impl);
    return Ok(c);
  }
}
