/** What index.js borrows from the JavaScript runtime, as abstract functions
    over an abstract `Value`. Nothing here inspects a value: the type checker
    only ever asks these questions about one. */
module Hosts {
  import opened Wrappers

  /** A JavaScript value, left opaque. */
  type Value(==, !new)

  /** The runtime's answers about values.
      - `typeId`: `$$type`, the value's `'@@type'` string or its `Object.prototype.toString` tag;
      - `show`: the canonical text `show` gives a value (used by `EnumType` membership);
      - `test(key, x)`: the predicate a `NullaryType`/`UnaryType`/`BinaryType` was built with;
      - `child1(name, x)`, `child2(name, x)`: the extractors `_1`/`_2` of the container type `name`;
      - `isNullish`: `x == null`; `prop(x, k)`: the own property `k` of `x`, if any;
      - `classTest(name, x)`: the test of the type class `name`;
      - `depth`: a rank that every extracted child lies below (values are finite trees). */
  datatype Runtime = Runtime(
    typeId: Value -> string,
    show: Value -> string,
    test: (string, Value) -> bool,
    child1: (string, Value) -> seq<Value>,
    child2: (string, Value) -> seq<Value>,
    isNullish: Value -> bool,
    prop: (Value, string) -> Option<Value>,
    classTest: (string, Value) -> bool,
    depth: Value -> nat)
  {
    /** Extracting children always goes down: no value contains itself. */
    ghost predicate WellFounded() {
      && (forall k, x, c :: c in child1(k, x) ==> depth(c) < depth(x))
      && (forall k, x, c :: c in child2(k, x) ==> depth(c) < depth(x))
    }
  }

  type Host = r: Runtime | r.WellFounded()
    witness Runtime(x => "", x => "", (k, x) => false, (k, x) => [], (k, x) => [],
                    x => false, (x, k) => None, (k, x) => false, x => 0)

  /** `1 +` the largest depth among `xs`, and 0 for no values: the measure inference recurses on. */
  function Rank(h: Host, xs: seq<Value>): nat {
    if xs == [] then 0
    else
      var rest := Rank(h, xs[1..]);
      if rest <= h.depth(xs[0]) then 1 + h.depth(xs[0]) else rest
  }

  lemma {:induction false} RankBound(h: Host, xs: seq<Value>, d: nat)
    requires forall c :: c in xs ==> h.depth(c) < d
    ensures Rank(h, xs) <= d
  {
    if xs != [] {
      RankBound(h, xs[1..], d);
    }
  }

  lemma {:induction false} RankTail(h: Host, xs: seq<Value>)
    requires xs != []
    ensures Rank(h, xs[1..]) <= Rank(h, xs)
    ensures 1 + h.depth(xs[0]) <= Rank(h, xs)
  {
  }
}
