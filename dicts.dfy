/** Strings and the plain JavaScript objects index.js uses as dictionaries:
    the order `<` on strings that `Array.prototype.sort` applies, `keys`
    (own keys, sorted), assignment `obj[k] = v`, and the two string helpers
    `stripNamespace` and `join` that canonical type names are built from. */
module Dicts {

  // ---------------------------------------------------------------------
  // String order
  // ---------------------------------------------------------------------

  /** `a < b` on strings: lexicographic by character, a proper prefix first. */
  predicate Below(a: string, b: string)
    decreases |a|
  {
    |b| > 0 && (|a| == 0 || a[0] < b[0] || (a[0] == b[0] && Below(a[1..], b[1..])))
  }

  lemma {:induction false} BelowIrreflexive(a: string)
    ensures !Below(a, a)
    decreases |a|
  {
    if |a| > 0 {
      BelowIrreflexive(a[1..]);
    }
  }

  lemma {:induction false} BelowTransitive(a: string, b: string, c: string)
    requires Below(a, b) && Below(b, c)
    ensures Below(a, c)
    decreases |a|
  {
    if |a| > 0 && a[0] == b[0] && b[0] == c[0] {
      BelowTransitive(a[1..], b[1..], c[1..]);
    }
  }

  lemma {:induction false} BelowTotal(a: string, b: string)
    requires a != b
    ensures Below(a, b) || Below(b, a)
    decreases |a|
  {
    if |a| > 0 && |b| > 0 && a[0] == b[0] {
      assert a == [a[0]] + a[1..] && b == [b[0]] + b[1..];
      BelowTotal(a[1..], b[1..]);
    }
  }

  ghost predicate StrictlySorted(s: seq<string>) {
    forall i, j :: 0 <= i < j < |s| ==> Below(s[i], s[j])
  }

  // ---------------------------------------------------------------------
  // Sorting, as `Array.prototype.sort` does on a list of keys
  // ---------------------------------------------------------------------

  function Insert(k: string, s: seq<string>): (r: seq<string>)
  {
    if s == [] then [k]
    else if Below(k, s[0]) then [k] + s
    else [s[0]] + Insert(k, s[1..])
  }

  function Sort(s: seq<string>): (r: seq<string>)
  {
    if s == [] then [] else Insert(s[0], Sort(s[1..]))
  }

  lemma {:induction false} InsertFacts(k: string, s: seq<string>)
    requires StrictlySorted(s)
    requires k !in s
    ensures multiset(Insert(k, s)) == multiset(s) + multiset{k}
    ensures StrictlySorted(Insert(k, s))
  {
    if s != [] && !Below(k, s[0]) {
      assert k != s[0];
      BelowTotal(k, s[0]);
      InsertFacts(k, s[1..]);
      assert s == [s[0]] + s[1..];
      var r := Insert(k, s);
      assert r == [s[0]] + Insert(k, s[1..]);
      forall j | 0 < j < |r|
        ensures Below(r[0], r[j])
      {
        assert r[j] in multiset(Insert(k, s[1..]));
        assert r[j] == k || r[j] in s[1..];
      }
    } else if s != [] {
      forall j | 0 < j < |s|
        ensures Below(k, s[j])
      {
        BelowTransitive(k, s[0], s[j]);
      }
    }
  }

  /** Sorting distinct keys gives them in strictly increasing order, all of them and no others. */
  lemma {:induction false} SortFacts(s: seq<string>)
    requires forall i, j :: 0 <= i < j < |s| ==> s[i] != s[j]
    ensures multiset(Sort(s)) == multiset(s)
    ensures StrictlySorted(Sort(s))
  {
    if s != [] {
      SortFacts(s[1..]);
      assert s[0] !in s[1..];
      assert s[0] !in Sort(s[1..]) by {
        assert multiset(Sort(s[1..]))[s[0]] == multiset(s[1..])[s[0]];
      }
      InsertFacts(s[0], Sort(s[1..]));
      assert s == [s[0]] + s[1..];
    }
  }

  // ---------------------------------------------------------------------
  // Dictionaries: a plain object as the list of its own entries
  // ---------------------------------------------------------------------

  datatype Entry<T> = Entry(key: string, val: T)

  function KeysOf<T>(d: seq<Entry<T>>): (r: seq<string>)
    ensures |r| == |d|
    ensures forall i :: 0 <= i < |d| ==> r[i] == d[i].key
  {
    if d == [] then [] else [d[0].key] + KeysOf(d[1..])
  }

  /** A JavaScript object never has the same own key twice. */
  ghost predicate DistinctKeys<T>(d: seq<Entry<T>>) {
    forall i, j :: 0 <= i < j < |d| ==> d[i].key != d[j].key
  }

  /** `obj[k]` for an own key `k`: the value of the first entry with that key. */
  function ValueOf<T>(d: seq<Entry<T>>, k: string): T
    requires k in KeysOf(d)
  {
    if d[0].key == k then d[0].val else ValueOf(d[1..], k)
  }

  /** `obj[k] = v`: overwrites the entry of an existing key in place, else adds the key last. */
  function Put<T>(d: seq<Entry<T>>, k: string, v: T): (r: seq<Entry<T>>)
  {
    if d == [] then [Entry(k, v)]
    else if d[0].key == k then [Entry(k, v)] + d[1..]
    else [d[0]] + Put(d[1..], k, v)
  }

  /** `keys(obj)`, the function: the own keys of `obj`, sorted. */
  function SortedKeys<T>(d: seq<Entry<T>>): seq<string> {
    Sort(KeysOf(d))
  }

  /** `keys` lists every own key once, in increasing order. */
  lemma SortedKeysFacts<T>(d: seq<Entry<T>>)
    requires DistinctKeys(d)
    ensures StrictlySorted(SortedKeys(d))
    ensures forall k :: k in SortedKeys(d) <==> k in KeysOf(d)
    ensures |SortedKeys(d)| == |d|
  {
    SortFacts(KeysOf(d));
    assert forall k :: k in SortedKeys(d) <==> k in multiset(KeysOf(d));
    assert |multiset(SortedKeys(d))| == |multiset(KeysOf(d))|;
  }

  /** `keys`: pushes every own key of `obj`, then sorts them. */
  method Keys<T>(obj: seq<Entry<T>>) returns (result: seq<string>)
    ensures result == SortedKeys(obj)
    ensures DistinctKeys(obj) ==> StrictlySorted(result)
    ensures DistinctKeys(obj) ==> forall k :: k in result <==> k in KeysOf(obj)
  {
    result := [];
    var idx := 0;
    while idx < |obj|
      invariant 0 <= idx <= |obj|
      invariant result == KeysOf(obj)[..idx]
    {
      result := result + [obj[idx].key];
      idx := idx + 1;
    }
    assert result == KeysOf(obj);
    result := Sort(result);
    if DistinctKeys(obj) {
      SortedKeysFacts(obj);
    }
  }

  /** `map(keys(obj), k => obj[k])`: the values of `obj` in the order of its sorted keys. */
  function SortedValues<T>(d: seq<Entry<T>>): (r: seq<T>)
    ensures |r| == |SortedKeys(d)|
    ensures forall i :: 0 <= i < |r| ==> SortedKeys(d)[i] in KeysOf(d) && r[i] == ValueOf(d, SortedKeys(d)[i])
  {
    var ks := SortedKeys(d);
    SortKeepsMembers(KeysOf(d));
    seq(|ks|, i requires 0 <= i < |ks| => ValueOf(d, ks[i]))
  }

  /** The sorted values are exactly the values stored under the own keys. */
  lemma SortedValuesMembers<T>(d: seq<Entry<T>>)
    requires DistinctKeys(d)
    ensures forall c :: c in SortedValues(d) <==> exists k :: k in KeysOf(d) && ValueOf(d, k) == c
  {
    SortedKeysFacts(d);
    var ks := SortedKeys(d);
    forall c ensures (exists k :: k in KeysOf(d) && ValueOf(d, k) == c) ==> c in SortedValues(d) {
      if k :| k in KeysOf(d) && ValueOf(d, k) == c {
        var i :| 0 <= i < |ks| && ks[i] == k;
        assert SortedValues(d)[i] == c;
      }
    }
  }

  /** `obj[k] = v` adds `k` to the keys, stores `v` under it, and keeps every other key's value. */
  lemma {:induction false} PutFacts<T>(d: seq<Entry<T>>, k: string, v: T)
    ensures forall x :: x in KeysOf(Put(d, k, v)) <==> x == k || x in KeysOf(d)
    ensures ValueOf(Put(d, k, v), k) == v
    ensures forall x :: x != k && x in KeysOf(d) ==> ValueOf(Put(d, k, v), x) == ValueOf(d, x)
    ensures DistinctKeys(d) ==> DistinctKeys(Put(d, k, v))
  {
    if d != [] && d[0].key != k {
      PutFacts(d[1..], k, v);
      var r := Put(d, k, v);
      assert r[1..] == Put(d[1..], k, v);
      assert KeysOf(r) == [d[0].key] + KeysOf(r[1..]);
      assert KeysOf(d) == [d[0].key] + KeysOf(d[1..]);
      if DistinctKeys(d) {
        assert DistinctKeys(d[1..]) by {
          forall i, j | 0 <= i < j < |d[1..]| ensures d[1..][i].key != d[1..][j].key {
            assert d[1..][i] == d[i + 1] && d[1..][j] == d[j + 1];
          }
        }
        forall i, j | 0 <= i < j < |r| ensures r[i].key != r[j].key {
          if i == 0 {
            assert r[j].key == KeysOf(r[1..])[j - 1];
            assert d[0].key !in KeysOf(d[1..]) by {
              forall m | 0 <= m < |d[1..]| ensures KeysOf(d[1..])[m] != d[0].key {
                assert d[1..][m] == d[m + 1];
              }
            }
          } else {
            assert r[i] == r[1..][i - 1] && r[j] == r[1..][j - 1];
          }
        }
      }
    } else if d != [] {
      var r := Put(d, k, v);
      assert KeysOf(r) == [k] + KeysOf(d[1..]);
      assert KeysOf(d) == [k] + KeysOf(d[1..]);
      if DistinctKeys(d) {
        forall i, j | 0 <= i < j < |r| ensures r[i].key != r[j].key {
          assert r[j] == d[j];
          if i > 0 { assert r[i] == d[i]; }
        }
      }
    }
  }

  lemma {:induction false} SortKeepsMembers(s: seq<string>)
    ensures forall k :: k in Sort(s) ==> k in s
  {
    if s != [] {
      SortKeepsMembers(s[1..]);
      InsertKeepsMembers(s[0], Sort(s[1..]));
    }
  }

  lemma {:induction false} InsertKeepsMembers(k: string, s: seq<string>)
    ensures forall x :: x in Insert(k, s) ==> x == k || x in s
  {
    if s != [] && !Below(k, s[0]) {
      InsertKeepsMembers(k, s[1..]);
    }
  }

  // ---------------------------------------------------------------------
  // String helpers
  // ---------------------------------------------------------------------

  /** `s.indexOf(c)`: the first position of `c` in `s`, or -1. */
  function IndexOf(s: string, c: char): (r: int)
    ensures -1 <= r < |s|
    ensures r == -1 <==> c !in s
    ensures r >= 0 ==> s[r] == c && c !in s[..r]
  {
    if s == [] then -1
    else if s[0] == c then 0
    else
      var r := IndexOf(s[1..], c);
      if r == -1 then -1 else (assert s[..r + 1] == [s[0]] + s[1..][..r]; r + 1)
  }

  /** `stripNamespace`: drops everything up to and including the first `/`. */
  function StripNamespace(s: string): (r: string)
    ensures '/' !in s ==> r == s
    ensures '/' in s ==> exists i :: 0 <= i < |s| && s[i] == '/' && '/' !in s[..i] && r == s[i + 1..]
  {
    s[IndexOf(s, '/') + 1..]
  }

  /** `xs.join(sep)`. */
  function Join(xs: seq<string>, sep: string): string {
    if xs == [] then "" else if |xs| == 1 then xs[0] else xs[0] + sep + Join(xs[1..], sep)
  }
}
