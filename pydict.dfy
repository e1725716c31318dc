/**
 Python's built-in `dict`, as far as `ExpiringDict` relies on it: assignment,
 deletion that can raise `KeyError`, lookup with a default, length and
 iteration. A dict iterates its keys in the order in which they were first
 inserted: assigning to a key that is present keeps its place, a new key goes
 last, and deleting a key closes the gap without reordering the others.

 A `Dict` holds that order (`keys`) beside the key-to-value mapping
 (`entries`); `Valid` says the two describe the same keys, each once.
 */
module PyDict {
  import opened Wrappers

  datatype Dict<K, V> = Dict(keys: seq<K>, entries: map<K, V>)

  /** No key occurs twice in `s`. */
  ghost predicate Distinct<K>(s: seq<K>) {
    forall i, j :: 0 <= i < j < |s| ==> s[i] != s[j]
  }

  ghost predicate Valid<K, V>(d: Dict<K, V>) {
    && Distinct(d.keys)
    && (forall i :: 0 <= i < |d.keys| ==> d.keys[i] in d.entries)
    && (forall k :: k in d.entries ==> k in d.keys)
  }

  /** The position of the first occurrence of `k` in `s`. */
  function IndexOf<K(==)>(s: seq<K>, k: K): (i: nat)
    requires k in s
    ensures i < |s| && s[i] == k
    ensures k !in s[..i]
  {
    if s[0] == k then 0 else 1 + IndexOf(s[1..], k)
  }

  /** `dict()` */
  function Empty<K, V>(): (d: Dict<K, V>)
    ensures Valid(d)
    ensures d.entries == map[] && |d.keys| == 0
  {
    Dict([], map[])
  }

  /** `d[k] = v`: `k` maps to `v`; a key already present keeps its place in
      the iteration order, a new key is appended. */
  function Set<K(==), V>(d: Dict<K, V>, k: K, v: V): (r: Dict<K, V>)
    requires Valid(d)
    ensures Valid(r)
    ensures r.entries == d.entries[k := v]
    ensures |r.keys| == |d.keys| + (if k in d.entries then 0 else 1)
    ensures forall i :: 0 <= i < |d.keys| ==> r.keys[i] == d.keys[i]
    ensures k !in d.entries ==> r.keys[|d.keys|] == k
  {
    if k in d.entries then Dict(d.keys, d.entries[k := v])
    else Dict(d.keys + [k], d.entries[k := v])
  }

  /** `del d[k]`: `None` stands for the `KeyError` raised on a missing key;
      otherwise `k` is gone and every other key keeps its value. */
  function Delete<K(==), V>(d: Dict<K, V>, k: K): (r: Option<Dict<K, V>>)
    requires Valid(d)
    ensures r.None? <==> k !in d.entries
    ensures r.Some? ==> Valid(r.value)
    ensures r.Some? ==> r.value.entries == d.entries - {k}
    ensures r.Some? ==> |r.value.keys| == |d.keys| - 1
  {
    if k !in d.entries then None
    else
      var i := IndexOf(d.keys, k);
      SpliceMembers(d.keys, i);
      Some(Dict(d.keys[..i] + d.keys[i + 1..], d.entries - {k}))
  }

  /** `d.get(k, default)` */
  function Get<K(==), V>(d: Dict<K, V>, k: K, default: V): (v: V)
    requires Valid(d)
    ensures k in d.keys ==> v == d.entries[k]
    ensures k !in d.keys ==> v == default
  {
    if k in d.entries then d.entries[k] else default
  }

  /** `len(d)`: the number of keys. */
  function Len<K, V>(d: Dict<K, V>): (n: nat)
    requires Valid(d)
    ensures n == |d.entries|
  {
    LenIsSize(d);
    |d.keys|
  }

  /** `list(d.values())`: the values in key order. */
  function Values<K, V>(d: Dict<K, V>): (vs: seq<V>)
    requires Valid(d)
    ensures |vs| == |d.keys|
    ensures forall i :: 0 <= i < |vs| ==> d.keys[i] in d.entries && vs[i] == d.entries[d.keys[i]]
  {
    seq(|d.keys|, i requires 0 <= i < |d.keys| => d.entries[d.keys[i]])
  }

  /** `list(d.items())`: the key-value pairs in key order. */
  function Items<K, V>(d: Dict<K, V>): (ps: seq<(K, V)>)
    requires Valid(d)
    ensures |ps| == |d.keys|
    ensures forall i :: 0 <= i < |ps| ==> ps[i].0 == d.keys[i] && ps[i].1 == Values(d)[i]
  {
    seq(|d.keys|, i requires 0 <= i < |d.keys| => (d.keys[i], d.entries[d.keys[i]]))
  }

  /** The dict built by assigning the pairs of `ops` one after the other to
      `dict()`. */
  function FromAssignments<K(==), V>(ops: seq<(K, V)>): (d: Dict<K, V>)
    ensures Valid(d)
  {
    if ops == [] then Empty()
    else Set(FromAssignments(ops[..|ops| - 1]), ops[|ops| - 1].0, ops[|ops| - 1].1)
  }

  // ---------------------------------------------------------------------
  // Lemmas

  /** Removing the element at position `i` keeps every other element and,
      when the elements are distinct, keeps them distinct. */
  lemma SpliceMembers<K>(s: seq<K>, i: nat)
    requires i < |s|
    requires Distinct(s)
    ensures Distinct(s[..i] + s[i + 1..])
    ensures forall x :: x in s[..i] + s[i + 1..] <==> x in s && x != s[i]
  {
    var t := s[..i] + s[i + 1..];
    assert forall j :: 0 <= j < |t| ==> t[j] == if j < i then s[j] else s[j + 1];
    forall x | x in s && x != s[i] ensures x in t {
      var j :| 0 <= j < |s| && s[j] == x;
      assert t[if j < i then j else j - 1] == x;
    }
  }

  /** A sequence without repetitions has as many distinct elements as it has
      positions. */
  lemma {:induction false} DistinctCard<K>(s: seq<K>)
    requires Distinct(s)
    ensures |(set x | x in s)| == |s|
  {
    if s != [] {
      var rest := s[1..];
      assert Distinct(rest) by {
        forall i, j | 0 <= i < j < |rest| ensures rest[i] != rest[j] {
          assert rest[i] == s[i + 1] && rest[j] == s[j + 1];
        }
      }
      DistinctCard(rest);
      assert s[0] !in rest by {
        forall j | 0 <= j < |rest| ensures rest[j] != s[0] {
          assert rest[j] == s[j + 1];
        }
      }
      assert (set x | x in s) == {s[0]} + (set x | x in rest) by {
        assert s == [s[0]] + rest;
      }
    }
  }

  /** The length of a dict, counted on its iteration order, is the number of
      keys it maps. */
  lemma LenIsSize<K, V>(d: Dict<K, V>)
    requires Valid(d)
    ensures |d.keys| == |d.entries|
  {
    DistinctCard(d.keys);
    assert (set x | x in d.keys) == d.entries.Keys;
  }

  /** After `d[k] = v`, reading `k` gives `v` and every other key reads as
      before. */
  lemma SetLookup<K, V>(d: Dict<K, V>, k: K, v: V, other: K)
    requires Valid(d)
    ensures k in Set(d, k, v).keys && Set(d, k, v).entries[k] == v
    ensures other != k ==>
      (other in Set(d, k, v).keys <==> other in d.keys) &&
      (other in d.keys ==> Set(d, k, v).entries[other] == d.entries[other])
  {
  }

  /** Deleting `k` closes its gap in the iteration order: a key that came
      before `k` keeps its position, a key that came after moves up by one. */
  lemma {:induction false} DeleteShiftsLaterKeys<K, V>(d: Dict<K, V>, k: K, x: K)
    requires Valid(d)
    requires k in d.entries && x in d.entries && x != k
    ensures var r := Delete(d, k).value;
      x in r.keys &&
      IndexOf(r.keys, x) == if IndexOf(d.keys, x) < IndexOf(d.keys, k)
                            then IndexOf(d.keys, x) else IndexOf(d.keys, x) - 1
  {
    var r := Delete(d, k).value;
    var i, p := IndexOf(d.keys, k), IndexOf(d.keys, x);
    assert i != p;
    var q := if p < i then p else p - 1;
    assert r.keys[q] == x;
    IndexOfUnique(r.keys, x, q);
  }

  /** In a sequence without repetitions, the position of an element is the
      only one holding it. */
  lemma IndexOfUnique<K>(s: seq<K>, x: K, q: nat)
    requires Distinct(s)
    requires q < |s| && s[q] == x
    ensures IndexOf(s, x) == q
  {
    var p := IndexOf(s, x);
    assert s[p] == s[q];
  }

  /** Deleting a key keeps the relative order of the remaining keys. */
  lemma DeleteKeepsOrder<K, V>(d: Dict<K, V>, k: K, x: K, y: K)
    requires Valid(d)
    requires k in d.entries && x in d.entries && y in d.entries && x != k && y != k
    ensures var r := Delete(d, k).value;
      x in r.keys && y in r.keys &&
      (IndexOf(r.keys, x) < IndexOf(r.keys, y) <==> IndexOf(d.keys, x) < IndexOf(d.keys, y))
  {
    DeleteShiftsLaterKeys(d, k, x);
    DeleteShiftsLaterKeys(d, k, y);
    if IndexOf(d.keys, x) == IndexOf(d.keys, y) {
      assert x == y;
    }
  }

  /** Deleting a key and assigning it again moves it to the end of the
      iteration order. */
  lemma DeleteThenSetMovesLast<K, V>(d: Dict<K, V>, k: K, v: V)
    requires Valid(d) && k in d.entries
    ensures var r := Set(Delete(d, k).value, k, v);
      |r.keys| == |d.keys| && r.keys[|r.keys| - 1] == k
  {
  }

  /** Assigning pairs with distinct keys to an empty dict iterates the keys,
      the values and the items in the order of the assignments. */
  lemma {:induction false} AssignmentOrder<K, V>(ops: seq<(K, V)>)
    requires forall i, j :: 0 <= i < j < |ops| ==> ops[i].0 != ops[j].0
    ensures var d := FromAssignments(ops);
      |d.keys| == |ops| &&
      (forall i :: 0 <= i < |ops| ==> d.keys[i] == ops[i].0) &&
      Items(d) == ops
  {
    if ops != [] {
      var init := ops[..|ops| - 1];
      var last := ops[|ops| - 1];
      AssignmentOrder(init);
      var d0 := FromAssignments(init);
      assert last.0 !in d0.keys by {
        forall i | 0 <= i < |d0.keys| ensures d0.keys[i] != last.0 {
          assert d0.keys[i] == ops[i].0;
        }
      }
      var d := FromAssignments(ops);
      assert d == Set(d0, last.0, last.1);
      forall i | 0 <= i < |ops| ensures Items(d)[i] == ops[i] {
        if i < |init| {
          assert Items(d0)[i] == init[i];
          assert d.entries[d.keys[i]] == d0.entries[d0.keys[i]];
        }
      }
    }
  }
}
