/**
  JavaScript values and plain objects, as far as the spreadsheet pipeline uses them.

  A cell value is `null` or a string (numbers and booleans coming from the sheet are not
  modelled). A plain object is an association list of (key, value) pairs in insertion order,
  which is the order `Object.keys` reports for non-integer keys. A read of an absent key
  (`undefined`) is modelled as `Null`: both are falsy, and every read in the core is combined
  with `||`.
*/
module JsObjects {
  import opened JsArrays

  datatype Value = Null | Str(s: string)

  /** JavaScript truthiness: `null` and the empty string are falsy. */
  predicate Truthy(v: Value) {
    v.Str? && v.s != ""
  }

  /** `a || b` on two values. */
  function Or(a: Value, b: Value): Value {
    if Truthy(a) then a else b
  }

  type Record = seq<(string, Value)>

  /** `Object.keys(obj)`. */
  function Keys(obj: Record): (ks: seq<string>)
    ensures |ks| == |obj|
    ensures forall i :: 0 <= i < |obj| ==> ks[i] == obj[i].0
  {
    seq(|obj|, i requires 0 <= i < |obj| => obj[i].0)
  }

  /** A JavaScript object never holds one key twice. */
  ghost predicate DistinctKeys(obj: Record) {
    forall i, j :: 0 <= i < j < |obj| ==> obj[i].0 != obj[j].0
  }

  /** Position of key `k` in `obj` at or after `from`, or `|obj|` when it is absent there. */
  function IndexOfKeyFrom(obj: Record, k: string, from: nat): (i: nat)
    requires from <= |obj|
    ensures from <= i <= |obj|
    ensures i < |obj| ==> obj[i].0 == k
    ensures forall j :: from <= j < i ==> obj[j].0 != k
    decreases |obj| - from
  {
    if from == |obj| then from
    else if obj[from].0 == k then from
    else IndexOfKeyFrom(obj, k, from + 1)
  }

  /** Position of key `k` in `obj`, or `|obj|` when it is absent. */
  function IndexOfKey(obj: Record, k: string): (i: nat)
    ensures i <= |obj|
    ensures i < |obj| ==> obj[i].0 == k
    ensures forall j :: 0 <= j < i ==> obj[j].0 != k
  {
    IndexOfKeyFrom(obj, k, 0)
  }

  /** `obj[k]`, reading `undefined` (here `Null`) when `k` is absent. */
  function Get(obj: Record, k: string): (v: Value)
    ensures (forall i :: 0 <= i < |obj| ==> obj[i].0 != k) ==> v == Null
  {
    var i := IndexOfKey(obj, k);
    if i < |obj| then obj[i].1 else Null
  }

  /**
    `obj[k] = v`: a key that is already present keeps its slot and takes the new value,
    a new key is appended.
  */
  function Assign(obj: Record, k: string, v: Value): (r: Record)
    ensures IndexOfKey(obj, k) == |obj| ==> r == obj + [(k, v)]
    ensures IndexOfKey(obj, k) < |obj| ==>
      |r| == |obj| && r[IndexOfKey(obj, k)] == (k, v) &&
      forall j :: 0 <= j < |obj| && j != IndexOfKey(obj, k) ==> r[j] == obj[j]
  {
    var i := IndexOfKey(obj, k);
    if i == |obj| then obj + [(k, v)] else obj[i := (k, v)]
  }

  /** A key no entry carries is not found. */
  lemma AbsentKey(obj: Record, k: string)
    requires forall j :: 0 <= j < |obj| ==> obj[j].0 != k
    ensures IndexOfKey(obj, k) == |obj|
  {
  }

  /** In an object, reading the key at position `i` gives the value at position `i`. */
  lemma GetKeyAt(obj: Record, i: nat)
    requires DistinctKeys(obj)
    requires i < |obj|
    ensures Get(obj, Keys(obj)[i]) == obj[i].1
  {
    KeyAt(obj, i);
  }

  /** In an object, the key at position `i` is found at position `i`. */
  lemma KeyAt(obj: Record, i: nat)
    requires DistinctKeys(obj)
    requires i < |obj|
    ensures IndexOfKey(obj, obj[i].0) == i
  {
  }

  /** Assignment keeps keys distinct, reads back what was written and leaves other keys alone. */
  lemma AssignGet(obj: Record, k: string, v: Value, k': string)
    requires DistinctKeys(obj)
    ensures DistinctKeys(Assign(obj, k, v))
    ensures Get(Assign(obj, k, v), k) == v
    ensures k' != k ==> Get(Assign(obj, k, v), k') == Get(obj, k')
  {
    var r := Assign(obj, k, v);
    var i := IndexOfKey(obj, k);
    assert DistinctKeys(r) by {
      forall a, b | 0 <= a < b < |r| ensures r[a].0 != r[b].0 {
        if i == |obj| {
          if b == |obj| {
            assert r[b].0 == k && r[a] == obj[a];
          }
        } else if a == i {
          assert r[b] == obj[b];
        } else if b == i {
          assert r[a] == obj[a];
        } else {
          assert r[a] == obj[a] && r[b] == obj[b];
        }
      }
    }
    GetByIndex(r, IndexOfKey(obj, k) as int, k);
    if k' != k {
      var j := IndexOfKey(obj, k');
      GetByIndex(obj, j, k');
      GetByIndex(r, if j < |obj| then j else |r|, k');
    }
  }

  /** `Get` finds the first slot holding the key. */
  lemma GetByIndex(obj: Record, i: int, k: string)
    requires 0 <= i <= |obj|
    requires i < |obj| ==> obj[i].0 == k
    requires forall j :: 0 <= j < i ==> obj[j].0 != k
    ensures Get(obj, k) == if i < |obj| then obj[i].1 else Null
  {
  }

  /** `{}` after `obj[keys[i]] = vals[i]` for `i` from 0 up to `n - 1`, in that order. */
  function AssignEach(keys: seq<string>, vals: seq<Value>, n: nat): Record
    requires n <= |keys| && n <= |vals|
  {
    if n == 0 then [] else Assign(AssignEach(keys, vals, n - 1), keys[n - 1], vals[n - 1])
  }

  /** The objects built by successive assignments never hold a key twice. */
  lemma {:induction false} AssignEachDistinct(keys: seq<string>, vals: seq<Value>, n: nat)
    requires n <= |keys| && n <= |vals|
    ensures DistinctKeys(AssignEach(keys, vals, n))
  {
    if n > 0 {
      AssignEachDistinct(keys, vals, n - 1);
      AssignGet(AssignEach(keys, vals, n - 1), keys[n - 1], vals[n - 1], "");
    }
  }

  /** The last assignment to a key wins: reading `keys[i]` gives `vals[i]` when no later key is the same. */
  lemma {:induction false} AssignEachGet(keys: seq<string>, vals: seq<Value>, i: nat, n: nat)
    requires i < n <= |keys| && n <= |vals|
    requires forall j :: i < j < n ==> keys[j] != keys[i]
    ensures Get(AssignEach(keys, vals, n), keys[i]) == vals[i]
  {
    AssignEachDistinct(keys, vals, n - 1);
    AssignGet(AssignEach(keys, vals, n - 1), keys[n - 1], vals[n - 1], keys[i]);
    if i < n - 1 {
      AssignEachGet(keys, vals, i, n - 1);
    }
  }

  /** With distinct keys, the assignments append one entry each, in order. */
  lemma {:induction false} AssignEachInOrder(keys: seq<string>, vals: seq<Value>, n: nat)
    requires n <= |keys| && n <= |vals|
    requires forall m :: 0 <= m < |keys| ==> FirstIndex(keys, keys[m]) == m
    ensures var obj := AssignEach(keys, vals, n);
      |obj| == n && forall j :: 0 <= j < n ==> obj[j] == (keys[j], vals[j])
  {
    if n > 0 {
      AssignEachInOrder(keys, vals, n - 1);
      FreshLast(keys, n);
      AbsentKey(AssignEach(keys, vals, n - 1), keys[n - 1]);
    }
  }

  /** When every element is its own first occurrence, the `n`-th key differs from all before it. */
  lemma FreshLast(keys: seq<string>, n: nat)
    requires 0 < n <= |keys|
    requires forall m :: 0 <= m < |keys| ==> FirstIndex(keys, keys[m]) == m
    ensures forall j :: 0 <= j < n - 1 ==> keys[j] != keys[n - 1]
  {
  }
}
