/**
 * A JavaScript ordinary object used as a dictionary from integer keys to
 * values (`const collections = {}` in server.js), and the order in which
 * `Object.values` enumerates it.
 *
 * Property keys are strings; an integer key `k` becomes the string of `k`.
 * Keys that are array indices (0 <= k <= 2^32 - 2) are enumerated first,
 * in ascending numeric order; all other keys (negative ones, and ones of
 * 2^32 - 1 and above) follow in the order they were first added.
 */
module JsObject {
  import opened Sequences

  /** The largest array index: 2^32 - 2. */
  const MaxArrayIndex: int := 0xFFFF_FFFE

  predicate IsArrayIndex(k: int) {
    0 <= k <= MaxArrayIndex
  }

  /** The array-index keys, in the order given. */
  function IndexKeys(keys: seq<int>): (r: seq<int>)
    ensures forall x :: x in r ==> IsArrayIndex(x) && x in keys
  {
    if keys == [] then []
    else if IsArrayIndex(keys[0]) then [keys[0]] + IndexKeys(keys[1..])
    else IndexKeys(keys[1..])
  }

  /** The keys that are not array indices, in the order given. */
  function OtherKeys(keys: seq<int>): (r: seq<int>)
    ensures forall x :: x in r ==> !IsArrayIndex(x) && x in keys
  {
    if keys == [] then []
    else if IsArrayIndex(keys[0]) then OtherKeys(keys[1..])
    else [keys[0]] + OtherKeys(keys[1..])
  }

  /** Between them, the two kinds of key hold every key exactly as often as `keys` does. */
  lemma {:induction false} SplitKeys(keys: seq<int>)
    ensures multiset(IndexKeys(keys)) + multiset(OtherKeys(keys)) == multiset(keys)
    ensures Distinct(keys) ==> Distinct(IndexKeys(keys)) && Distinct(OtherKeys(keys))
  {
    if keys != [] {
      var rest := keys[1..];
      assert keys == [keys[0]] + rest;
      SplitKeys(rest);
      DistinctCons(keys[0], rest);
      DistinctCons(keys[0], IndexKeys(rest));
      DistinctCons(keys[0], OtherKeys(rest));
    }
  }

  /** Inserts a new key into an ascending sequence of keys. */
  function InsertAscending(x: int, s: seq<int>): (r: seq<int>)
    requires Increasing(s) && x !in s
    ensures Increasing(r) && multiset(r) == multiset(s) + multiset{x}
  {
    if s == [] then [x]
    else if x < s[0] then
      IncreasingFirst(s);
      IncreasingAfter([x], s, x);
      [x] + s
    else
      IncreasingFirst(s);
      var rest := InsertAscending(x, s[1..]);
      InsertBehindFirst(x, s, rest);
      [s[0]] + rest
  }

  /** The step of `InsertAscending` that keeps the first key in front. */
  lemma InsertBehindFirst(x: int, s: seq<int>, rest: seq<int>)
    requires Increasing(s) && s != [] && s[0] < x
    requires Increasing(rest) && multiset(rest) == multiset(s[1..]) + multiset{x}
    ensures Increasing([s[0]] + rest) && multiset([s[0]] + rest) == multiset(s) + multiset{x}
  {
    IncreasingFirst(s);
    forall y | y in rest ensures s[0] < y {
      assert y in multiset(rest);
    }
    IncreasingAfter([s[0]], rest, s[0]);
  }

  /** The keys in ascending numeric order. */
  function SortAscending(s: seq<int>): (r: seq<int>)
    requires Distinct(s)
    ensures Increasing(r) && multiset(r) == multiset(s)
  {
    if s == [] then []
    else
      assert s == [s[0]] + s[1..];
      var rest := SortAscending(s[1..]);
      DistinctCons(s[0], s[1..]);
      assert s[0] !in multiset(rest);
      InsertAscending(s[0], rest)
  }

  /**
   * The order in which an object enumerates its own keys, given the order in
   * which they were added: array indices ascending, then the rest as added.
   * Every key comes out exactly once.
   */
  function PropertyOrder(keys: seq<int>): (r: seq<int>)
    requires Distinct(keys)
    ensures multiset(r) == multiset(keys) && |r| == |keys|
    ensures Distinct(r)
    ensures forall k :: k in r <==> k in keys
  {
    SplitKeys(keys);
    var index := SortAscending(IndexKeys(keys));
    var other := OtherKeys(keys);
    IncreasingIsDistinct(index);
    assert forall x :: x in index ==> IsArrayIndex(x) by {
      forall x | x in index ensures IsArrayIndex(x) {
        assert x in multiset(index);
      }
    }
    DistinctConcat(index, other);
    assert |index + other| == |multiset(index + other)|;
    assert forall k :: k in index + other <==> k in multiset(index + other);
    index + other
  }

  /** Keys added in ascending order, none negative, are enumerated in that same order. */
  lemma PropertyOrderOfAscending(keys: seq<int>)
    requires Increasing(keys) && forall k :: k in keys ==> 0 <= k
    ensures Distinct(keys) && PropertyOrder(keys) == keys
  {
    IncreasingIsDistinct(keys);
    assert IndicesFirst(keys) by {
      forall i, j | 0 <= i < j < |keys| && !IsArrayIndex(keys[i]) ensures !IsArrayIndex(keys[j]) {
        assert keys[i] in keys;
      }
    }
    SplitIndicesFirst(keys);
    var index := IndexKeys(keys);
    assert Increasing(index) by {
      forall i, j | 0 <= i < j < |index| ensures index[i] < index[j] {
        assert index[i] == keys[i] && index[j] == keys[j];
      }
    }
    SortAscendingFixed(index);
  }

  /** When every key is an array index, enumeration is in ascending numeric order. */
  lemma PropertyOrderOfIndices(keys: seq<int>)
    requires Distinct(keys) && forall k :: k in keys ==> IsArrayIndex(k)
    ensures Increasing(PropertyOrder(keys))
  {
    NoOtherKeys(keys);
  }

  /** No array index follows a key that is not one. */
  predicate IndicesFirst(keys: seq<int>) {
    forall i, j :: 0 <= i < j < |keys| && !IsArrayIndex(keys[i]) ==> !IsArrayIndex(keys[j])
  }

  /** When no array index follows a key that is not one, the two kinds of key split the sequence in two. */
  lemma {:induction false} SplitIndicesFirst(keys: seq<int>)
    requires IndicesFirst(keys)
    ensures IndexKeys(keys) + OtherKeys(keys) == keys
  {
    if keys != [] {
      IndicesFirstTail(keys);
      SplitIndicesFirst(keys[1..]);
      SplitStep(keys[0], keys[1..]);
      assert [keys[0]] + keys[1..] == keys;
    }
  }

  lemma IndicesFirstTail(keys: seq<int>)
    requires IndicesFirst(keys) && keys != []
    ensures IndicesFirst(keys[1..])
    ensures !IsArrayIndex(keys[0]) ==> forall i :: 0 <= i < |keys[1..]| ==> !IsArrayIndex(keys[1..][i])
  {
  }

  lemma SplitStep(k: int, rest: seq<int>)
    requires IndexKeys(rest) + OtherKeys(rest) == rest
    requires !IsArrayIndex(k) ==> forall i :: 0 <= i < |rest| ==> !IsArrayIndex(rest[i])
    ensures IndexKeys([k] + rest) + OtherKeys([k] + rest) == [k] + rest
  {
    KeysOfCons(k, rest);
    if IsArrayIndex(k) {
      ConsConcat(k, IndexKeys(rest), OtherKeys(rest), rest);
    } else {
      NoIndexKeys(rest);
      ConsConcat(k, [], OtherKeys(rest), rest);
    }
  }

  /** One step of `IndexKeys` and `OtherKeys`: the first key goes to one of the two. */
  lemma KeysOfCons(k: int, rest: seq<int>)
    ensures IndexKeys([k] + rest) == if IsArrayIndex(k) then [k] + IndexKeys(rest) else IndexKeys(rest)
    ensures OtherKeys([k] + rest) == if IsArrayIndex(k) then OtherKeys(rest) else [k] + OtherKeys(rest)
  {
  }

  lemma {:induction false} NoOtherKeys(keys: seq<int>)
    requires forall i :: 0 <= i < |keys| ==> IsArrayIndex(keys[i])
    ensures OtherKeys(keys) == []
  {
    if keys != [] {
      NoOtherKeys(keys[1..]);
    }
  }

  lemma {:induction false} NoIndexKeys(keys: seq<int>)
    requires forall i :: 0 <= i < |keys| ==> !IsArrayIndex(keys[i])
    ensures IndexKeys(keys) == []
  {
    if keys != [] {
      NoIndexKeys(keys[1..]);
    }
  }

  /** Sorting keys that are already ascending leaves them as they are. */
  lemma {:induction false} SortAscendingFixed(s: seq<int>)
    requires Increasing(s)
    ensures Distinct(s) && SortAscending(s) == s
  {
    IncreasingIsDistinct(s);
    if s != [] {
      SortAscendingFixed(s[1..]);
    }
  }

  /**
   * An object: its entries, and its keys in the order they were first added
   * (which assigning to an existing key does not change).
   */
  datatype Object<V> = Object(entries: map<int, V>, keyOrder: seq<int>) {

    predicate Valid() {
      Distinct(keyOrder) && entries.Keys == set k | k in keyOrder
    }

    /** `obj[k] = v`: a new key goes after all existing ones; an existing key keeps its place. */
    function Set(k: int, v: V): (r: Object<V>)
      requires Valid()
      ensures r.Valid() && r.entries == entries[k := v]
      ensures k in entries ==> r.keyOrder == keyOrder
      ensures k !in entries ==> r.keyOrder == keyOrder + [k]
    {
      if k in entries then Object(entries[k := v], keyOrder)
      else Object(entries[k := v], keyOrder + [k])
    }

    /** `Object.values(obj)`: every entry exactly once, in property order. */
    function Values(): (r: seq<V>)
      requires Valid()
      ensures |r| == |keyOrder|
      ensures forall i :: 0 <= i < |r| ==> PropertyOrder(keyOrder)[i] in entries
      ensures forall i :: 0 <= i < |r| ==> r[i] == entries[PropertyOrder(keyOrder)[i]]
    {
      var order := PropertyOrder(keyOrder);
      assert forall i :: 0 <= i < |order| ==> order[i] in keyOrder by {
        forall i | 0 <= i < |order| ensures order[i] in keyOrder {
          assert order[i] in order;
        }
      }
      seq(|order|, i requires 0 <= i < |order| => entries[order[i]])
    }
  }

  /** `{}`: no entries, no keys. */
  function EmptyObject<V>(): (o: Object<V>)
    ensures o.Valid() && o.entries == map[]
  {
    Object(map[], [])
  }
}
