/** Options; sequences with one element put in or taken out, turned around, or cut by two indexes; and
    listings of maps. */
module Sequences {
  datatype Option<+T> = None | Some(value: T)

  function InsertAt<T>(s: seq<T>, p: nat, x: T): (t: seq<T>)
    requires p <= |s|
    ensures |t| == |s| + 1
  {
    s[..p] + [x] + s[p..]
  }

  function RemoveAt<T>(s: seq<T>, p: nat): (t: seq<T>)
    requires p < |s|
    ensures |t| == |s| - 1
  {
    s[..p] + s[p + 1..]
  }

  lemma InsertAtIndex<T>(s: seq<T>, p: nat, x: T, k: nat)
    requires p <= |s| && k <= |s|
    ensures InsertAt(s, p, x)[k] == if k < p then s[k] else if k == p then x else s[k - 1]
  {
  }

  lemma RemoveAtIndex<T>(s: seq<T>, p: nat, k: nat)
    requires p < |s| && k < |s| - 1
    ensures RemoveAt(s, p)[k] == if k < p then s[k] else s[k + 1]
  {
  }

  function Reverse<T>(s: seq<T>): seq<T> {
    if s == [] then [] else Reverse(s[1..]) + [s[0]]
  }

  /** What is left of a list after pushing the values in front of it one by one. */
  function Pushed<T>(values: seq<T>, items: seq<T>): seq<T> {
    Reverse(values) + items
  }

  lemma {:induction false} ReverseLength<T>(s: seq<T>)
    ensures |Reverse(s)| == |s|
  {
    if s != [] {
      ReverseLength(s[1..]);
    }
  }

  /** Turned around, the first element is the last. */
  lemma {:induction false} ReverseAt<T>(s: seq<T>, i: nat)
    requires i < |s|
    ensures |Reverse(s)| == |s| && Reverse(s)[i] == s[|s| - 1 - i]
  {
    ReverseLength(s);
    ReverseLength(s[1..]);
    if i < |s| - 1 {
      ReverseAt(s[1..], i);
    }
  }

  lemma Reassociate<T>(a: seq<T>, b: seq<T>, c: seq<T>)
    ensures a + (b + c) == a + b + c
  {
  }

  /** The element at a possibly negative index. */
  function ItemAt<T>(items: seq<T>, index: int): Option<T> {
    var i := if index < 0 then |items| + index else index;
    if 0 <= i < |items| then Some(items[i]) else None
  }

  /** A possibly negative index counts from the end; a range is clamped to the sequence. */
  function FirstIndex(n: nat, start: int): nat {
    var a := if start < 0 then n + start else start;
    if a < 0 then 0 else a
  }

  function LastIndex(n: nat, end: int): (b: int)
    ensures b < n
  {
    var b := if end < 0 then n + end else end;
    if b >= n then n - 1 else b
  }

  /** The elements from `start` to `end` inclusive, at most `max` of them. */
  function Slice<T>(s: seq<T>, start: int, end: int, max: nat): seq<T> {
    var a, b := FirstIndex(|s|, start), LastIndex(|s|, end);
    if a > b then []
    else if b + 1 - a <= max then s[a..b + 1]
    else s[a..a + max]
  }

  /** Both range walks begin by putting their bounds inside the sequence. */
  method ClampRange(n: nat, start: int, end: int) returns (a: nat, b: int)
    ensures a == FirstIndex(n, start) && b == LastIndex(n, end)
  {
    var from := if start < 0 then n + start else start;
    b := if end < 0 then n + end else end;
    a := if from < 0 then 0 else from;
    if b >= n { b := n - 1; }
  }

  lemma SliceIs<T>(s: seq<T>, start: int, end: int, max: nat)
    ensures var a, b := FirstIndex(|s|, start), LastIndex(|s|, end);
      Slice(s, start, end, max) == if a > b then [] else s[a..if b + 1 - a <= max then b + 1 else a + max]
  {
    hide FirstIndex, LastIndex;
  }

  /** The elements at the positions from `p` on that lie between `lo` and `hi`. */
  function Between<T>(s: seq<T>, lo: int, hi: int, p: nat): seq<T>
    requires p <= |s|
    decreases |s| - p
  {
    if p == |s| then [] else (if lo <= p <= hi then [s[p]] else []) + Between(s, lo, hi, p + 1)
  }

  lemma {:induction false} BetweenIs<T>(s: seq<T>, lo: int, hi: int, p: nat)
    requires p <= |s|
    ensures var a, b := if lo < p then p else lo, if hi >= |s| then |s| - 1 else hi;
      Between(s, lo, hi, p) == if a > b then [] else s[a..b + 1]
    decreases |s| - p
  {
    if p < |s| {
      BetweenIs(s, lo, hi, p + 1);
      var b := if hi >= |s| then |s| - 1 else hi;
      if lo <= p <= b {
        assert s[p..b + 1] == [s[p]] + s[p + 1..b + 1];
      }
    }
  }

  lemma BoundsMean(n: nat, start: int, lo: int, end: int, hi: int)
    requires lo == (if start < 0 then n + start else start) && hi == if end < 0 then n + end else end
    ensures FirstIndex(n, start) == if lo < 0 then 0 else lo
    ensures LastIndex(n, end) == if hi >= n then n - 1 else hi
  {
  }

  lemma CutAtMost<T>(s: seq<T>, a: nat, b: nat, max: nat)
    requires a <= b < |s|
    ensures var all := s[a..b + 1];
      s[a..if b + 1 - a <= max then b + 1 else a + max] == if |all| <= max then all else all[..max]
  {
  }

  lemma SliceBetween<T>(s: seq<T>, start: int, lo: int, end: int, hi: int, max: nat)
    requires lo == (if start < 0 then |s| + start else start) && hi == if end < 0 then |s| + end else end
    ensures var all := Between(s, lo, hi, 0);
      Slice(s, start, end, max) == if |all| <= max then all else all[..max]
  {
    BoundsMean(|s|, start, lo, end, hi);
    hide FirstIndex, LastIndex, Slice, Between;
    BetweenIs(s, lo, hi, 0);
    SliceIs(s, start, end, max);
    var a, b := FirstIndex(|s|, start), LastIndex(|s|, end);
    if a <= b {
      CutAtMost(s, a, b, max);
    }
  }

  /** A range is the first `max` of the elements from `start` to `end` inclusive, in their order, where -1 is
      the last position, -2 the one before it, and so on; positions outside count for nothing. */
  lemma SliceMeans<T>(s: seq<T>, start: int, end: int, max: nat)
    ensures var lo, hi := if start < 0 then |s| + start else start, if end < 0 then |s| + end else end;
      var all := Between(s, lo, hi, 0);
      Slice(s, start, end, max) == if |all| <= max then all else all[..max]
  {
    hide Slice, Between;
    SliceBetween(s, start, if start < 0 then |s| + start else start, end, if end < 0 then |s| + end else end, max);
  }

  /** From 0 to -1 is everything. */
  lemma SliceWhole<T>(s: seq<T>, max: nat)
    requires |s| <= max
    ensures Slice(s, 0, -1, max) == s
  {
  }

  /** The element at index -k is the k-th from the end, and outside the sequence there is none. */
  lemma ItemAtMeans<T>(s: seq<T>, k: int)
    requires k >= 0
    ensures ItemAt(s, k) == if k < |s| then Some(s[k]) else None
    ensures k > 0 ==> ItemAt(s, -k) == if k <= |s| then Some(s[|s| - k]) else None
  {
  }

  /** `items` lists every pair of the map exactly once. */
  ghost predicate Enumerates<K(!new), V(!new)>(items: seq<(K, V)>, m: map<K, V>) {
    && |items| == |m|
    && (forall i :: 0 <= i < |items| ==> items[i].0 in m && m[items[i].0] == items[i].1)
    && Distinct(items)
  }

  ghost predicate Distinct<K(!new), V(!new)>(items: seq<(K, V)>) {
    forall i, j :: 0 <= i < j < |items| ==> items[i].0 != items[j].0
  }

  /** Putting the pairs into a map one by one. */
  function SetAll<K, V>(items: seq<(K, V)>, m: map<K, V>): map<K, V> {
    if items == [] then m else SetAll(items[1..], m[items[0].0 := items[0].1])
  }

  ghost function KeysOf<K(!new), V(!new)>(items: seq<(K, V)>): set<K> {
    set i | 0 <= i < |items| :: items[i].0
  }

  lemma KeysOfFirst<K(!new), V(!new)>(items: seq<(K, V)>)
    requires items != []
    ensures KeysOf(items) == {items[0].0} + KeysOf(items[1..])
  {
    forall k | k in KeysOf(items)
      ensures k == items[0].0 || k in KeysOf(items[1..])
    {
      var i :| 0 <= i < |items| && items[i].0 == k;
      assert i > 0 ==> items[1..][i - 1].0 == k;
    }
    forall k | k in KeysOf(items[1..])
      ensures k in KeysOf(items)
    {
      var i :| 0 <= i < |items[1..]| && items[1..][i].0 == k;
      assert items[i + 1].0 == k;
    }
  }

  lemma FirstKeyOnce<K(!new), V(!new)>(items: seq<(K, V)>)
    requires Distinct(items) && items != []
    ensures items[0].0 !in KeysOf(items[1..])
  {
    forall j | 0 <= j < |items| - 1
      ensures items[1..][j].0 != items[0].0
    {
    }
  }

  lemma {:induction false} KeysOfCount<K(!new), V(!new)>(items: seq<(K, V)>)
    requires Distinct(items)
    ensures |KeysOf(items)| == |items|
  {
    if items != [] {
      KeysOfFirst(items);
      KeysOfCount(items[1..]);
    }
  }

  lemma {:induction false} SetAllKeys<K(!new), V(!new)>(items: seq<(K, V)>, m: map<K, V>)
    requires Distinct(items)
    ensures SetAll(items, m).Keys == m.Keys + KeysOf(items)
    ensures forall k :: k in m && k !in KeysOf(items) ==> SetAll(items, m)[k] == m[k]
    ensures forall i :: 0 <= i < |items| ==> SetAll(items, m)[items[i].0] == items[i].1
    decreases |items|
  {
    if items != [] {
      KeysOfFirst(items);
      SetAllKeys(items[1..], m[items[0].0 := items[0].1]);
      forall i | 0 <= i < |items|
        ensures SetAll(items, m)[items[i].0] == items[i].1
      {
        if i == 0 {
          FirstKeyOnce(items);
        } else {
          assert items[1..][i - 1] == items[i];
        }
      }
    }
  }

  lemma ListingKeys<K(!new), V(!new)>(items: seq<(K, V)>, m: map<K, V>)
    requires Enumerates(items, m)
    ensures m.Keys == KeysOf(items)
  {
    KeysOfCount(items);
    assert KeysOf(items) <= m.Keys;
    assert |m.Keys - KeysOf(items)| == |m.Keys| - |KeysOf(items)|;
  }

  /** A listing of a map, put into the empty map, gives the map. */
  lemma SetAllListing<K(!new), V(!new)>(items: seq<(K, V)>, m: map<K, V>)
    requires Enumerates(items, m)
    ensures SetAll(items, map[]) == m
  {
    var n := SetAll(items, map[]);
    SetAllKeys(items, map[]);
    ListingKeys(items, m);
    forall k | k in m
      ensures n[k] == m[k]
    {
      var i :| 0 <= i < |items| && items[i].0 == k;
    }
  }

  /** Putting pairs into a map one by one leaves other keys as they were ... */
  lemma {:induction false} SetAllKeeps<K, V>(items: seq<(K, V)>, m: map<K, V>, key: K)
    requires forall j :: 0 <= j < |items| ==> items[j].0 != key
    ensures key in SetAll(items, m) <==> key in m
    ensures key in m ==> SetAll(items, m)[key] == m[key]
    decreases |items|
  {
    if items != [] {
      SetAllKeeps(items[1..], m[items[0].0 := items[0].1], key);
    }
  }

  /** ... and leaves each key with the last of its values. */
  lemma {:induction false} SetAllLast<K, V>(items: seq<(K, V)>, m: map<K, V>, i: nat)
    requires i < |items| && forall j :: i < j < |items| ==> items[j].0 != items[i].0
    ensures items[i].0 in SetAll(items, m) && SetAll(items, m)[items[i].0] == items[i].1
    decreases |items|
  {
    var next := m[items[0].0 := items[0].1];
    if i > 0 {
      SetAllLast(items[1..], next, i - 1);
    } else {
      SetAllKeeps(items[1..], next, items[0].0);
    }
  }
}
