/** The values behind src/dict.cpp: buckets as sequences of entries, and the map they stand for. */
module Chains {
  import opened Sequences
  import opened Bytes

  class Entry<V> {
    const key: Bytes
    var val: V
    var next: Entry?<V>

    constructor (key: Bytes, val: V, next: Entry?<V>)
      ensures this.key == key && this.val == val && this.next == next
    {
      this.key, this.val, this.next := key, val, next;
    }
  }

  /** A hash function: the code uses FNV-1a, and nothing here depends on which. */
  type Hash = Bytes -> nat

  /** The number of buckets: a power of two, so that masking with `size - 1` is `% size`. */
  predicate PowerOfTwo(n: nat) {
    n == 1 || (n > 1 && n % 2 == 0 && PowerOfTwo(n / 2))
  }

  /** Bitwise and. */
  function And(a: nat, b: nat): nat {
    if a == 0 || b == 0 then 0 else 2 * And(a / 2, b / 2) + (a % 2) * (b % 2)
  }

  /** For a size that is a power of two, `hash & (size - 1)` is the remainder of the hash. */
  lemma {:induction false} MaskIsRemainder(h: nat, size: nat)
    requires PowerOfTwo(size)
    ensures And(h, size - 1) == h % size
    decreases size
  {
    if size > 1 {
      MaskIsRemainder(h / 2, size / 2);
      assert (size - 1) / 2 == size / 2 - 1 && (size - 1) % 2 == 1;
      RemainderOfDouble(h, size / 2);
      if h > 0 {
        assert And(h, size - 1) == 2 * And(h / 2, size / 2 - 1) + h % 2;
      }
    }
  }

  lemma RemainderOfDouble(h: nat, m: nat)
    requires m > 0
    ensures h % (2 * m) == 2 * (h / 2 % m) + h % 2
  {
    var q, r := h / 2 / m, h / 2 % m;
    assert h / 2 == m * q + r;
    assert h == q * (2 * m) + (2 * r + h % 2);
    RemainderIs(2 * m, q, 2 * r + h % 2);
  }

  lemma RemainderIs(n: nat, q: nat, r: nat)
    requires r < n
    ensures (q * n + r) % n == r
  {
    var x := q * n + r;
    DivisionIsOnly(n, q, r, x / n, x % n);
  }

  lemma DivisionIsOnly(n: nat, a: nat, r: nat, b: nat, s: nat)
    requires r < n && s < n && n * a + r == n * b + s
    ensures a == b && r == s
  {
    if a < b {
      TimesMore(n, a, b - a);
    } else if b < a {
      TimesMore(n, b, a - b);
    }
  }

  lemma {:induction false} TimesMore(n: nat, a: nat, d: nat)
    requires d > 0
    ensures n * (a + d) >= n * a + n
  {
    if d > 1 {
      TimesMore(n, a, d - 1);
    }
    assert n * (a + d) == n * (a + (d - 1)) + n;
  }

  lemma PowerOfTwoDouble(n: nat)
    requires PowerOfTwo(n)
    ensures PowerOfTwo(2 * n)
  {
    assert 2 * n / 2 == n;
  }

  /** The bucket of a key in a table of `n` buckets. */
  function Bucket(hash: Hash, key: Bytes, n: nat): (i: nat)
    requires n > 0
    ensures i < n
  {
    hash(key) % n
  }

  ghost function EntryAt<V>(c: seq<Entry<V>>, k: nat): Entry?<V> {
    if k < |c| then c[k] else null
  }

  /** The `next` pointers from `head` run through exactly the chain `c`. */
  ghost predicate Linked<V>(head: Entry?<V>, c: seq<Entry<V>>)
    reads c`next
  {
    && head == EntryAt(c, 0)
    && forall k :: 0 <= k < |c| ==> c[k].next == EntryAt(c, k + 1)
  }

  /** Every entry sits in the bucket of its hash, and no key occurs twice. */
  ghost predicate Placed<V>(hash: Hash, cs: seq<seq<Entry<V>>>) {
    && (forall i, k :: 0 <= i < |cs| && 0 <= k < |cs[i]| ==> Bucket(hash, cs[i][k].key, |cs|) == i)
    && (forall i, j, k :: 0 <= i < |cs| && 0 <= j < k < |cs[i]| ==> cs[i][j].key != cs[i][k].key)
  }

  /** The entry of a key in a chain, if it has one. */
  ghost function FindIn<V>(c: seq<Entry<V>>, key: Bytes): (k: nat)
    ensures k <= |c| && (k < |c| ==> c[k].key == key)
    ensures forall j :: 0 <= j < k ==> c[j].key != key
  {
    if c == [] || c[0].key == key then 0 else 1 + FindIn(c[1..], key)
  }

  lemma FindInIs<V>(c: seq<Entry<V>>, key: Bytes, k: nat)
    requires k <= |c| && (k < |c| ==> c[k].key == key)
    requires forall j :: 0 <= j < k ==> c[j].key != key
    ensures FindIn(c, key) == k
  {
  }

  /** Every key of the map is found in its bucket. */
  ghost predicate Covers<V>(hash: Hash, cs: seq<seq<Entry<V>>>, keys: set<Bytes>)
    requires |cs| > 0
  {
    forall key :: key in keys ==> FindIn(cs[Bucket(hash, key, |cs|)], key) < |cs[Bucket(hash, key, |cs|)]|
  }

  ghost predicate Inside<V>(cs: seq<seq<Entry<V>>>, repr: set<Entry<V>>) {
    forall i, k :: 0 <= i < |cs| && 0 <= k < |cs[i]| ==> cs[i][k] in repr
  }

  /** The pairs of the chains are pairs of the map. */
  ghost predicate Holds<V(!new)>(cs: seq<seq<Entry<V>>>, m: map<Bytes, V>, repr: set<Entry<V>>)
    requires Inside(cs, repr)
    reads repr`val
  {
    forall i, k :: 0 <= i < |cs| && 0 <= k < |cs[i]| ==> cs[i][k].key in m && m[cs[i][k].key] == cs[i][k].val
  }

  ghost predicate AllLinked<V>(heads: seq<Entry?<V>>, cs: seq<seq<Entry<V>>>, repr: set<Entry<V>>)
    requires |heads| == |cs| && Inside(cs, repr)
    reads repr`next
  {
    forall i :: 0 <= i < |cs| ==> Linked(heads[i], cs[i])
  }

  /** The buckets lead to the chains, and the chains are well placed and hold exactly the map. */
  ghost predicate Table<V(!new)>(hash: Hash, heads: seq<Entry?<V>>, cs: seq<seq<Entry<V>>>, m: map<Bytes, V>,
    repr: set<Entry<V>>): (isTable: bool)
    reads repr
    ensures isTable ==> |heads| == |cs| > 0
  {
    && |heads| == |cs| > 0 && Inside(cs, repr)
    && AllLinked(heads, cs, repr)
    && Placed(hash, cs) && Covers(hash, cs, m.Keys) && Holds(cs, m, repr)
    && Total(cs) == |m|
  }

  function Total<T>(cs: seq<seq<T>>): nat {
    if cs == [] then 0 else |cs[0]| + Total(cs[1..])
  }

  lemma {:induction false} TotalUpdate<T>(cs: seq<seq<T>>, i: nat, c: seq<T>)
    requires i < |cs|
    ensures Total(cs[i := c]) == Total(cs) - |cs[i]| + |c|
  {
    if i > 0 {
      TotalUpdate(cs[1..], i - 1, c);
      assert cs[i := c][1..] == cs[1..][i - 1 := c];
    } else {
      assert cs[i := c][1..] == cs[1..];
    }
  }

  lemma {:induction false} TotalPrefix<T>(cs: seq<seq<T>>, i: nat)
    requires i < |cs|
    ensures Total(cs[..i + 1]) == Total(cs[..i]) + |cs[i]|
  {
    if i > 0 {
      TotalPrefix(cs[1..], i - 1);
      assert cs[..i + 1][1..] == cs[1..][..i] && cs[..i][1..] == cs[1..][..i - 1];
    } else {
      assert cs[..1][1..] == [];
    }
  }

  lemma {:induction false} TotalEmpty<T>(cs: seq<seq<T>>)
    requires forall i :: 0 <= i < |cs| ==> cs[i] == []
    ensures Total(cs) == 0
  {
    if cs != [] {
      TotalEmpty(cs[1..]);
    }
  }

  // ---------- changing one bucket ----------

  /** A new entry in front of its bucket. */
  lemma PlacedPush<V>(hash: Hash, cs: seq<seq<Entry<V>>>, i: nat, e: Entry<V>)
    requires Placed(hash, cs) && i < |cs| && Bucket(hash, e.key, |cs|) == i
    requires FindIn(cs[i], e.key) == |cs[i]|
    ensures Placed(hash, cs[i := [e] + cs[i]])
  {
  }

  lemma CoversPush<V>(hash: Hash, cs: seq<seq<Entry<V>>>, keys: set<Bytes>, i: nat, e: Entry<V>)
    requires i < |cs| && Bucket(hash, e.key, |cs|) == i && Covers(hash, cs, keys)
    ensures Covers(hash, cs[i := [e] + cs[i]], keys + {e.key})
  {
    var c := [e] + cs[i];
    forall key | key in keys + {e.key}
      ensures Bucket(hash, key, |cs|) == i ==> FindIn(c, key) < |c|
    {
      assert c[1..] == cs[i];
    }
  }

  /** Taking an entry out of its bucket. */
  lemma PlacedRemove<V>(hash: Hash, cs: seq<seq<Entry<V>>>, i: nat, p: nat)
    requires Placed(hash, cs) && i < |cs| && p < |cs[i]|
    ensures Placed(hash, cs[i := RemoveAt(cs[i], p)])
  {
    var c := RemoveAt(cs[i], p);
    forall k | 0 <= k < |c|
      ensures Bucket(hash, c[k].key, |cs|) == i
    {
      RemoveAtIndex(cs[i], p, k);
    }
    forall j, k | 0 <= j < k < |c|
      ensures c[j].key != c[k].key
    {
      RemoveAtIndex(cs[i], p, j);
      RemoveAtIndex(cs[i], p, k);
    }
  }

  lemma CoversRemove<V>(hash: Hash, cs: seq<seq<Entry<V>>>, keys: set<Bytes>, i: nat, p: nat)
    requires i < |cs| && p < |cs[i]| && Covers(hash, cs, keys)
    ensures Covers(hash, cs[i := RemoveAt(cs[i], p)], keys - {cs[i][p].key})
  {
    var c := RemoveAt(cs[i], p);
    forall key | key in keys - {cs[i][p].key}
      ensures Bucket(hash, key, |cs|) == i ==> FindIn(c, key) < |c|
    {
      var k := FindIn(cs[Bucket(hash, key, |cs|)], key);
      if Bucket(hash, key, |cs|) == i {
        RemoveAtIndex(cs[i], p, if k < p then k else k - 1);
      }
    }
  }

  /** Unlinking: the pointer that led to entry `p` now leads past it. */
  lemma LinkedRemove<V>(head: Entry?<V>, c: seq<Entry<V>>, p: nat)
    requires p < |c|
    requires head == EntryAt(c, if p == 0 then 1 else 0)
    requires forall k :: 0 <= k < |c| && k != p ==> c[k].next == EntryAt(c, if k + 1 == p then p + 1 else k + 1)
    ensures Linked(head, RemoveAt(c, p))
  {
    var c' := RemoveAt(c, p);
    if c' != [] {
      RemoveAtIndex(c, p, 0);
    }
    forall k | 0 <= k < |c'|
      ensures c'[k].next == EntryAt(c', k + 1)
    {
      RemoveAtIndex(c, p, k);
      if k + 1 < |c'| {
        RemoveAtIndex(c, p, k + 1);
      }
    }
  }

  // ---------- the table ----------

  lemma TableFind<V(!new)>(hash: Hash, heads: seq<Entry?<V>>, cs: seq<seq<Entry<V>>>, m: map<Bytes, V>,
    repr: set<Entry<V>>, key: Bytes)
    requires Table(hash, heads, cs, m, repr)
    ensures var i := Bucket(hash, key, |cs|);
      && Linked(heads[i], cs[i])
      && var e := EntryAt(cs[i], FindIn(cs[i], key));
         if key in m then e != null && e in repr && e.key == key && e.val == m[key] else e == null
  {
  }

  lemma HoldsOverwrite<V(!new)>(hash: Hash, cs: seq<seq<Entry<V>>>, m: map<Bytes, V>, repr: set<Entry<V>>, e: Entry<V>)
    requires |cs| > 0 && Inside(cs, repr) && Placed(hash, cs) && e.key in m
    requires var c := cs[Bucket(hash, e.key, |cs|)]; e == EntryAt(c, FindIn(c, e.key))
    requires forall j, k :: 0 <= j < |cs| && 0 <= k < |cs[j]| && cs[j][k] != e ==>
               cs[j][k].key in m && m[cs[j][k].key] == cs[j][k].val
    ensures Holds(cs, m[e.key := e.val], repr)
  {
    var i := Bucket(hash, e.key, |cs|);
    var p := FindIn(cs[i], e.key);
    forall j, k | 0 <= j < |cs| && 0 <= k < |cs[j]| && cs[j][k] != e
      ensures cs[j][k].key != e.key
    {
      assert cs[i][p] == e;
    }
  }

  lemma TableOverwrite<V(!new)>(hash: Hash, heads: seq<Entry?<V>>, cs: seq<seq<Entry<V>>>, m: map<Bytes, V>,
    repr: set<Entry<V>>, e: Entry<V>)
    requires |heads| == |cs| > 0 && Inside(cs, repr)
    requires AllLinked(heads, cs, repr) && Placed(hash, cs) && Covers(hash, cs, m.Keys) && Total(cs) == |m|
    requires e.key in m
    requires var c := cs[Bucket(hash, e.key, |cs|)]; e == EntryAt(c, FindIn(c, e.key))
    requires forall j, k :: 0 <= j < |cs| && 0 <= k < |cs[j]| && cs[j][k] != e ==>
               cs[j][k].key in m && m[cs[j][k].key] == cs[j][k].val
    ensures Table(hash, heads, cs, m[e.key := e.val], repr)
  {
    hide AllLinked, Placed, Covers, Total, Holds, Inside, Bucket, FindIn;
    assert m[e.key := e.val].Keys == m.Keys;
    HoldsOverwrite(hash, cs, m, repr, e);
  }

  lemma LinkedPush<V>(heads: seq<Entry?<V>>, cs: seq<seq<Entry<V>>>, repr: set<Entry<V>>, i: nat, e: Entry<V>)
    requires i < |heads| == |cs| && Inside(cs, repr) && AllLinked(heads, cs, repr)
    requires e.next == heads[i]
    ensures Inside(cs[i := [e] + cs[i]], repr + {e})
    ensures AllLinked(heads[i := e], cs[i := [e] + cs[i]], repr + {e})
  {
    assert Linked(heads[i], cs[i]);
    assert Linked(e, [e] + cs[i]);
  }

  lemma HoldsPush<V(!new)>(cs: seq<seq<Entry<V>>>, m: map<Bytes, V>, repr: set<Entry<V>>, i: nat, e: Entry<V>)
    requires i < |cs| && Inside(cs, repr) && Holds(cs, m, repr)
    requires e.key !in m && Inside(cs[i := [e] + cs[i]], repr + {e})
    ensures Holds(cs[i := [e] + cs[i]], m[e.key := e.val], repr + {e})
  {
    var cs' := cs[i := [e] + cs[i]];
    forall j, k | 0 <= j < |cs'| && 0 <= k < |cs'[j]|
      ensures cs'[j][k] == e || (exists k' :: 0 <= k' < |cs[j]| && cs[j][k'] == cs'[j][k])
    {
      if j == i && k > 0 {
        assert cs[i][k - 1] == cs'[j][k];
      }
    }
  }

  lemma TablePush<V(!new)>(hash: Hash, heads: seq<Entry?<V>>, cs: seq<seq<Entry<V>>>, m: map<Bytes, V>,
    repr: set<Entry<V>>, e: Entry<V>, i: nat, c: seq<Entry<V>>)
    requires Table(hash, heads, cs, m, repr) && e.key !in m
    requires i == Bucket(hash, e.key, |cs|) && e.next == heads[i] && c == [e] + cs[i]
    ensures Table(hash, heads[i := e], cs[i := c], m[e.key := e.val], repr + {e})
  {
    TableFind(hash, heads, cs, m, repr, e.key);
    hide AllLinked, Placed, Covers, Total, Holds, Inside, Bucket, FindIn, Linked;
    PlacedPush(hash, cs, i, e);
    CoversPush(hash, cs, m.Keys, i, e);
    TotalUpdate(cs, i, c);
    LinkedPush(heads, cs, repr, i, e);
    HoldsPush(cs, m, repr, i, e);
  }

  /** A chain of one bucket has no entry of another. */
  lemma BucketsDisjoint<V>(hash: Hash, cs: seq<seq<Entry<V>>>, i: nat, k: nat, j: nat)
    requires Placed(hash, cs) && i < |cs| && k < |cs[i]| && j < |cs| && i != j
    ensures cs[i][k] !in cs[j]
  {
  }

  lemma EntriesDistinct<V>(hash: Hash, cs: seq<seq<Entry<V>>>, i: nat)
    requires Placed(hash, cs) && i < |cs|
    ensures forall j, k :: 0 <= j < k < |cs[i]| ==> cs[i][j] != cs[i][k]
  {
  }

  lemma HoldsRemove<V(!new)>(hash: Hash, cs: seq<seq<Entry<V>>>, m: map<Bytes, V>, repr: set<Entry<V>>, i: nat,
    p: nat, cs': seq<seq<Entry<V>>>)
    requires Inside(cs, repr) && Placed(hash, cs) && Holds(cs, m, repr) && i < |cs| && p < |cs[i]|
    requires cs' == cs[i := RemoveAt(cs[i], p)]
    ensures Inside(cs', repr) && Holds(cs', m - {cs[i][p].key}, repr)
  {
    forall j, k | 0 <= j < |cs'| && 0 <= k < |cs'[j]|
      ensures cs'[j][k] in repr && cs'[j][k].key != cs[i][p].key
      ensures cs'[j][k].key in m && m[cs'[j][k].key] == cs'[j][k].val
    {
      if j == i {
        RemoveAtIndex(cs[i], p, k);
      } else {
        assert Bucket(hash, cs[j][k].key, |cs|) == j;
        assert Bucket(hash, cs[i][p].key, |cs|) == i;
      }
    }
  }

  lemma KeysRemove<V>(m: map<Bytes, V>, key: Bytes)
    requires key in m
    ensures (m - {key}).Keys == m.Keys - {key} && |m - {key}| == |m| - 1
  {
    assert (m - {key}).Keys == m.Keys - {key};
    assert |m - {key}| == |(m - {key}).Keys|;
  }

  lemma TableRemove<V(!new)>(hash: Hash, heads: seq<Entry?<V>>, cs: seq<seq<Entry<V>>>, m: map<Bytes, V>,
    repr: set<Entry<V>>, i: nat, p: nat, head: Entry?<V>, c: seq<Entry<V>>, key: Bytes)
    requires i < |heads| == |cs| && p < |cs[i]| && Inside(cs, repr) && c == RemoveAt(cs[i], p) && key == cs[i][p].key
    requires Placed(hash, cs) && Covers(hash, cs, m.Keys) && Holds(cs, m, repr) && Total(cs) == |m|
    requires forall j :: 0 <= j < |cs| && j != i ==> Linked(heads[j], cs[j])
    requires Linked(head, c) && key in m
    ensures Table(hash, heads[i := head], cs[i := c], m - {key}, repr)
  {
    hide Placed, Covers, Total, Holds, Inside, Bucket, FindIn, Linked, RemoveAt;
    KeysRemove(m, key);
    HoldsRemove(hash, cs, m, repr, i, p, cs[i := c]);
    PlacedRemove(hash, cs, i, p);
    CoversRemove(hash, cs, m.Keys, i, p);
    TotalUpdate(cs, i, c);
  }

  lemma TableUnlink<V(!new)>(hash: Hash, heads: seq<Entry?<V>>, cs: seq<seq<Entry<V>>>, m: map<Bytes, V>,
    repr: set<Entry<V>>, i: nat, p: nat, head: Entry?<V>)
    requires i < |heads| == |cs| && p < |cs[i]| && Inside(cs, repr)
    requires Placed(hash, cs) && Covers(hash, cs, m.Keys) && Holds(cs, m, repr) && Total(cs) == |m|
    requires forall j :: 0 <= j < |cs| && j != i ==> Linked(heads[j], cs[j])
    requires head == if p == 0 then EntryAt(cs[i], 1) else heads[i]
    requires heads[i] == EntryAt(cs[i], 0)
    requires forall k :: 0 <= k < |cs[i]| && k != p ==>
        cs[i][k].next == EntryAt(cs[i], if k + 1 == p then p + 1 else k + 1)
    ensures cs[i][p].key in m && |m - {cs[i][p].key}| == |m| - 1
    ensures Table(hash, heads[i := head], cs[i := RemoveAt(cs[i], p)], m - {cs[i][p].key}, repr)
  {
    LinkedRemove(head, cs[i], p);
    KeysRemove(m, cs[i][p].key);
    hide *;
    TableRemove(hash, heads, cs, m, repr, i, p, head, RemoveAt(cs[i], p), cs[i][p].key);
  }

  // ---------- growing the table ----------

  /** Whether rehashing has come past a key's entry when it stands at entry `k` of bucket `i`. */
  ghost predicate Passed<V>(hash: Hash, cs: seq<seq<Entry<V>>>, key: Bytes, i: nat, k: nat)
    requires |cs| > 0
  {
    var j := Bucket(hash, key, |cs|);
    j < i || (j == i && FindIn(cs[j], key) < k)
  }

  /** `done` is the part of the map whose entries have been moved. */
  ghost predicate MovedTo<V(!new)>(hash: Hash, cs: seq<seq<Entry<V>>>, m: map<Bytes, V>, i: nat, k: nat,
    done: map<Bytes, V>)
    requires |cs| > 0
  {
    forall key :: if key in m && Passed(hash, cs, key, i, k) then key in done && done[key] == m[key] else key !in done
  }

  lemma MovedNothing<V(!new)>(hash: Hash, cs: seq<seq<Entry<V>>>, m: map<Bytes, V>)
    requires |cs| > 0
    ensures MovedTo(hash, cs, m, 0, 0, map[])
  {
  }

  lemma MovedEntry<V(!new)>(hash: Hash, cs: seq<seq<Entry<V>>>, m: map<Bytes, V>, i: nat, k: nat, done: map<Bytes, V>,
    key: Bytes)
    requires i < |cs| && k < |cs[i]| && Placed(hash, cs) && key == cs[i][k].key && key in m
    requires MovedTo(hash, cs, m, i, k, done)
    ensures key !in done && MovedTo(hash, cs, m, i, k + 1, done[key := m[key]])
  {
    FindInIs(cs[i], key, k);
    forall x
      ensures Passed(hash, cs, x, i, k + 1) <==> Passed(hash, cs, x, i, k) || x == key
    {
    }
  }

  lemma MovedChain<V(!new)>(hash: Hash, cs: seq<seq<Entry<V>>>, m: map<Bytes, V>, i: nat, done: map<Bytes, V>)
    requires i < |cs| && Covers(hash, cs, m.Keys) && MovedTo(hash, cs, m, i, |cs[i]|, done)
    ensures MovedTo(hash, cs, m, i + 1, 0, done)
  {
    forall x | x in m
      ensures Passed(hash, cs, x, i, |cs[i]|) <==> Passed(hash, cs, x, i + 1, 0)
    {
    }
  }

  lemma MovedAll<V(!new)>(hash: Hash, cs: seq<seq<Entry<V>>>, m: map<Bytes, V>, done: map<Bytes, V>)
    requires |cs| > 0 && MovedTo(hash, cs, m, |cs|, 0, done)
    ensures done == m
  {
    forall x
      ensures x in done <==> x in m
      ensures x in m ==> done[x] == m[x]
    {
      assert x in m ==> Passed(hash, cs, x, |cs|, 0);
    }
  }

  lemma TableEmpty<V(!new)>(hash: Hash, heads: seq<Entry?<V>>, cs: seq<seq<Entry<V>>>)
    requires |heads| == |cs| > 0
    requires forall i :: 0 <= i < |cs| ==> heads[i] == null && cs[i] == []
    ensures Table(hash, heads, cs, map[], {})
  {
    TotalEmpty(cs);
  }

  lemma EntryInBucket<V(!new)>(hash: Hash, heads: seq<Entry?<V>>, cs: seq<seq<Entry<V>>>, m: map<Bytes, V>,
    repr: set<Entry<V>>, i: nat, k: nat)
    requires Table(hash, heads, cs, m, repr) && i < |cs| && k < |cs[i]| && PowerOfTwo(|cs|)
    ensures i == And(hash(cs[i][k].key), |cs| - 1)
  {
    hide Linked, Covers, Holds, Total, Inside, And, PowerOfTwo;
    assert Bucket(hash, cs[i][k].key, |cs|) == i;
    MaskIsRemainder(hash(cs[i][k].key), |cs|);
  }

  lemma TableWiden<V(!new)>(hash: Hash, heads: seq<Entry?<V>>, cs: seq<seq<Entry<V>>>, m: map<Bytes, V>,
    repr: set<Entry<V>>, repr': set<Entry<V>>)
    requires Table(hash, heads, cs, m, repr) && repr <= repr'
    ensures Table(hash, heads, cs, m, repr')
  {
  }

  lemma ChainsDisjoint<V>(hash: Hash, cs: seq<seq<Entry<V>>>, i: nat)
    requires Placed(hash, cs) && i < |cs|
    ensures forall j, e :: 0 <= j < |cs| && j != i && e in cs[j] ==> e !in cs[i]
  {
    forall j, e | 0 <= j < |cs| && j != i && e in cs[j]
      ensures e !in cs[i]
    {
      assert Bucket(hash, e.key, |cs|) == j;
    }
  }

  // ---------- visiting every entry ----------

  /** What a caller of `dict_each` is shown, in bucket and chain order. */
  ghost function Items<V>(cs: seq<seq<Entry<V>>>, repr: set<Entry<V>>): seq<(Bytes, V)>
    requires Inside(cs, repr)
    reads repr`val
  {
    if cs == [] then [] else ChainItems(cs[0], repr) + Items(cs[1..], repr)
  }

  ghost function ChainItems<V>(c: seq<Entry<V>>, repr: set<Entry<V>>): (items: seq<(Bytes, V)>)
    requires forall e :: e in c ==> e in repr
    reads repr`val
    ensures |items| == |c|
  {
    if c == [] then [] else [(c[0].key, c[0].val)] + ChainItems(c[1..], repr)
  }

  /** Calling `fn` on each pair in turn until it returns false. */
  function Each<S, V>(items: seq<(Bytes, V)>, fn: (S, Bytes, V) -> (S, bool), s: S): S {
    if items == [] then s
    else
      var (s', more) := fn(s, items[0].0, items[0].1);
      if more then Each(items[1..], fn, s') else s'
  }

  lemma EachStep<S, V>(item: (Bytes, V), rest: seq<(Bytes, V)>, fn: (S, Bytes, V) -> (S, bool), s: S)
    ensures var (s', more) := fn(s, item.0, item.1);
      Each([item] + rest, fn, s) == if more then Each(rest, fn, s') else s'
  {
    assert ([item] + rest)[1..] == rest;
  }

  lemma EachNothing<S, V>(fn: (S, Bytes, V) -> (S, bool), s: S)
    ensures Each([], fn, s) == s
  {
  }

  lemma {:induction false} ChainItemsAt<V>(c: seq<Entry<V>>, repr: set<Entry<V>>, k: nat)
    requires forall e :: e in c ==> e in repr
    requires k < |c|
    ensures ChainItems(c, repr)[k] == (c[k].key, c[k].val)
  {
    if k > 0 {
      ChainItemsAt(c[1..], repr, k - 1);
    }
  }

  /** Where an item of the whole list comes from. */
  lemma {:induction false} ItemsAt<V>(cs: seq<seq<Entry<V>>>, repr: set<Entry<V>>, x: nat) returns (i: nat, k: nat)
    requires Inside(cs, repr) && x < |Items(cs, repr)|
    ensures i < |cs| && k < |cs[i]| && x == Total(cs[..i]) + k
    ensures Items(cs, repr)[x] == (cs[i][k].key, cs[i][k].val)
  {
    if x < |cs[0]| {
      i, k := 0, x;
      ChainItemsAt(cs[0], repr, k);
      assert Total(cs[..0]) == 0;
    } else {
      var i' : nat;
      i', k := ItemsAt(cs[1..], repr, x - |cs[0]|);
      i := i' + 1;
      assert cs[..i][1..] == cs[1..][..i'];
    }
  }

  lemma {:induction false} ItemsLength<V>(cs: seq<seq<Entry<V>>>, repr: set<Entry<V>>)
    requires Inside(cs, repr)
    ensures |Items(cs, repr)| == Total(cs)
  {
    if cs != [] {
      ItemsLength(cs[1..], repr);
    }
  }

  /** Visiting a table's chains shows each pair of its map exactly once. */
  lemma ItemsEnumerate<V(!new)>(hash: Hash, heads: seq<Entry?<V>>, cs: seq<seq<Entry<V>>>, m: map<Bytes, V>,
    repr: set<Entry<V>>)
    requires Table(hash, heads, cs, m, repr)
    ensures Enumerates(Items(cs, repr), m)
  {
    var items := Items(cs, repr);
    ItemsLength(cs, repr);
    forall x | 0 <= x < |items|
      ensures items[x].0 in m && m[items[x].0] == items[x].1
    {
      var i, k := ItemsAt(cs, repr, x);
    }
    forall x, y | 0 <= x < y < |items|
      ensures items[x].0 != items[y].0
    {
      var i, k := ItemsAt(cs, repr, x);
      var j, l := ItemsAt(cs, repr, y);
      assert Bucket(hash, cs[i][k].key, |cs|) == i;
      assert Bucket(hash, cs[j][l].key, |cs|) == j;
    }
  }
}
