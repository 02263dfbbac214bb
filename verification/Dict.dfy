/** src/dict.cpp: the chained hash table, its chains relinked in place when it grows. */
module Dicts {
  import opened Sequences
  import opened Bytes
  import opened Chains

  const INITIAL_SIZE: nat := 16

  /** The search loop of the table operations. */
  method FindEntry<V>(head: Entry?<V>, key: Bytes, ghost c: seq<Entry<V>>) returns (e: Entry?<V>)
    requires Linked(head, c)
    ensures e == EntryAt(c, FindIn(c, key))
  {
    e := head;
    ghost var k: nat := 0;
    while e != null
      invariant k <= FindIn(c, key) && e == EntryAt(c, k)
      decreases |c| - k
    {
      if e.key == key {
        return;
      }
      e := e.next;
      k := k + 1;
    }
  }

  /** The search loop of deletion, which keeps the entry before the one it looks at. */
  method FindWithPrev<V>(head: Entry?<V>, key: Bytes, ghost c: seq<Entry<V>>) returns (prev: Entry?<V>, e: Entry?<V>)
    requires Linked(head, c)
    ensures var k := FindIn(c, key); e == EntryAt(c, k) && prev == if k == 0 then null else c[k - 1]
  {
    prev, e := null, head;
    ghost var k: nat := 0;
    while e != null
      invariant k <= FindIn(c, key) && e == EntryAt(c, k) && prev == if k == 0 then null else c[k - 1]
      decreases |c| - k
    {
      if e.key == key {
        return;
      }
      prev := e;
      e := e.next;
      k := k + 1;
    }
  }

  /** The first entry of a chain: the bucket is pointed past it. */
  method UnlinkFirst<V(!new)>(ghost hash: Hash, buckets: array<Entry?<V>>, i: nat, e: Entry<V>,
    ghost cs: seq<seq<Entry<V>>>, ghost m: map<Bytes, V>, ghost repr: set<Entry<V>>)
    requires Table(hash, buckets[..], cs, m, repr) && i < |cs| && 0 < |cs[i]| && e == cs[i][0]
    modifies buckets
    ensures Table(hash, buckets[..], cs[i := RemoveAt(cs[i], 0)], m - {e.key}, repr)
    ensures e.key in m && |m - {e.key}| == |m| - 1
  {
    hide Covers, Total, FindIn, Bucket, Placed, Holds, RemoveAt;
    ghost var heads := buckets[..];
    assert Linked(heads[i], cs[i]);
    buckets[i] := e.next;
    TableUnlink(hash, heads, cs, m, repr, i, 0, buckets[i]);
    assert buckets[..] == heads[i := buckets[i]];
  }

  /** A later entry: the one before it is pointed past it. */
  method UnlinkBehind<V(!new)>(ghost hash: Hash, ghost heads: seq<Entry?<V>>, i: nat, prev: Entry<V>, e: Entry<V>,
    ghost cs: seq<seq<Entry<V>>>, ghost m: map<Bytes, V>, ghost repr: set<Entry<V>>, ghost p: nat)
    requires Table(hash, heads, cs, m, repr) && i < |cs| && 0 < p < |cs[i]| && e == cs[i][p] && prev == cs[i][p - 1]
    modifies repr`next
    ensures Table(hash, heads, cs[i := RemoveAt(cs[i], p)], m - {e.key}, repr)
    ensures e.key in m && |m - {e.key}| == |m| - 1
  {
    hide Covers, Total, FindIn, Bucket, Placed, Holds, RemoveAt;
    assert Linked(heads[i], cs[i]);
    EntriesDistinct(hash, cs, i);
    forall j | 0 <= j < |cs| && j != i
      ensures prev !in cs[j]
    {
      BucketsDisjoint(hash, cs, i, p - 1, j);
    }
    prev.next := e.next;
    TableUnlink(hash, heads, cs, m, repr, i, p, heads[i]);
    assert heads[i := heads[i]] == heads;
  }

  /** Unlinking entry `p` of a chain: the pointer that led to it, in the bucket or in the entry before,
      leads past it. */
  method Unlink<V(!new)>(ghost hash: Hash, buckets: array<Entry?<V>>, i: nat, prev: Entry?<V>, e: Entry<V>,
    ghost cs: seq<seq<Entry<V>>>, ghost m: map<Bytes, V>, ghost repr: set<Entry<V>>, ghost p: nat)
    requires Table(hash, buckets[..], cs, m, repr) && i < |cs| && p < |cs[i]| && e == cs[i][p]
    requires prev == if p == 0 then null else cs[i][p - 1]
    modifies buckets, repr`next
    ensures Table(hash, buckets[..], cs[i := RemoveAt(cs[i], p)], m - {e.key}, repr)
    ensures e.key in m && |m - {e.key}| == |m| - 1
  {
    hide Table, RemoveAt;
    if prev == null {
      UnlinkFirst(hash, buckets, i, e, cs, m, repr);
    } else {
      UnlinkBehind(hash, buckets[..], i, prev, e, cs, m, repr, p);
    }
  }

  /** One turn of the rehashing loop: push the entry in front of its chain in the new buckets. */
  method RelinkEntry<V(!new)>(hash: Hash, e: Entry<V>, buckets: array<Entry?<V>>,
    ghost cs: seq<seq<Entry<V>>>, ghost m: map<Bytes, V>, ghost repr: set<Entry<V>>)
    returns (ghost cs': seq<seq<Entry<V>>>)
    requires Table(hash, buckets[..], cs, m, repr) && e.key !in m && e !in repr
    modifies buckets, e`next
    ensures Table(hash, buckets[..], cs', m[e.key := e.val], repr + {e}) && |cs'| == |cs|
  {
    hide Table;
    var i := Bucket(hash, e.key, buckets.Length);
    e.next := buckets[i];
    ghost var heads := buckets[..];
    TablePush(hash, heads, cs, m, repr, e, i, [e] + cs[i]);
    buckets[i] := e;
    assert buckets[..] == heads[i := e];
    cs' := cs[i := [e] + cs[i]];
  }

  /** The inner rehashing loop: relink the entries of one old chain. */
  method RelinkChain<V(!new)>(hash: Hash, head: Entry?<V>, buckets: array<Entry?<V>>, ghost heads: seq<Entry?<V>>,
    ghost was: seq<seq<Entry<V>>>, ghost i: nat, ghost m: map<Bytes, V>, ghost repr: set<Entry<V>>,
    ghost cs: seq<seq<Entry<V>>>, ghost done: map<Bytes, V>, ghost moved: set<Entry<V>>)
    returns (ghost cs': seq<seq<Entry<V>>>, ghost done': map<Bytes, V>, ghost moved': set<Entry<V>>, ghost turns: nat)
    requires i < |was| && Placed(hash, was) && Inside(was, repr) && Holds(was, m, repr) && Covers(hash, was, m.Keys)
    requires |heads| == |was| && head == heads[i] && forall j :: i <= j < |was| ==> Linked(heads[j], was[j])
    requires Table(hash, buckets[..], cs, done, moved) && MovedTo(hash, was, m, i, 0, done)
    requires moved <= repr && forall x :: x in moved ==> x.key in done
    modifies buckets, repr`next
    ensures Table(hash, buckets[..], cs', done', moved') && MovedTo(hash, was, m, i + 1, 0, done')
    ensures moved' <= repr && forall x :: x in moved' ==> x.key in done'
    ensures turns == |was[i]| && forall j :: i < j < |was| ==> Linked(heads[j], was[j])
  {
    hide Table, Placed, Covers, MovedTo;
    ghost var c := was[i];
    var e := head;
    ghost var k: nat := 0;
    cs', done', moved' := cs, done, moved;
    EntriesDistinct(hash, was, i);
    ChainsDisjoint(hash, was, i);
    assert Linked(head, c) && forall l :: 0 <= l < |c| ==> c[l].next == EntryAt(c, l + 1);
    hide Linked;
    while e != null
      invariant k <= |c| && e == EntryAt(c, k)
      invariant forall l :: k <= l < |c| ==> c[l].next == EntryAt(c, l + 1)
      invariant Table(hash, buckets[..], cs', done', moved') && MovedTo(hash, was, m, i, k, done')
      invariant moved' <= repr && forall x :: x in moved' ==> x.key in done'
      invariant Holds(was, m, repr) && forall j :: i < j < |was| ==> Linked(heads[j], was[j])
      decreases |c| - k
    {
      var next := e.next;
      assert e in c;
      MovedEntry(hash, was, m, i, k, done', e.key);
      cs' := RelinkEntry(hash, e, buckets, cs', done', moved');
      done', moved' := done'[e.key := e.val], moved' + {e};
      e := next;
      k := k + 1;
    }
    MovedChain(hash, was, m, i, done');
    turns := k;
  }

  /** A cleared bucket array is a table without entries. */
  method NewBuckets<V(!new)>(ghost hash: Hash, size: nat)
    returns (buckets: array<Entry?<V>>, ghost cs: seq<seq<Entry<V>>>)
    requires size > 0
    ensures fresh(buckets) && buckets.Length == |cs| == size && Table(hash, buckets[..], cs, map[], {})
  {
    buckets := new Entry?<V>[size](_ => null);
    cs := seq(size, _ => []);
    TableEmpty(hash, buckets[..], cs);
  }

  /** The rehashing loops: all entries into a new bucket array. `turns` counts the entries relinked. */
  method Rehash<V(!new)>(hash: Hash, buckets: array<Entry?<V>>, newSize: nat,
    ghost was: seq<seq<Entry<V>>>, ghost m: map<Bytes, V>, ghost repr: set<Entry<V>>)
    returns (wider: array<Entry?<V>>, ghost cs: seq<seq<Entry<V>>>, ghost turns: nat)
    requires Table(hash, buckets[..], was, m, repr) && newSize > 0
    modifies repr`next
    ensures fresh(wider) && wider.Length == newSize && Table(hash, wider[..], cs, m, repr)
    ensures turns == |m|
  {
    hide Placed, Covers, MovedTo, Holds, Inside, Total, Linked;
    assert Inside(was, repr) && Placed(hash, was) && Covers(hash, was, m.Keys);
    assert Holds(was, m, repr) && Total(was) == |m|;
    ghost var heads := buckets[..];
    assert forall j :: 0 <= j < |was| ==> Linked(heads[j], was[j]);
    hide Table;
    wider, cs := NewBuckets(hash, newSize);
    ghost var done: map<Bytes, V>, moved: set<Entry<V>> := map[], {};
    TotalEmpty(was[..0]);
    MovedNothing(hash, was, m);
    turns := 0;
    for i := 0 to buckets.Length
      invariant Table(hash, wider[..], cs, done, moved) && MovedTo(hash, was, m, i, 0, done)
      invariant moved <= repr && forall x :: x in moved ==> x.key in done
      invariant forall j :: i <= j < |was| ==> Linked(heads[j], was[j])
      invariant Holds(was, m, repr) && turns == Total(was[..i])
    {
      ghost var n: nat;
      cs, done, moved, n := RelinkChain(hash, buckets[i], wider, heads, was, i, m, repr, cs, done, moved);
      TotalPrefix(was, i);
      turns := turns + n;
    }
    MovedAll(hash, was, m, done);
    assert was[..|was|] == was;
    TableWiden(hash, wider[..], cs, m, moved, repr);
  }

  /** The inner loop of `dict_each`, along one chain. */
  method VisitChain<S, V>(head: Entry?<V>, fn: (S, Bytes, V) -> (S, bool), init: S,
    ghost c: seq<Entry<V>>, ghost rest: seq<(Bytes, V)>, ghost repr: set<Entry<V>>) returns (s: S, more: bool)
    requires Linked(head, c) && forall e :: e in c ==> e in repr
    ensures Each(ChainItems(c, repr) + rest, fn, init) == if more then Each(rest, fn, s) else s
  {
    var e := head;
    s, more := init, true;
    ghost var k: nat := 0;
    while e != null
      invariant k <= |c| && e == EntryAt(c, k) && more
      invariant Each(ChainItems(c, repr) + rest, fn, init) == Each(ChainItems(c[k..], repr) + rest, fn, s)
      decreases |c| - k
    {
      assert c[k..][1..] == c[k + 1..];
      EachStep((e.key, e.val), ChainItems(c[k + 1..], repr) + rest, fn, s);
      assert ChainItems(c[k..], repr) + rest == [(e.key, e.val)] + (ChainItems(c[k + 1..], repr) + rest);
      var step := fn(s, e.key, e.val);
      s, more := step.0, step.1;
      if !more {
        return;
      }
      e := e.next;
      k := k + 1;
    }
    assert ChainItems(c[k..], repr) + rest == rest;
  }

  /** The load factor, and the work of resizing paid for by insertions. */
  ghost predicate Loaded(count: nat, size: nat, relinked: nat, inserted: nat) {
    && 4 * count <= 3 * size + 4
    && relinked <= 3 * inserted
    && 16 * relinked + 48 * count <= 48 * inserted + 13 * size
  }

  lemma LoadedGrow(count: nat, size: nat, relinked: nat, inserted: nat)
    requires Loaded(count, size, relinked, inserted) && 4 * count > 3 * size && size >= INITIAL_SIZE
    ensures Loaded(count, 2 * size, relinked + count, inserted) && 4 * count <= 3 * (2 * size)
  {
  }

  lemma LoadedLess(count: nat, size: nat, relinked: nat, inserted: nat)
    requires Loaded(count, size, relinked, inserted) && count > 0
    ensures Loaded(count - 1, size, relinked, inserted)
  {
  }

  class Dict<V(!new)> {
    const hash: Hash
    var buckets: array<Entry?<V>>
    var size: nat
    var count: nat
    ghost var chains: seq<seq<Entry<V>>>
    /** The finite map the table stands for. */
    ghost var M: map<Bytes, V>

    /** The entries of the chains. */
    ghost var Repr: set<Entry<V>>

    /** Entries relinked by resizing, and new keys put in, since the table was made. */
    ghost var relinked: nat
    ghost var inserted: nat

    ghost predicate Valid()
      reads this, buckets, Repr
    {
      && buckets.Length == size == |chains| && INITIAL_SIZE <= size && PowerOfTwo(size)
      && Table(hash, buckets[..], chains, M, Repr)
      && count == |M| && Loaded(count, size, relinked, inserted)
    }

    constructor (hash: Hash)
      ensures Valid() && M == map[] && fresh(buckets) && fresh(Repr)
      ensures this.hash == hash && size == 16 && relinked == inserted == 0
    {
      this.hash := hash;
      size, count := INITIAL_SIZE, 0;
      var empty, none := NewBuckets(hash, INITIAL_SIZE);
      buckets, chains := empty, none;
      M, Repr, relinked, inserted := map[], {}, 0, 0;
    }

    method Get(key: Bytes) returns (val: Option<V>)
      requires Valid()
      ensures val == if key in M then Some(M[key]) else None
    {
      hide Table;
      TableFind(hash, buckets[..], chains, M, Repr, key);
      var idx := Bucket(hash, key, size);
      var e := FindEntry(buckets[idx], key, chains[idx]);
      return if e == null then None else Some(e.val);
    }

    /** The value of a key already in the table is replaced in place. */
    method Overwrite(e: Entry<V>, val: V)
      requires Valid() && e.key in M && e in Repr
      requires var c := chains[Bucket(hash, e.key, size)]; e == EntryAt(c, FindIn(c, e.key))
      modifies this`M, e`val
      ensures Valid() && M == old(M)[e.key := val]
    {
      hide Linked, Placed, Covers, Total, PowerOfTwo, Loaded;
      ghost var m := M;
      e.val := val;
      TableOverwrite(hash, buckets[..], chains, m, Repr, e);
      M := m[e.key := val];
    }

    /** A new entry goes in front of its chain. */
    method PushNew(key: Bytes, val: V)
      requires Valid() && key !in M && 4 * count <= 3 * size
      modifies this`count, this`chains, this`M, this`Repr, this`inserted, buckets
      ensures Valid() && M == old(M)[key := val] && inserted == old(inserted) + 1
      ensures fresh(Repr - old(Repr))
    {
      hide Table, PowerOfTwo;
      var idx := Bucket(hash, key, size);
      var e := new Entry(key, val, buckets[idx]);
      TablePush(hash, buckets[..], chains, M, Repr, e, idx, [e] + chains[idx]);
      buckets[idx] := e;
      count := count + 1;
      M := M[key := val];
      inserted := inserted + 1;
      chains := chains[idx := [e] + chains[idx]];
      Repr := Repr + {e};
    }

    /** The found branch of deletion. */
    method Discard(idx: nat, prev: Entry?<V>, e: Entry<V>, ghost p: nat)
      requires Valid() && idx < size && p < |chains[idx]| && e == chains[idx][p]
      requires prev == if p == 0 then null else chains[idx][p - 1]
      modifies this`M, this`count, this`chains, buckets, Repr`next
      ensures Valid() && M == old(M) - {e.key}
    {
      hide Table, PowerOfTwo, RemoveAt, FindIn, Loaded;
      ghost var cs, m := chains, M;
      Unlink(hash, buckets, idx, prev, e, cs, m, Repr, p);
      LoadedLess(count, size, relinked, inserted);
      count, chains, M := count - 1, cs[idx := RemoveAt(cs[idx], p)], m - {e.key};
    }

    method Del(key: Bytes) returns (found: bool)
      requires Valid()
      modifies this`M, this`count, this`chains, buckets, Repr`next
      ensures Valid() && M == old(M) - {key} && found == (key in old(M))
    {
      hide Table, PowerOfTwo, RemoveAt, FindIn, Loaded;
      TableFind(hash, buckets[..], chains, M, Repr, key);
      var idx := Bucket(hash, key, size);
      var prev, e := FindWithPrev(buckets[idx], key, chains[idx]);
      found := e != null;
      if found {
        Discard(idx, prev, e, FindIn(chains[idx], key));
      }
    }

    /** `dict_resize` to twice the size: the map stays, every entry is relinked once. */
    method Grow()
      requires Valid() && 4 * count > 3 * size
      modifies this`buckets, this`size, this`chains, this`relinked, Repr`next
      ensures Valid() && size == 2 * old(size) && fresh(buckets)
      ensures relinked == old(relinked) + count && 4 * count <= 3 * size
    {
      hide Table, PowerOfTwo, Loaded;
      PowerOfTwoDouble(size);
      LoadedGrow(count, size, relinked, inserted);
      var wider, cs, turns := Rehash(hash, buckets, 2 * size, chains, M, Repr);
      buckets, size, chains, relinked := wider, 2 * size, cs, relinked + turns;
    }

    method Set(key: Bytes, val: V)
      requires Valid()
      modifies this, buckets, Repr
      ensures Valid() && M == old(M)[key := val]
      ensures fresh(Repr - old(Repr)) && (buckets == old(buckets) || fresh(buckets))
      ensures inserted == old(inserted) + if key in old(M) then 0 else 1
      ensures size == if 4 * old(count) > 3 * old(size) then 2 * old(size) else old(size)
      ensures relinked == old(relinked) + if 4 * old(count) > 3 * old(size) then old(count) else 0
    {
      hide Table, PowerOfTwo, Loaded;
      if 4 * count > 3 * size {
        Grow();
      }
      TableFind(hash, buckets[..], chains, M, Repr, key);
      var e := FindEntry(buckets[Bucket(hash, key, size)], key, chains[Bucket(hash, key, size)]);
      if e != null {
        Overwrite(e, val);
      } else {
        PushNew(key, val);
      }
    }

    /** Writing through the object that `dict_get` returned: no table operation, one value changes. */
    method Replace(key: Bytes, val: V)
      requires Valid() && key in M
      modifies this`M, Repr`val
      ensures Valid() && M == old(M)[key := val]
    {
      hide Table, PowerOfTwo, Loaded;
      TableFind(hash, buckets[..], chains, M, Repr, key);
      var e := FindEntry(buckets[Bucket(hash, key, size)], key, chains[Bucket(hash, key, size)]);
      Overwrite(e, val);
    }

    ghost function Visit(): seq<(Bytes, V)>
      requires Valid()
      reads this, buckets, Repr
    {
      Items(chains, Repr)
    }

    /** What holds of every table: the load and the work of resizing are bounded ... */
    lemma Bounds()
      requires Valid()
      ensures 4 * count <= 3 * size + 4 && relinked <= 3 * inserted && count == |M|
    {
      hide Table, PowerOfTwo;
    }

    /** ... and every entry sits in the bucket that its hash, masked with the size less one, gives. */
    lemma Masked(i: nat, k: nat)
      requires Valid() && i < size && k < |chains[i]|
      ensures i == And(hash(chains[i][k].key), size - 1)
    {
      hide Table, And, PowerOfTwo, Loaded;
      EntryInBucket(hash, buckets[..], chains, M, Repr, i, k);
    }

    lemma VisitEnumerates()
      requires Valid()
      ensures Enumerates(Visit(), M)
    {
      ItemsEnumerate(hash, buckets[..], chains, M, Repr);
    }

    /** `dict_size`. */
    method Count() returns (n: nat)
      requires Valid()
      ensures n == |M|
    {
      n := count;
    }

    /** `dict_each`: each pair in turn, until the callback says stop. */
    method ForEach<S>(fn: (S, Bytes, V) -> (S, bool), init: S) returns (s: S)
      requires Valid()
      ensures s == Each(Visit(), fn, init)
      ensures Enumerates(Visit(), M)
    {
      hide PowerOfTwo, Placed, Covers, Holds, Total, Loaded, Each;
      ItemsEnumerate(hash, buckets[..], chains, M, Repr);
      s := init;
      for i := 0 to size
        invariant Each(Visit(), fn, init) == Each(Items(chains[i..], Repr), fn, s)
      {
        assert chains[i..][1..] == chains[i + 1..];
        assert Linked(buckets[i], chains[i]);
        var more;
        s, more := VisitChain(buckets[i], fn, s, chains[i], Items(chains[i + 1..], Repr), Repr);
        if !more {
          return;
        }
      }
      EachNothing(fn, s);
    }
  }
}
