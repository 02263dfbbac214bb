/** src/rdb.cpp: writing lists, hashes and sorted sets from their linked structures, and reading them back
    into new ones. */
module RdbObjects {
  import opened Sequences
  import opened Bytes
  import opened ZSetModel
  import opened Codec
  import opened Snapshot
  import opened Chains
  import opened Dicts
  import opened ZSets
  import opened LinkedLists
  import opened Rdb
  import Crc

  // ---------- writing ----------

  lemma BlobsFrom(items: seq<Bytes>, k: nat)
    requires k < |items|
    ensures PutBlobs(items[k..]) == PutBlob(items[k]) + PutBlobs(items[k + 1..])
  {
    assert items[k..][1..] == items[k + 1..];
  }

  /** The list branch of `write_entry`: the length, then the values along the `next` pointers. */
  method WriteList(w: Writer, l: List)
    requires w.Valid() && l.Valid()
    modifies w
    ensures w.Valid() && w.out == old(w.out) + PutBody(ListOf(l.Items()))
  {
    hide PutBlob, PutBlobs, Crc.IsTable, Put, Values, Writer.Valid;
    ghost var items, goal := l.Items(), w.out + PutBody(ListOf(l.Items()));
    Reassociate(w.out, Put(l.len % TWO_32, 4), PutBlobs(items));
    w.Write(Put(l.len % TWO_32, 4));
    assert items[0..] == items;
    var n, k := l.head, 0;
    while n != null
      invariant w.Valid() && k <= l.len && (n == if k < l.len then l.nodes[k] else null)
      invariant goal == w.out + PutBlobs(items[k..])
      decreases l.len - k
    {
      assert LinkedLists.Placed(l.nodes, k, null, null);
      ValueAt(l.nodes, k);
      BlobsFrom(items, k);
      Reassociate(w.out, PutBlob(items[k]), PutBlobs(items[k + 1..]));
      w.WriteBlob(n.value);
      n := n.next;
      k := k + 1;
    }
    assert items[k..] == [] && PutBlobs([]) == [] by { NoBlobs(); }
  }

  lemma NoBlobs()
    ensures PutBlobs([]) == []
  {
  }

  /** `hash_collect_cb`: collect fields until there are 4096. */
  function CollectField(fields: Listing, field: Bytes, val: Bytes): (Listing, bool) {
    if |fields| >= MAX_COLLECTED then (fields, false) else (fields + [(field, val)], true)
  }

  lemma {:induction false} CollectFields(items: Listing, fields: Listing)
    requires |fields| <= MAX_COLLECTED
    ensures Each(items, CollectField, fields) == Collected(fields + items)
    decreases |items|
  {
    if items == [] {
      assert fields + items == fields;
    } else if |fields| < MAX_COLLECTED {
      assert items[0] == (items[0].0, items[0].1);
      assert fields + items == fields + [items[0]] + items[1..];
      CollectFields(items[1..], fields + [items[0]]);
    } else {
      assert (fields + items)[..MAX_COLLECTED] == fields;
    }
  }

  /** The hash branch: what the callback collects from the hash's own table is counted and written. */
  method WriteHash(w: Writer, h: Dict<Bytes>)
    requires w.Valid() && h.Valid()
    modifies w
    ensures w.Valid() && w.out == old(w.out) + PutBody(HashOf(h.Visit())) && Enumerates(h.Visit(), h.M)
  {
    hide Crc.IsTable, Put, PutFields, Dict.Valid, Collected, Each, Writer.Valid;
    var fields := h.ForEach(CollectField, []);
    CollectFields(h.Visit(), []);
    assert [] + h.Visit() == h.Visit();
    CollectedShort(h.Visit());
    Reassociate(w.out, Put(|fields|, 4), PutFields(fields));
    w.Write(Put(|fields| % TWO_32, 4));
    w.WriteFields(fields);
  }

  lemma CollectedShort(fields: Listing)
    ensures |Collected(fields)| % TWO_32 == |Collected(fields)|
  {
  }

  /** The sorted-set branch: the cardinality, then the elements by rank, at most 4096 of them. */
  method WriteSorted(w: Writer, z: ZSet)
    requires w.Valid() && z.Valid()
    modifies w
    ensures w.Valid() && w.out == old(w.out) + PutBody(SortedOf(z.Value()))
  {
    hide Crc.IsTable, Put, PutElems, ZSet.Valid, Slice, Writer.Valid;
    var card := z.ZCard();
    card := card % TWO_32;
    w.Write(Put(card, 4));
    var elems := z.ZRange(0, card - 1, MAX_COLLECTED);
    w.WriteElems(elems);
  }

  // ---------- reading ----------

  lemma BlobsStep(s: Bytes, n: nat)
    requires n > 0
    ensures var one := GetBlob(s);
      GetBlobs(s, n) ==
        if one.Short? || GetBlobs(one.rest, n - 1).Short? then Short
        else Got([one.value] + GetBlobs(one.rest, n - 1).value, GetBlobs(one.rest, n - 1).rest)
  {
    hide GetBlob;
  }

  /** All the values, given those already read and what the rest holds. */
  ghost predicate Continues(all: Read<seq<Bytes>>, items: seq<Bytes>, more: Read<seq<Bytes>>) {
    all == if more.Short? then Short else Got(items + more.value, more.rest)
  }

  lemma ContinuesStep(all: Read<seq<Bytes>>, items: seq<Bytes>, s: Bytes, n: nat)
    requires n > 0 && Continues(all, items, GetBlobs(s, n))
    ensures var one := GetBlob(s);
      if one.Short? then all == Short else Continues(all, items + [one.value], GetBlobs(one.rest, n - 1))
  {
    hide GetBlob, GetBlobs;
    BlobsStep(s, n);
    var one := GetBlob(s);
    if one.Got? && GetBlobs(one.rest, n - 1).Got? {
      Reassociate(items, [one.value], GetBlobs(one.rest, n - 1).value);
    }
  }

  lemma ContinuesEnds(all: Read<seq<Bytes>>, items: seq<Bytes>, s: Bytes)
    ensures Continues(all, items, GetBlobs(s, 0)) ==> all == Got(items, s)
  {
    assert items + [] == items;
  }

  lemma ContinuesBegins(all: Read<seq<Bytes>>)
    ensures Continues(all, [], all)
  {
    if all.Got? {
      assert [] + all.value == all.value;
    }
  }

  /** The loop of the list branch: every value is pushed behind as it is read. */
  method ReadValues(r: Reader, n: nat) returns (l: List?)
    requires r.Valid() && r.ok
    modifies r
    ensures r.Valid() && r.pos <= |r.data| && match GetBlobs(old(r.Rest()), n)
      case Short => l == null
      case Got(items, rest) => l != null && fresh(l) && l.Valid() && items == l.Items() && r.ok && r.Rest() == rest
  {
    hide Crc.IsTable, Crc.Update, GetBlob, GetBlobs, List.Valid, Values, Continues;
    l := new List();
    ghost var all := GetBlobs(r.Rest(), n);
    ContinuesBegins(all);
    for j := 0 to n
      invariant r.Valid() && r.ok && fresh(l) && l.Valid() && fresh(l.Repr)
      invariant Continues(all, l.Items(), GetBlobs(r.Rest(), n - j))
    {
      ContinuesStep(all, l.Items(), r.Rest(), n - j);
      var item := r.ReadBlob();
      if item.None? { return null; }
      l.RPush(item.value);
    }
    ContinuesEnds(all, l.Items(), r.Rest());
  }

  method ReadList(r: Reader) returns (l: List?)
    requires r.Valid() && r.ok
    modifies r
    ensures r.Valid() && r.pos <= |r.data| && match GetBody(old(r.Rest()), TYPE_LIST)
      case Short => l == null
      case Got(body, rest) =>
        l != null && fresh(l) && l.Valid() && body == ListOf(l.Items()) && r.ok && r.Rest() == rest
  {
    hide Crc.IsTable, Crc.Update, GetBlobs, GetNat, List.Valid;
    var count := r.ReadNat(4);
    if count.None? { return null; }
    l := ReadValues(r, count.value);
  }

  lemma NoFields()
    ensures forall s, table :: GetFields(s, 0, table) == Got(table, s)
  {
  }

  lemma FieldsStep(s: Bytes, n: nat, table: Fields)
    requires n > 0
    ensures var one := GetFields(s, 1, table);
      GetFields(s, n, table) == if one.Short? then Short else GetFields(one.rest, n - 1, one.value)
  {
    hide GetBlob;
  }

  /** One turn of the hash loop. */
  method ReadField(r: Reader, h: Dict<Bytes>) returns (more: bool)
    requires r.Valid() && r.ok && h.Valid() && r.table as object != h.buckets
    modifies r, h, h.buckets, h.Repr
    ensures r.Valid() && more == GetFields(old(r.Rest()), 1, old(h.M)).Got?
    ensures more ==> h.Valid() && r.ok && GetFields(old(r.Rest()), 1, old(h.M)) == Got(h.M, r.Rest())
    ensures (h.buckets == old(h.buckets) || fresh(h.buckets)) && fresh(h.Repr - old(h.Repr))
  {
    hide Crc.IsTable, Crc.Update, GetBlob, Dict.Valid;
    var field := r.ReadBlob();
    if field.None? { return false; }
    var val := r.ReadBlob();
    if val.None? { return false; }
    h.Set(field.value, val.value);
    return true;
  }

  /** The loop of the hash branch: every field is set in a new table as it is read. */
  method ReadTable(r: Reader, n: nat, hash: Hash) returns (h: Dict?<Bytes>)
    requires r.Valid() && r.ok
    modifies r
    ensures r.Valid() && r.pos <= |r.data| && match GetFields(old(r.Rest()), n, map[])
      case Short => h == null
      case Got(fields, rest) => h != null && fresh(h) && h.Valid() && fields == h.M && r.ok && r.Rest() == rest
  {
    hide Crc.IsTable, Crc.Update, GetFields, Dict.Valid;
    NoFields();
    h := new Dict(hash);
    ghost var all := GetFields(r.Rest(), n, map[]);
    for j := 0 to n
      invariant r.Valid() && r.ok && fresh(h) && h.Valid() && fresh(h.buckets) && fresh(h.Repr)
      invariant all == GetFields(r.Rest(), n - j, h.M)
    {
      FieldsStep(r.Rest(), n - j, h.M);
      var more := ReadField(r, h);
      if !more { return null; }
    }
  }

  method ReadHash(r: Reader, hash: Hash) returns (h: Dict?<Bytes>)
    requires r.Valid() && r.ok
    modifies r
    ensures r.Valid() && r.pos <= |r.data| && match GetBody(old(r.Rest()), TYPE_HASH)
      case Short => h == null
      case Got(body, rest) =>
        h != null && fresh(h) && h.Valid() && body == HashOf(h.M) && r.ok && r.Rest() == rest
  {
    hide Crc.IsTable, Crc.Update, GetFields, GetNat, Dict.Valid;
    var count := r.ReadNat(4);
    if count.None? { return null; }
    h := ReadTable(r, count.value, hash);
  }

  lemma NoElems()
    ensures forall s, z :: GetElems(s, 0, z) == Got(z, s)
  {
  }

  lemma ElemsStep(s: Bytes, n: nat, z: State)
    requires n > 0
    ensures var one := GetElems(s, 1, z);
      GetElems(s, n, z) == if one.Short? then Short else GetElems(one.rest, n - 1, one.value)
  {
    hide GetBlob, GetScore, Add;
  }

  /** One turn of the sorted-set loop. */
  method ReadMember(r: Reader, z: ZSet) returns (more: bool)
    requires r.Valid() && r.ok && z.Valid() && r.table as object != z.ht.buckets
    requires r.table as object !in z.sl.Arrays
    modifies r, z.sl, z.sl.Arrays, z.ht, z.ht.buckets, z.ht.Repr
    ensures r.Valid() && more == GetElems(old(r.Rest()), 1, old(z.Value())).Got?
    ensures more ==> z.Valid() && r.ok && GetElems(old(r.Rest()), 1, old(z.Value())) == Got(z.Value(), r.Rest())
    ensures fresh(z.sl.Arrays - old(z.sl.Arrays)) && fresh(z.ht.Repr - old(z.ht.Repr))
    ensures z.ht.buckets == old(z.ht.buckets) || fresh(z.ht.buckets)
  {
    hide Crc.IsTable, Crc.Update, GetBlob, GetScore, ZSet.Valid, Add;
    var score := r.ReadScore();
    if score.None? { return false; }
    var member := r.ReadBlob();
    if member.None? { return false; }
    var added := z.ZAdd(member.value, score.value);
    return true;
  }

  /** The loop of the sorted-set branch: every element is added to a new sorted set as it is read. */
  method ReadMembers(r: Reader, n: nat, hash: Hash) returns (z: ZSet?)
    requires r.Valid() && r.ok
    modifies r
    ensures r.Valid() && r.pos <= |r.data| && match GetElems(old(r.Rest()), n, EMPTY)
      case Short => z == null
      case Got(state, rest) => z != null && fresh(z) && z.Valid() && state == z.Value() && r.ok && r.Rest() == rest
  {
    hide Crc.IsTable, Crc.Update, GetElems, ZSet.Valid;
    NoElems();
    z := new ZSet(hash);
    ghost var all := GetElems(r.Rest(), n, EMPTY);
    for j := 0 to n
      invariant r.Valid() && r.ok && fresh(z) && z.Valid()
      invariant fresh(z.sl) && fresh(z.sl.Arrays) && fresh(z.ht) && fresh(z.ht.buckets) && fresh(z.ht.Repr)
      invariant all == GetElems(r.Rest(), n - j, z.Value())
    {
      ElemsStep(r.Rest(), n - j, z.Value());
      var more := ReadMember(r, z);
      if !more { return null; }
    }
  }

  method ReadSorted(r: Reader, hash: Hash) returns (z: ZSet?)
    requires r.Valid() && r.ok
    modifies r
    ensures r.Valid() && r.pos <= |r.data| && match GetBody(old(r.Rest()), TYPE_ZSET)
      case Short => z == null
      case Got(body, rest) =>
        z != null && fresh(z) && z.Valid() && body == SortedOf(z.Value()) && r.ok && r.Rest() == rest
  {
    hide Crc.IsTable, Crc.Update, GetElems, GetNat, ZSet.Valid;
    var count := r.ReadNat(4);
    if count.None? { return null; }
    z := ReadMembers(r, count.value, hash);
  }
}
