/** src/commands.cpp: what the handlers do to the list, the hash or the sorted set under a key, on the
    linked structures themselves. */
module Objects {
  import opened Sequences
  import opened Bytes
  import opened SortedSet
  import opened ZSetModel
  import opened Codec
  import opened Snapshot
  import opened Keyspace
  import opened Dicts
  import opened ZSets
  import opened LinkedLists

  // ---------- hashes ----------

  /** The argument loop of HSET: it asks whether a field exists before it sets it. */
  method SetFields(h: Dict<Bytes>, pairs: seq<(Bytes, Bytes)>) returns (count: nat)
    requires h.Valid()
    modifies h, h.buckets, h.Repr
    ensures h.Valid() && h.M == SetAll(pairs, old(h.M)) && count == CountNew(pairs, old(h.M))
    ensures (h.buckets == old(h.buckets) || fresh(h.buckets)) && fresh(h.Repr - old(h.Repr))
  {
    hide Dict.Valid;
    count := 0;
    ghost var all, total := SetAll(pairs, h.M), CountNew(pairs, h.M);
    for i := 0 to |pairs|
      invariant h.Valid() && all == SetAll(pairs[i..], h.M) && total == count + CountNew(pairs[i..], h.M)
      invariant (h.buckets == old(h.buckets) || fresh(h.buckets)) && fresh(h.Repr - old(h.Repr))
    {
      assert pairs[i..][1..] == pairs[i + 1..];
      var (field, val) := pairs[i];
      var was := h.Get(field);
      h.Set(field, val);
      if was.None? {
        count := count + 1;
      }
    }
  }

  /** The argument loop of HDEL. */
  method DeleteFields(h: Dict<Bytes>, names: seq<Bytes>) returns (count: nat)
    requires h.Valid()
    modifies h`M, h`count, h`chains, h.buckets, h.Repr`next
    ensures h.Valid() && h.M == RemoveFields(names, old(h.M)).0 && count == RemoveFields(names, old(h.M)).1
  {
    hide Dict.Valid;
    count := 0;
    ghost var all := RemoveFields(names, h.M);
    for i := 0 to |names|
      invariant h.Valid() && all.0 == RemoveFields(names[i..], h.M).0
      invariant all.1 == count + RemoveFields(names[i..], h.M).1
    {
      assert names[i..][1..] == names[i + 1..];
      RemoveFieldsFirst(names[i..], h.M);
      var deleted := h.Del(names[i]);
      if deleted {
        count := count + 1;
      }
    }
  }

  /** A hash handler on the table of the hash: the new contents and the reply are those of the command. */
  method OnHash(h: Dict<Bytes>, op: Keyed, ghost expireAt: int64) returns (reply: Reply)
    requires h.Valid() && (op.HGet? || op.HExists? || op.HLen? || op.HSet? || op.HDel?)
    modifies h, h.buckets, h.Repr
    ensures h.Valid()
    ensures ActHash(op, Some(Obj(HashOf(old(h.M)), expireAt))) == (Some(Obj(HashOf(h.M), expireAt)), reply)
  {
    hide Dict.Valid, CountNew, RemoveFields, SetAll;
    match op
    case HGet(field) =>
      var val := h.Get(field);
      reply := if val.None? then Nil else Bulk(val.value);
    case HExists(field) =>
      var val := h.Get(field);
      reply := Int(if val.None? then 0 else 1);
    case HLen =>
      var n := h.Count();
      reply := Int(n);
    case HSet(pairs) =>
      var count := SetFields(h, pairs);
      reply := Int(count);
    case HDel(names) =>
      var count := DeleteFields(h, names);
      reply := Int(count);
  }

  // ---------- sorted sets ----------

  /** The argument loop of ZADD. It counts the adds that answer true, and all of them do. */
  method AddPairs(z: ZSet, pairs: seq<(SortedSet.Score, Bytes)>) returns (added: nat)
    requires z.Valid()
    modifies z.sl, z.sl.Arrays, z.ht, z.ht.buckets, z.ht.Repr
    ensures z.Valid() && z.Value() == AddAll(pairs, old(z.Value())) && added == |pairs|
    ensures fresh(z.sl.Arrays - old(z.sl.Arrays)) && fresh(z.ht.Repr - old(z.ht.Repr))
    ensures z.ht.buckets == old(z.ht.buckets) || fresh(z.ht.buckets)
  {
    hide ZSet.Valid, Add;
    added := 0;
    ghost var all := AddAll(pairs, z.Value());
    for i := 0 to |pairs|
      invariant z.Valid() && all == AddAll(pairs[i..], z.Value()) && added == i
      invariant fresh(z.sl.Arrays - old(z.sl.Arrays)) && fresh(z.ht.Repr - old(z.ht.Repr))
      invariant z.ht.buckets == old(z.ht.buckets) || fresh(z.ht.buckets)
    {
      assert pairs[i..][1..] == pairs[i + 1..];
      var more := z.ZAdd(pairs[i].1, pairs[i].0);
      if more {
        added := added + 1;
      }
    }
  }

  /** The argument loop of ZREM. */
  method DeleteMembers(z: ZSet, members: seq<Bytes>) returns (count: nat)
    requires z.Valid()
    modifies z.sl, z.sl.Arrays, z.ht, z.ht.buckets, z.ht.Repr
    ensures z.Valid() && z.Value() == RemoveMembers(members, old(z.Value())).0
    ensures count == RemoveMembers(members, old(z.Value())).1
  {
    hide ZSet.Valid, Rem;
    count := 0;
    ghost var all := RemoveMembers(members, z.Value());
    for i := 0 to |members|
      invariant z.Valid() && all.0 == RemoveMembers(members[i..], z.Value()).0
      invariant all.1 == count + RemoveMembers(members[i..], z.Value()).1
      invariant z.sl.Arrays <= old(z.sl.Arrays)
      invariant z.ht.buckets == old(z.ht.buckets) && z.ht.Repr == old(z.ht.Repr)
    {
      assert members[i..][1..] == members[i + 1..];
      RemoveMembersFirst(members[i..], z.Value());
      var removed := z.ZRem(members[i]);
      if removed {
        count := count + 1;
      }
    }
  }

  /** A sorted-set handler on the skip list and its table. */
  method OnSorted(z: ZSet, op: Keyed, ghost expireAt: int64) returns (reply: Reply)
    requires z.Valid() && (op.ZScore? || op.ZRank? || op.ZCard? || op.ZRange? || op.ZAdd? || op.ZRem?)
    modifies z.sl, z.sl.Arrays, z.ht, z.ht.buckets, z.ht.Repr
    ensures z.Valid()
    ensures ActSorted(op, Some(Obj(SortedOf(old(z.Value())), expireAt))) ==
        (Some(Obj(SortedOf(z.Value()), expireAt)), reply)
  {
    hide ZSet.Valid, AddAll, RemoveMembers, Rank, Slice;
    match op
    case ZScore(member) =>
      var score := z.ZScore(member);
      reply := if score.None? then Nil else Score(score.value);
    case ZRank(member) =>
      var rank := z.ZRank(member);
      reply := if rank < 0 then Nil else Int(rank);
    case ZCard =>
      var n := z.ZCard();
      reply := Int(n);
    case ZRange(start, end) =>
      var elems := z.ZRange(start, end, MAX_COLLECTED);
      reply := Ranked(elems);
    case ZAdd(pairs) =>
      var added := AddPairs(z, pairs);
      reply := Int(added);
    case ZRem(members) =>
      var count := DeleteMembers(z, members);
      reply := Int(count);
  }

  // ---------- lists ----------

  /** A pop handler on the linked nodes. Its caller looks at the length and deletes the key of a list
      that has become empty. */
  method PopList(l: List, op: Keyed, ghost expireAt: int64) returns (reply: Reply)
    requires l.Valid() && (op.LPop? || op.RPop?)
    modifies l, l.Repr
    ensures l.Valid()
    ensures var after := if reply.Bulk? && l.Items() == [] then None else Some(Obj(ListOf(l.Items()), expireAt));
      ActList(op, Some(Obj(ListOf(old(l.Items())), expireAt))) == (after, reply)
  {
    ghost var items := l.Items();
    if op.LPop? {
      var val := l.LPop();
      if val.Some? {
        FirstOff(items, val.value, l.Items());
      }
      reply := if val.None? then Nil else Bulk(val.value);
    } else {
      var val := l.RPop();
      if val.Some? {
        LastOff(items, val.value, l.Items());
      }
      reply := if val.None? then Nil else Bulk(val.value);
    }
  }

  /** A push handler. */
  method PushList(l: List, op: Keyed, ghost expireAt: int64) returns (reply: Reply)
    requires l.Valid() && (op.LPush? || op.RPush?)
    modifies l, l.Repr
    ensures l.Valid()
    ensures ActList(op, Some(Obj(ListOf(old(l.Items())), expireAt))) == (Some(Obj(ListOf(l.Items()), expireAt)), reply)
  {
    hide List.Valid, Reverse;
    if op.LPush? {
      PushLeft(l, op.vals);
      ReverseLength(op.vals);
    } else {
      PushRight(l, op.vals);
    }
    var n := l.Length();
    reply := Int(n);
  }

  /** A handler that only looks at the list. */
  method LookAtList(l: List, op: Keyed, ghost expireAt: int64) returns (reply: Reply)
    requires l.Valid() && (op.LLen? || op.LRange? || op.LIndex?)
    ensures var o := Some(Obj(ListOf(l.Items()), expireAt)); ActList(op, o) == (o, reply)
  {
    hide Slice, List.Valid, ItemAt;
    match op
    case LLen =>
      var n := l.Length();
      reply := Int(n);
    case LRange(start, end) =>
      var out := l.Range(start, end, MAX_RANGE);
      reply := Array(out);
    case LIndex(index) =>
      var val := l.Index(index);
      reply := if val.None? then Nil else Bulk(val.value);
  }

  lemma FirstOff(items: seq<Bytes>, val: Bytes, rest: seq<Bytes>)
    requires items == [val] + rest
    ensures items != [] && val == items[0] && rest == items[1..]
  {
  }

  lemma LastOff(items: seq<Bytes>, val: Bytes, rest: seq<Bytes>)
    requires items == rest + [val]
    ensures items != [] && val == items[|items| - 1] && rest == items[..|items| - 1]
  {
  }
}
