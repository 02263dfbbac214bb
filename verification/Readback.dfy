/** src/commands.cpp: what the reading commands answer after a writing one. */
module Readback {
  import opened Sequences
  import opened Bytes
  import opened SortedSet
  import opened ZSetModel
  import opened Codec
  import opened Snapshot
  import opened Keyspace

  /** The keyspace a command leaves, and its reply. */
  function After(m: Store, c: Command, now: int): Store {
    Exec(m, c, now).0
  }

  function Answer(m: Store, c: Command, now: int): Reply {
    Exec(m, c, now).1
  }

  /** All other keys are as they were. */
  ghost predicate OthersKept(m: Store, n: Store, key: Bytes) {
    forall k :: k != key ==> (k in n <==> k in m) && (k in m ==> n[k] == m[k])
  }

  // ---------- looking a key up ----------

  /** A handler that checks expiry works on the value while it has no deadline or the deadline is ahead ... */
  lemma OnLive(m: Store, key: Bytes, op: Keyed, now: int)
    requires key in m && (m[key].expireAt == 0 || now < m[key].expireAt)
    ensures Answer(m, On(key, op), now) == Act(op, Some(m[key])).1
    ensures var o, n := Act(op, Some(m[key])).0, After(m, On(key, op), now);
      OthersKept(m, n, key) && (key in n <==> o.Some?) && (o.Some? ==> n[key] == o.value)
  {
    hide Act;
  }

  /** ... and otherwise as if the key were not there. */
  lemma OnAbsent(m: Store, key: Bytes, op: Keyed, now: int)
    requires key in m ==> m[key].expireAt != 0 && now >= m[key].expireAt
    ensures Answer(m, On(key, op), now) == Act(op, None).1
    ensures var o, n := Act(op, None).0, After(m, On(key, op), now);
      OthersKept(m, n, key) && (key in n <==> o.Some?) && (o.Some? ==> n[key] == o.value)
  {
    hide Act;
  }

  // ---------- deadlines ----------

  /** After EXPIRE the key holds what it held and TTL counts the seconds down, rounded up, to the deadline. */
  lemma ExpireThenTtl(m: Store, key: Bytes, secs: int, now: int, t: int)
    requires key in m
    requires -0x8000_0000_0000_0000 <= now + 1000 * secs < 0x8000_0000_0000_0000 && now + 1000 * secs != 0
    ensures var n := After(m, Expire(key, secs), now);
      && Answer(m, Expire(key, secs), now) == Int(1) && OthersKept(m, n, key)
      && key in n && n[key].body == m[key].body && n[key].expireAt == now + 1000 * secs
    ensures var left, reply := 1000 * secs - (t - now), Answer(After(m, Expire(key, secs), now), Ttl(key), t);
      if left <= 0 then reply == Int(-2)
      else reply.Int? && 1000 * (reply.n - 1) < left <= 1000 * reply.n
  {
  }

  /** At the deadline the key is gone: every handler that checks expiry finds nothing. */
  lemma ExpireThenGet(m: Store, key: Bytes, secs: int, now: int, t: int)
    requires key in m
    requires -0x8000_0000_0000_0000 <= now + 1000 * secs < 0x8000_0000_0000_0000 && now + 1000 * secs != 0
    ensures var n := After(m, Expire(key, secs), now);
      Answer(n, On(key, Get), t) == if t >= now + 1000 * secs then Nil
                                    else if m[key].body.Text? then Bulk(m[key].body.text) else WrongType
  {
    ExpireThenTtl(m, key, secs, now, t);
    var n := After(m, Expire(key, secs), now);
    if t >= now + 1000 * secs {
      OnAbsent(n, key, Get, t);
    } else {
      OnLive(n, key, Get, t);
    }
  }

  /** A deadline of 0 is no deadline. */
  lemma ExpireToZero(m: Store, key: Bytes, secs: int, now: int, t: int)
    requires key in m && now + 1000 * secs == 0
    ensures Answer(After(m, Expire(key, secs), now), Ttl(key), t) == Int(-1)
  {
  }

  lemma ExpireMissing(m: Store, key: Bytes, secs: int, now: int)
    requires key !in m
    ensures Exec(m, Expire(key, secs), now) == (m, Int(0)) && Exec(m, Persist(key), now) == (m, Int(0))
    ensures Answer(m, Ttl(key), now) == Int(-2)
  {
  }

  /** After PERSIST the key holds what it held and has no deadline any more; the answer says whether it had
      one. */
  lemma PersistThenTtl(m: Store, key: Bytes, now: int, t: int)
    requires key in m
    ensures var n := After(m, Persist(key), now);
      && Answer(m, Persist(key), now) == Int(if m[key].expireAt == 0 then 0 else 1) && OthersKept(m, n, key)
      && key in n && n[key].body == m[key].body && Answer(n, Ttl(key), t) == Int(-1)
  {
  }

  // ---------- strings ----------

  /** After SET the key holds the string, without a deadline, whatever was there. */
  lemma SetThenGet(m: Store, key: Bytes, val: Bytes, now: int, t: int)
    ensures var n := After(m, Set(key, val), now);
      && OthersKept(m, n, key) && Answer(n, On(key, Get), t) == Bulk(val) && Answer(n, Ttl(key), t) == Int(-1)
      && Answer(n, On(key, StrLen), t) == Int(|val|) && Answer(n, On(key, Type), t) == Kind("string")
  {
  }

  /** SETNX leaves a live key alone, and is SET where there is none. */
  lemma SetNxThenGet(m: Store, key: Bytes, val: Bytes, now: int, t: int)
    ensures var n := After(m, On(key, SetNx(val)), now);
      if key in m && (m[key].expireAt == 0 || now < m[key].expireAt)
      then n == m && Answer(m, On(key, SetNx(val)), now) == Int(0)
      else && Answer(m, On(key, SetNx(val)), now) == Int(1) && OthersKept(m, n, key)
           && Answer(n, On(key, Get), t) == Bulk(val) && Answer(n, Ttl(key), t) == Int(-1)
  {
    var n := After(m, On(key, SetNx(val)), now);
    if key in m && (m[key].expireAt == 0 || now < m[key].expireAt) {
      assert m[key := m[key]] == m;
    } else {
      OnAbsent(m, key, SetNx(val), now);
      OnLive(n, key, Get, t);
    }
  }

  /** APPEND puts its bytes behind a live string, whose deadline stays, and is SET where there is none. */
  lemma AppendThenGet(m: Store, key: Bytes, val: Bytes, now: int)
    requires key in m ==> m[key].body.Text?
    ensures var n := After(m, On(key, Append(val)), now);
      var live := key in m && (m[key].expireAt == 0 || now < m[key].expireAt);
      var text := if live then m[key].body.text + val else val;
      && OthersKept(m, n, key) && Answer(m, On(key, Append(val)), now) == Int(|text|)
      && Answer(n, On(key, Get), now) == Bulk(text) && Answer(n, On(key, StrLen), now) == Int(|text|)
      && key in n && n[key].expireAt == if live then m[key].expireAt else 0
  {
    var n := After(m, On(key, Append(val)), now);
    if key in m && (m[key].expireAt == 0 || now < m[key].expireAt) {
      OnLive(m, key, Append(val), now);
    } else {
      OnAbsent(m, key, Append(val), now);
    }
    OnLive(n, key, Get, now);
    OnLive(n, key, StrLen, now);
  }

  // ---------- all keys ----------

  /** After FLUSHDB there is nothing. */
  lemma FlushThenNothing(m: Store, key: Bytes, now: int, t: int)
    ensures var n := After(m, FlushDb, now);
      && |n| == 0 && Answer(n, DbSize, t) == Int(0) && Answer(n, On(key, Get), t) == Nil
      && Answer(n, On(key, Type), t) == Kind("none") && Answer(n, Ttl(key), t) == Int(-2)
  {
  }

  /** DEL takes away exactly the keys named ... */
  lemma {:induction false} DelLeaves(m: Store, keys: seq<Bytes>)
    ensures ExecDel(m, keys).0 == m - Members(keys)
    decreases |keys|
  {
    hide Members;
    if keys == [] {
      MembersNone<Bytes>();
      assert m - {} == m;
    } else {
      MembersFirst(keys);
      MinusTwice(m, keys[0], Members(keys[1..]));
      DelFirst(m, keys);
      hide ExecDel;
      DelLeaves(m - {keys[0]}, keys[1..]);
    }
  }

  /** ... and answers with how many keys there are less. */
  lemma {:induction false} DelCounts(m: Store, keys: seq<Bytes>)
    ensures ExecDel(m, keys).1 == |m| - |ExecDel(m, keys).0|
    decreases |keys|
  {
    if keys != [] {
      SizeAfterRemove(m, keys[0]);
      DelFirst(m, keys);
      hide ExecDel;
      DelCounts(m - {keys[0]}, keys[1..]);
    }
  }

  lemma DelFirst(m: Store, keys: seq<Bytes>)
    requires keys != []
    ensures var after := ExecDel(m - {keys[0]}, keys[1..]);
      && ExecDel(m, keys).0 == after.0 && ExecDel(m, keys).1 == after.1 + if keys[0] in m then 1 else 0
  {
  }

  lemma DelExec(m: Store, keys: seq<Bytes>, now: int)
    ensures After(m, Del(keys), now) == ExecDel(m, keys).0 && Answer(m, Del(keys), now) == Int(ExecDel(m, keys).1)
    ensures Answer(m, DbSize, now) == Int(|m|)
  {
    hide ExecDel;
  }

  lemma DelThenGone(m: Store, keys: seq<Bytes>, now: int)
    ensures After(m, Del(keys), now) == m - Members(keys)
    ensures Answer(m, Del(keys), now) == Int(|m| - |m - Members(keys)|) && Answer(m, DbSize, now) == Int(|m|)
  {
    DelExec(m, keys, now);
    hide After, Answer, ExecDel, Members;
    DelLeaves(m, keys);
    DelCounts(m, keys);
  }

  // ---------- lists ----------

  lemma ListActs(items: seq<Bytes>, e: int64, k: int)
    ensures var o := Some(Obj(ListOf(items), e));
      && Act(LLen, o).1 == Int(|items|) && Act(Type, o).1 == Kind("list")
      && Act(LRange(0, -1), o).1 == Array(Slice(items, 0, -1, 65536))
      && Act(LIndex(k), o).1 == if ItemAt(items, k).Some? then Bulk(ItemAt(items, k).value) else Nil
  {
    hide Slice, ItemAt;
  }

  /** What the reading commands answer of a live list, all of it in its order. */
  lemma ListReads(m: Store, key: Bytes, now: int, k: int)
    requires key in m && (m[key].expireAt == 0 || now < m[key].expireAt) && m[key].body.ListOf? && k >= 0
    ensures var items := m[key].body.items;
      && Answer(m, On(key, LLen), now) == Int(|items|) && Answer(m, On(key, Type), now) == Kind("list")
      && (|items| <= 65536 ==> Answer(m, On(key, LRange(0, -1)), now) == Array(items))
      && Answer(m, On(key, LIndex(k)), now) == (if k < |items| then Bulk(items[k]) else Nil)
      && (k > 0 ==> Answer(m, On(key, LIndex(-k)), now) == if k <= |items| then Bulk(items[|items| - k]) else Nil)
  {
    hide Act, After, Answer, ItemAt, Slice;
    var items := m[key].body.items;
    assert m[key] == Obj(ListOf(items), m[key].expireAt);
    ListActs(items, m[key].expireAt, k);
    ListActs(items, m[key].expireAt, -k);
    OnLive(m, key, LLen, now);
    OnLive(m, key, Type, now);
    OnLive(m, key, LRange(0, -1), now);
    OnLive(m, key, LIndex(k), now);
    OnLive(m, key, LIndex(-k), now);
    ItemAtMeans(items, k);
    if |items| <= 65536 {
      SliceWhole(items, 65536);
    }
  }

  /** The items of a live list, or none where there is no live key. */
  function ItemsOf(m: Store, key: Bytes, now: int): seq<Bytes>
    requires key in m ==> m[key].body.ListOf?
  {
    if key in m && (m[key].expireAt == 0 || now < m[key].expireAt) then m[key].body.items else []
  }

  /** RPUSH puts its values behind in their order, LPUSH puts them in front in the opposite order. */
  lemma PushThenRead(m: Store, key: Bytes, vals: seq<Bytes>, now: int)
    requires key in m ==> m[key].body.ListOf?
    ensures var was, n := ItemsOf(m, key, now), After(m, On(key, RPush(vals)), now);
      && OthersKept(m, n, key) && key in n && n[key].body == ListOf(was + vals)
      && Answer(m, On(key, RPush(vals)), now) == Int(|was| + |vals|)
    ensures var was, n := ItemsOf(m, key, now), After(m, On(key, LPush(vals)), now);
      && OthersKept(m, n, key) && key in n && n[key].body.ListOf?
      && Answer(m, On(key, LPush(vals)), now) == Int(|was| + |vals|)
      && var items := n[key].body.items;
         |items| == |vals| + |was| && items[|vals|..] == was
         && forall i :: 0 <= i < |vals| ==> items[i] == vals[|vals| - 1 - i]
  {
    hide After, Answer, ActText, ActHash, ActSorted, Reverse;
    if key in m && (m[key].expireAt == 0 || now < m[key].expireAt) {
      OnLive(m, key, RPush(vals), now);
      OnLive(m, key, LPush(vals), now);
    } else {
      OnAbsent(m, key, RPush(vals), now);
      OnAbsent(m, key, LPush(vals), now);
    }
    hide Exec;
    ReverseLength(vals);
    forall i | 0 <= i < |vals|
      ensures Reverse(vals)[i] == vals[|vals| - 1 - i]
    {
      ReverseAt(vals, i);
    }
    var was := ItemsOf(m, key, now);
    assert (Reverse(vals) + was)[|vals|..] == was;
    assert [] + vals == vals;
  }

  /** LPOP takes the first value and RPOP the last, and the key goes with the only one. */
  lemma PopThenRead(m: Store, key: Bytes, now: int)
    requires key in m && (m[key].expireAt == 0 || now < m[key].expireAt)
    requires m[key].body.ListOf? && m[key].body.items != []
    ensures var items, n := m[key].body.items, After(m, On(key, LPop), now);
      && Answer(m, On(key, LPop), now) == Bulk(items[0]) && OthersKept(m, n, key)
      && (key in n <==> |items| > 1) && (key in n ==> n[key] == m[key].(body := ListOf(items[1..])))
    ensures var items, n := m[key].body.items, After(m, On(key, RPop), now);
      && Answer(m, On(key, RPop), now) == Bulk(items[|items| - 1]) && OthersKept(m, n, key)
      && (key in n <==> |items| > 1) && (key in n ==> n[key] == m[key].(body := ListOf(items[..|items| - 1])))
  {
    hide After, Answer, ActText, ActHash, ActSorted;
    OnLive(m, key, LPop, now);
    OnLive(m, key, RPop, now);
  }

  // ---------- hashes ----------

  /** The fields of a live hash, or none where there is no live key. */
  function FieldsOf(m: Store, key: Bytes, now: int): Fields
    requires key in m ==> m[key].body.HashOf?
  {
    if key in m && (m[key].expireAt == 0 || now < m[key].expireAt) then m[key].body.fields else map[]
  }

  lemma HashActs(fields: Fields, e: int64, field: Bytes)
    ensures var o := Some(Obj(HashOf(fields), e));
      && Act(HGet(field), o).1 == (if field in fields then Bulk(fields[field]) else Nil)
      && Act(HExists(field), o).1 == Int(if field in fields then 1 else 0)
      && Act(HLen, o).1 == Int(|fields|) && Act(Type, o).1 == Kind("hash")
  {
  }

  lemma HashReads(m: Store, key: Bytes, now: int, field: Bytes)
    requires key in m && (m[key].expireAt == 0 || now < m[key].expireAt) && m[key].body.HashOf?
    ensures var fields := m[key].body.fields;
      && Answer(m, On(key, HGet(field)), now) == (if field in fields then Bulk(fields[field]) else Nil)
      && Answer(m, On(key, HExists(field)), now) == Int(if field in fields then 1 else 0)
      && Answer(m, On(key, HLen), now) == Int(|fields|) && Answer(m, On(key, Type), now) == Kind("hash")
  {
    hide Act, After, Answer;
    HashActs(m[key].body.fields, m[key].expireAt, field);
    assert m[key] == Obj(HashOf(m[key].body.fields), m[key].expireAt);
    OnLive(m, key, HGet(field), now);
    OnLive(m, key, HExists(field), now);
    OnLive(m, key, HLen, now);
    OnLive(m, key, Type, now);
  }

  /** After HSET every field named has the last of its values, and the others are as they were. */
  lemma HSetThenGet(m: Store, key: Bytes, pairs: seq<(Bytes, Bytes)>, now: int, field: Bytes)
    requires key in m ==> m[key].body.HashOf?
    ensures var was, n := FieldsOf(m, key, now), After(m, On(key, HSet(pairs)), now);
      && OthersKept(m, n, key) && key in n && n[key].body.HashOf?
      && (forall i :: 0 <= i < |pairs| && pairs[i].0 == field && (forall j :: i < j < |pairs| ==> pairs[j].0 != field)
            ==> Answer(n, On(key, HGet(field)), now) == Bulk(pairs[i].1))
      && ((forall i :: 0 <= i < |pairs| ==> pairs[i].0 != field)
            ==> Answer(n, On(key, HGet(field)), now) == if field in was then Bulk(was[field]) else Nil)
  {
    var was, n := FieldsOf(m, key, now), After(m, On(key, HSet(pairs)), now);
    HSetLeaves(m, key, pairs, now);
    HashReads(n, key, now, field);
    hide After, Answer, SetAll;
    forall i | 0 <= i < |pairs| && pairs[i].0 == field && forall j :: i < j < |pairs| ==> pairs[j].0 != field
      ensures Answer(n, On(key, HGet(field)), now) == Bulk(pairs[i].1)
    {
      SetAllLast(pairs, was, i);
    }
    if forall i :: 0 <= i < |pairs| ==> pairs[i].0 != field {
      SetAllKeeps(pairs, was, field);
    }
  }

  lemma HSetLeaves(m: Store, key: Bytes, pairs: seq<(Bytes, Bytes)>, now: int)
    requires key in m ==> m[key].body.HashOf?
    ensures var was, n := FieldsOf(m, key, now), After(m, On(key, HSet(pairs)), now);
      && OthersKept(m, n, key) && key in n && n[key].body == HashOf(SetAll(pairs, was))
      && (n[key].expireAt == 0 || now < n[key].expireAt)
  {
    hide After, Answer, SetAll, CountNew, ActText, ActList, ActSorted;
    if key in m && (m[key].expireAt == 0 || now < m[key].expireAt) {
      OnLive(m, key, HSet(pairs), now);
    } else {
      OnAbsent(m, key, HSet(pairs), now);
    }
  }

  /** After HDEL the fields named are gone and the others are as they were. */
  lemma HDelThenGet(m: Store, key: Bytes, names: seq<Bytes>, now: int, field: Bytes)
    requires key in m && (m[key].expireAt == 0 || now < m[key].expireAt) && m[key].body.HashOf?
    ensures var was, n := m[key].body.fields, After(m, On(key, HDel(names)), now);
      && OthersKept(m, n, key)
      && Answer(n, On(key, HGet(field)), now)
         == if field in was && field !in names then Bulk(was[field]) else Nil
  {
    var n := After(m, On(key, HDel(names)), now);
    RemoveFieldsLeaves(names, m[key].body.fields);
    hide RemoveFields;
    OnLive(m, key, HDel(names), now);
    HashReads(n, key, now, field);
  }

  // ---------- sorted sets ----------

  function SetOf(m: Store, key: Bytes, now: int): State
    requires key in m ==> m[key].body.SortedOf?
  {
    if key in m && (m[key].expireAt == 0 || now < m[key].expireAt) then m[key].body.zset else EMPTY
  }

  lemma SortedActs(z: State, e: int64, member: Bytes)
    ensures var o := Some(Obj(SortedOf(z), e));
      && Act(ZScore(member), o).1 == (if member in z.scores then Score(z.scores[member]) else Nil)
      && Act(ZCard, o).1 == Int(|z.elems|) && Act(Type, o).1 == Kind("zset")
      && Act(ZRange(0, -1), o).1 == Ranked(Slice(z.elems, 0, -1, 4096))
  {
    hide Slice, Rank;
  }

  lemma SortedReads(m: Store, key: Bytes, now: int, member: Bytes)
    requires key in m && (m[key].expireAt == 0 || now < m[key].expireAt) && m[key].body.SortedOf?
    requires Agree(m[key].body.zset)
    ensures var z := m[key].body.zset;
      && Answer(m, On(key, ZScore(member)), now) == (if member in z.scores then Score(z.scores[member]) else Nil)
      && Answer(m, On(key, ZCard), now) == Int(|z.scores|) && Answer(m, On(key, Type), now) == Kind("zset")
      && (|z.elems| <= 4096 ==> Answer(m, On(key, ZRange(0, -1)), now) == Ranked(z.elems))
  {
    hide Act, After, Answer, Slice, Agree;
    var z := m[key].body.zset;
    AgreementCounts(z);
    SortedActs(z, m[key].expireAt, member);
    assert m[key] == Obj(SortedOf(z), m[key].expireAt);
    OnLive(m, key, ZScore(member), now);
    OnLive(m, key, ZCard, now);
    OnLive(m, key, Type, now);
    OnLive(m, key, ZRange(0, -1), now);
    if |z.elems| <= 4096 {
      SliceWhole(z.elems, 4096);
    }
  }

  /** ZRANK is the place of a member in the order of the range, the smaller scores first. */
  lemma RankReads(m: Store, key: Bytes, now: int, k: nat)
    requires key in m && (m[key].expireAt == 0 || now < m[key].expireAt) && m[key].body.SortedOf?
    requires Agree(m[key].body.zset) && k < |m[key].body.zset.elems|
    ensures var es := m[key].body.zset.elems;
      && Answer(m, On(key, ZRank(es[k].member)), now) == Int(k)
      && forall l :: k < l < |es| ==> StandsBefore(es[k], es[l])
  {
    var es := m[key].body.zset.elems;
    OnLive(m, key, ZRank(es[k].member), now);
    hide Exec, Deletes, Delete;
    DeleteFound(es, k);
    forall l | k < l < |es|
      ensures StandsBefore(es[k], es[l])
    {
      LessMeans(es[k], es[l]);
    }
  }

  /** After ZADD of NUL-free members every member named has the last of its scores, and the others are as
      they were; the answer is the number of pairs. */
  lemma ZAddThenScore(m: Store, key: Bytes, pairs: seq<(SortedSet.Score, Bytes)>, now: int, member: Bytes)
    requires key in m ==> m[key].body.SortedOf? && Agree(m[key].body.zset)
    requires forall p :: p in pairs ==> NulFree(p.1)
    ensures var was, n := SetOf(m, key, now), After(m, On(key, ZAdd(pairs)), now);
      && Answer(m, On(key, ZAdd(pairs)), now) == Int(|pairs|)
      && OthersKept(m, n, key) && key in n && n[key].body.SortedOf? && Agree(n[key].body.zset)
      && (forall i :: 0 <= i < |pairs| && pairs[i].1 == member && (forall j :: i < j < |pairs| ==> pairs[j].1 != member)
            ==> Answer(n, On(key, ZScore(member)), now) == Score(pairs[i].0))
      && ((forall i :: 0 <= i < |pairs| ==> pairs[i].1 != member)
            ==> Answer(n, On(key, ZScore(member)), now)
                == if member in was.scores then Score(was.scores[member]) else Nil)
  {
    var was, n := SetOf(m, key, now), After(m, On(key, ZAdd(pairs)), now);
    ZAddLeaves(m, key, pairs, now);
    SortedReads(n, key, now, member);
    var swapped := ByMember(pairs);
    forall i | 0 <= i < |pairs|
      ensures |swapped| == |pairs| && swapped[i] == (pairs[i].1, pairs[i].0)
    {
      ByMemberAt(pairs, i);
    }
    hide After, Answer, SetAll, Agree, ByMember;
    forall i | 0 <= i < |pairs| && pairs[i].1 == member && forall j :: i < j < |pairs| ==> pairs[j].1 != member
      ensures Answer(n, On(key, ZScore(member)), now) == Score(pairs[i].0)
    {
      SetAllLast(swapped, was.scores, i);
    }
    if forall i :: 0 <= i < |pairs| ==> pairs[i].1 != member {
      ByMemberLength(pairs);
      SetAllKeeps(swapped, was.scores, member);
    }
  }

  lemma {:induction false} ByMemberAt(pairs: seq<(SortedSet.Score, Bytes)>, i: nat)
    requires i < |pairs|
    ensures |ByMember(pairs)| == |pairs| && ByMember(pairs)[i] == (pairs[i].1, pairs[i].0)
  {
    ByMemberLength(pairs);
    if i > 0 {
      ByMemberAt(pairs[1..], i - 1);
    }
  }

  lemma {:induction false} ByMemberLength(pairs: seq<(SortedSet.Score, Bytes)>)
    ensures |ByMember(pairs)| == |pairs|
  {
    if pairs != [] {
      ByMemberLength(pairs[1..]);
    }
  }

  lemma ZAddActs(pairs: seq<(SortedSet.Score, Bytes)>, z: State, e: int64)
    ensures Act(ZAdd(pairs), Some(Obj(SortedOf(z), e))) == (Some(Obj(SortedOf(AddAll(pairs, z)), e)), Int(|pairs|))
    ensures Act(ZAdd(pairs), None) == (Some(Obj(SortedOf(AddAll(pairs, EMPTY)), 0)), Int(|pairs|))
  {
    hide AddAll;
  }

  lemma ZAddLeaves(m: Store, key: Bytes, pairs: seq<(SortedSet.Score, Bytes)>, now: int)
    requires key in m ==> m[key].body.SortedOf? && Agree(m[key].body.zset)
    requires forall p :: p in pairs ==> NulFree(p.1)
    ensures var was, n := SetOf(m, key, now), After(m, On(key, ZAdd(pairs)), now);
      && Answer(m, On(key, ZAdd(pairs)), now) == Int(|pairs|)
      && OthersKept(m, n, key) && key in n && n[key].body.SortedOf? && (n[key].expireAt == 0 || now < n[key].expireAt)
      && Agree(n[key].body.zset) && n[key].body.zset.scores == SetAll(ByMember(pairs), was.scores)
  {
    hide Act, After, Answer, AddAll, Agree, SetAll, ByMember, OthersKept, NulFree;
    EmptyAgrees();
    var was := SetOf(m, key, now);
    AddAllIs(pairs, was);
    if key in m && (m[key].expireAt == 0 || now < m[key].expireAt) {
      assert m[key] == Obj(SortedOf(was), m[key].expireAt);
      ZAddActs(pairs, was, m[key].expireAt);
      OnLive(m, key, ZAdd(pairs), now);
    } else {
      ZAddActs(pairs, was, 0);
      OnAbsent(m, key, ZAdd(pairs), now);
    }
  }

  /** After ZREM the members named are gone and the others are as they were. */
  lemma ZRemThenScore(m: Store, key: Bytes, members: seq<Bytes>, now: int, member: Bytes)
    requires key in m && (m[key].expireAt == 0 || now < m[key].expireAt) && m[key].body.SortedOf?
    requires Agree(m[key].body.zset)
    ensures var was, n := m[key].body.zset.scores, After(m, On(key, ZRem(members)), now);
      && OthersKept(m, n, key)
      && Answer(n, On(key, ZScore(member)), now)
         == if member in was && member !in members then Score(was[member]) else Nil
  {
    var n := After(m, On(key, ZRem(members)), now);
    RemoveMembersIs(members, m[key].body.zset);
    hide RemoveMembers, Agree;
    OnLive(m, key, ZRem(members), now);
    SortedReads(n, key, now, member);
  }

  // ---------- the wrong kind of value ----------

  /** Which handlers refuse a live value of another kind, and which answer as if nothing were there; none of
      them changes it. */
  lemma WrongKind(m: Store, key: Bytes, op: Keyed, now: int)
    requires key in m && (m[key].expireAt == 0 || now < m[key].expireAt)
    ensures var b, reply := m[key].body, Answer(m, On(key, op), now);
      && (!b.Text? && (op.Get? || op.StrLen? || op.Append?) ==> reply == WrongType)
      && (!b.ListOf? && (op.LPush? || op.RPush? || op.LLen? || op.LRange?) ==> reply == WrongType)
      && (!b.ListOf? && (op.LPop? || op.RPop? || op.LIndex?) ==> reply == Nil)
      && (!b.HashOf? && op.HSet? ==> reply == WrongType)
      && (!b.HashOf? && op.HGet? ==> reply == Nil)
      && (!b.HashOf? && (op.HExists? || op.HLen? || op.HDel?) ==> reply == Int(0))
      && (!b.SortedOf? && op.ZAdd? ==> reply == WrongType)
      && (!b.SortedOf? && (op.ZScore? || op.ZRank?) ==> reply == Nil)
      && (!b.SortedOf? && (op.ZCard? || op.ZRem?) ==> reply == Int(0))
      && (!b.SortedOf? && op.ZRange? ==> reply == Ranked([]))
  {
    hide After, Answer;
    OnLive(m, key, op, now);
  }
}
