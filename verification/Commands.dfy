/** src/commands.cpp and src/expiry.cpp: the handlers and the sweep on the hash table. */
module Commands {
  import opened Sequences
  import opened Bytes
  import opened Snapshot
  import opened Keyspace
  import opened Chains
  import opened Dicts
  import Expiry

  type Db = Dict<Value>

  const SWEEP_MAX: nat := 20

  /** `check_expiry`. */
  method CheckExpiry(d: Db, key: Bytes, now: int) returns (expired: bool)
    requires d.Valid()
    modifies d`M, d`count, d`chains, d.buckets, d.Repr`next
    ensures d.Valid() && d.M == Checked(old(d.M), key, now)
    ensures expired == Expiry.Lingers(old(d.M), key, now)
  {
    hide Dict.Valid;
    var obj := d.Get(key);
    if obj.None? || obj.value.expireAt == 0 || now < obj.value.expireAt {
      return false;
    }
    var deleted := d.Del(key);
    return true;
  }

  /** The common course of the handlers that check expiry first. */
  method Handle(d: Db, key: Bytes, op: Keyed, now: int) returns (reply: Reply)
    requires d.Valid()
    modifies d, d.buckets, d.Repr
    ensures d.Valid() && (d.M, reply) == Exec(old(d.M), On(key, op), now)
    ensures (d.buckets == old(d.buckets) || fresh(d.buckets)) && fresh(d.Repr - old(d.Repr))
  {
    hide Act, Dict.Valid;
    var expired := CheckExpiry(d, key, now);
    var o := d.Get(key);
    var after := Act(op, o);
    reply := after.1;
    if after.0.None? {
      var deleted := d.Del(key);
    } else if o.Some? {
      d.Replace(key, after.0.value);
    } else {
      d.Set(key, after.0.value);
    }
  }

  // ---------- strings ----------

  lemma PutBackNothing(m: Store, key: Bytes)
    ensures PutBack(m, key, At(m, key)) == m
  {
  }

  method HandleSet(d: Db, key: Bytes, val: Bytes, now: int) returns (reply: Reply)
    requires d.Valid()
    modifies d, d.buckets, d.Repr
    ensures d.Valid() && (d.M, reply) == Exec(old(d.M), Set(key, val), now)
    ensures (d.buckets == old(d.buckets) || fresh(d.buckets)) && fresh(d.Repr - old(d.Repr))
  {
    hide Dict.Valid;
    d.Set(key, Obj(Text(val), 0));
    return Done;
  }

  method HandleGet(d: Db, key: Bytes, now: int) returns (reply: Reply)
    requires d.Valid()
    modifies d`M, d`count, d`chains, d.buckets, d.Repr`next
    ensures d.Valid() && (d.M, reply) == Exec(old(d.M), On(key, Get), now)
  {
    hide Dict.Valid, ActList, ActHash, ActSorted;
    var expired := CheckExpiry(d, key, now);
    PutBackNothing(d.M, key);
    var obj := d.Get(key);
    if obj.None? { return Nil; }
    if !obj.value.body.Text? { return WrongType; }
    return Bulk(obj.value.body.text);
  }

  method HandleStrLen(d: Db, key: Bytes, now: int) returns (reply: Reply)
    requires d.Valid()
    modifies d`M, d`count, d`chains, d.buckets, d.Repr`next
    ensures d.Valid() && (d.M, reply) == Exec(old(d.M), On(key, StrLen), now)
  {
    hide Dict.Valid, ActList, ActHash, ActSorted;
    var expired := CheckExpiry(d, key, now);
    PutBackNothing(d.M, key);
    var obj := d.Get(key);
    if obj.None? { return Int(0); }
    if !obj.value.body.Text? { return WrongType; }
    return Int(|obj.value.body.text|);
  }

  method HandleType(d: Db, key: Bytes, now: int) returns (reply: Reply)
    requires d.Valid()
    modifies d`M, d`count, d`chains, d.buckets, d.Repr`next
    ensures d.Valid() && (d.M, reply) == Exec(old(d.M), On(key, Type), now)
  {
    hide Dict.Valid;
    var expired := CheckExpiry(d, key, now);
    PutBackNothing(d.M, key);
    var obj := d.Get(key);
    if obj.None? { return Kind("none"); }
    match obj.value.body
    case Text(_) => return Kind("string");
    case ListOf(_) => return Kind("list");
    case HashOf(_) => return Kind("hash");
    case SortedOf(_) => return Kind("zset");
  }

  method HandleSetNx(d: Db, key: Bytes, val: Bytes, now: int) returns (reply: Reply)
    requires d.Valid()
    modifies d, d.buckets, d.Repr
    ensures d.Valid() && (d.M, reply) == Exec(old(d.M), On(key, SetNx(val)), now)
    ensures (d.buckets == old(d.buckets) || fresh(d.buckets)) && fresh(d.Repr - old(d.Repr))
  {
    hide Dict.Valid, ActList, ActHash, ActSorted;
    var expired := CheckExpiry(d, key, now);
    PutBackNothing(d.M, key);
    var obj := d.Get(key);
    if obj.Some? { return Int(0); }
    d.Set(key, Obj(Text(val), 0));
    return Int(1);
  }

  /** A string that is there grows in place, and keeps its expiry. */
  method HandleAppend(d: Db, key: Bytes, val: Bytes, now: int) returns (reply: Reply)
    requires d.Valid()
    modifies d, d.buckets, d.Repr
    ensures d.Valid() && (d.M, reply) == Exec(old(d.M), On(key, Append(val)), now)
    ensures (d.buckets == old(d.buckets) || fresh(d.buckets)) && fresh(d.Repr - old(d.Repr))
  {
    hide Dict.Valid, ActList, ActHash, ActSorted;
    var expired := CheckExpiry(d, key, now);
    PutBackNothing(d.M, key);
    var obj := d.Get(key);
    if obj.None? {
      d.Set(key, Obj(Text(val), 0));
      return Int(|val|);
    }
    if !obj.value.body.Text? { return WrongType; }
    var text := obj.value.body.text + val;
    d.Replace(key, obj.value.(body := Text(text)));
    return Int(|text|);
  }

  // ---------- keys ----------

  method HandleTtl(d: Db, key: Bytes, now: int) returns (reply: Reply)
    requires d.Valid()
    modifies d`M, d`count, d`chains, d.buckets, d.Repr`next
    ensures d.Valid() && (d.M, reply) == Exec(old(d.M), Ttl(key), now)
  {
    hide Dict.Valid;
    var obj := d.Get(key);
    if obj.None? { return Int(-2); }
    if obj.value.expireAt == 0 { return Int(-1); }
    var remaining := obj.value.expireAt - now;
    if remaining <= 0 {
      var deleted := d.Del(key);
      return Int(-2);
    }
    return Int(Seconds(remaining));
  }

  method HandleExpire(d: Db, key: Bytes, secs: int, now: int) returns (reply: Reply)
    requires d.Valid()
    modifies d`M, d.Repr`val
    ensures d.Valid() && (d.M, reply) == Exec(old(d.M), Expire(key, secs), now)
  {
    hide Dict.Valid;
    var obj := d.Get(key);
    if obj.None? { return Int(0); }
    d.Replace(key, obj.value.(expireAt := Int64(now + 1000 * secs)));
    return Int(1);
  }

  method HandlePersist(d: Db, key: Bytes, now: int) returns (reply: Reply)
    requires d.Valid()
    modifies d`M, d.Repr`val
    ensures d.Valid() && (d.M, reply) == Exec(old(d.M), Persist(key), now)
  {
    hide Dict.Valid;
    var obj := d.Get(key);
    if obj.None? || obj.value.expireAt == 0 { return Int(0); }
    d.Replace(key, obj.value.(expireAt := 0));
    return Int(1);
  }

  /** The handler reads the clock again for every key. */
  method HandleExists(d: Db, lookups: seq<(Bytes, int)>, now: int) returns (reply: Reply)
    requires d.Valid()
    modifies d`M, d`count, d`chains, d.buckets, d.Repr`next
    ensures d.Valid() && (d.M, reply) == Exec(old(d.M), Exists(lookups), now)
  {
    hide Dict.Valid, Checked;
    var count := 0;
    ghost var all := ExecExists(d.M, lookups);
    for i := 0 to |lookups|
      invariant d.Valid() && var rest := ExecExists(d.M, lookups[i..]); all == (rest.0, count + rest.1)
    {
      assert lookups[i..][1..] == lookups[i + 1..];
      var (key, time) := lookups[i];
      var expired := CheckExpiry(d, key, time);
      var obj := d.Get(key);
      if obj.Some? {
        count := count + 1;
      }
    }
    return Int(count);
  }

  method HandleDel(d: Db, keys: seq<Bytes>, now: int) returns (reply: Reply)
    requires d.Valid()
    modifies d`M, d`count, d`chains, d.buckets, d.Repr`next
    ensures d.Valid() && (d.M, reply) == Exec(old(d.M), Del(keys), now)
  {
    hide Dict.Valid;
    var count := 0;
    ghost var all := ExecDel(d.M, keys);
    for i := 0 to |keys|
      invariant d.Valid() && var rest := ExecDel(d.M, keys[i..]); all == (rest.0, count + rest.1)
    {
      assert keys[i..][1..] == keys[i + 1..];
      var deleted := d.Del(keys[i]);
      if deleted {
        count := count + 1;
      }
    }
    return Int(count);
  }

  // ---------- the sweep ----------

  /** `sweep_cb`: collect keys that have an expiry, and stop once there are enough. */
  function SweepKey(keys: seq<Bytes>, key: Bytes, v: Value): (seq<Bytes>, bool) {
    if |keys| >= SWEEP_MAX then (keys, false)
    else (if v.expireAt != 0 then keys + [key] else keys, true)
  }

  function Candidates(items: seq<(Bytes, Value)>): seq<Bytes> {
    if items == [] then []
    else if items[0].1.expireAt != 0 then [items[0].0] + Candidates(items[1..])
    else Candidates(items[1..])
  }

  function FirstOf<T>(s: seq<T>, n: nat): seq<T> {
    if |s| <= n then s else s[..n]
  }

  lemma FirstOfFull<T>(s: seq<T>, more: seq<T>, n: nat)
    requires |s| <= n
    ensures |s| == n || more == [] ==> FirstOf(s + more, n) == s
  {
    assert more == [] ==> s + more == s;
  }

  lemma CandidatesStep(items: seq<(Bytes, Value)>, keys: seq<Bytes>)
    requires items != [] && |keys| < SWEEP_MAX
    ensures var (next, more) := SweepKey(keys, items[0].0, items[0].1);
      more && |next| <= SWEEP_MAX && next + Candidates(items[1..]) == keys + Candidates(items)
  {
    var rest := Candidates(items[1..]);
    assert keys + [items[0].0] + rest == keys + ([items[0].0] + rest);
  }

  /** The sweep collects the first twenty keys with an expiry, in the order of the table. */
  lemma {:induction false} SweepCollects(items: seq<(Bytes, Value)>, keys: seq<Bytes>)
    requires |keys| <= SWEEP_MAX
    ensures Each(items, SweepKey, keys) == FirstOf(keys + Candidates(items), SWEEP_MAX)
    decreases |items|
  {
    FirstOfFull(keys, Candidates(items), SWEEP_MAX);
    if items != [] && |keys| < SWEEP_MAX {
      CandidatesStep(items, keys);
      hide FirstOf, Candidates;
      SweepCollects(items[1..], SweepKey(keys, items[0].0, items[0].1).0);
    }
  }

  /** The key is listed with a value that has an expiry. */
  ghost predicate ListedToExpire(items: seq<(Bytes, Value)>, key: Bytes) {
    exists i :: 0 <= i < |items| && items[i].0 == key && items[i].1.expireAt != 0
  }

  lemma ListedFirst(items: seq<(Bytes, Value)>, key: Bytes)
    requires items != []
    ensures ListedToExpire(items, key) <==>
      (items[0].0 == key && items[0].1.expireAt != 0) || ListedToExpire(items[1..], key)
  {
    if i :| 0 <= i < |items| && items[i].0 == key && items[i].1.expireAt != 0 {
      assert i > 0 ==> items[1..][i - 1] == items[i];
    }
    if i :| 0 <= i < |items[1..]| && items[1..][i].0 == key && items[1..][i].1.expireAt != 0 {
      assert items[i + 1] == items[1..][i];
    }
  }

  /** The candidates are exactly the keys listed with an expiry, none of them twice. */
  lemma {:induction false} CandidatesMean(items: seq<(Bytes, Value)>)
    requires Distinct(items)
    ensures forall k :: k in Candidates(items) <==> ListedToExpire(items, k)
    ensures forall a, b :: 0 <= a < b < |Candidates(items)| ==> Candidates(items)[a] != Candidates(items)[b]
  {
    if items != [] {
      CandidatesMean(items[1..]);
      forall k
        ensures k in Candidates(items) <==> ListedToExpire(items, k)
      {
        ListedFirst(items, k);
      }
      assert items[0].0 !in Candidates(items[1..]);
    }
  }

  /** The keys of the sweep's pass are at most twenty keys of the table with an expiry, none of them twice;
      if they are fewer, they are all there are. */
  ghost predicate Collects(keys: seq<Bytes>, m: Store) {
    && |keys| <= 20
    && (forall k :: k in keys ==> k in m && m[k].expireAt != 0)
    && (forall a, b :: 0 <= a < b < |keys| ==> keys[a] != keys[b])
    && (|keys| < 20 ==> forall k :: k in m && m[k].expireAt != 0 ==> k in keys)
  }

  lemma CollectsIs(items: seq<(Bytes, Value)>, m: Store)
    requires Enumerates(items, m)
    ensures Collects(FirstOf(Candidates(items), SWEEP_MAX), m)
  {
    CandidatesMean(items);
    var all, keys := Candidates(items), FirstOf(Candidates(items), SWEEP_MAX);
    ListingKeys(items, m);
    forall k
      ensures k in all <==> k in m && m[k].expireAt != 0
    {
      if k in m {
        var i :| 0 <= i < |items| && items[i].0 == k;
      }
    }
    hide Candidates;
    assert forall k :: k in keys ==> k in all;
  }

  /** Checking the collected keys one after the other; `clock(i)` is the time at the i-th check. */
  function CheckAll(m: Store, keys: seq<Bytes>, clock: nat -> int, i: nat): Store
    decreases |keys|
  {
    if keys == [] then m else CheckAll(Checked(m, keys[0], clock(i)), keys[1..], clock, i + 1)
  }

  /** Exactly the keys that are past their deadline when their turn comes are deleted. */
  lemma {:induction false} CheckAllDeletes(m: Store, keys: seq<Bytes>, clock: nat -> int, i: nat, key: Bytes)
    ensures var n := CheckAll(m, keys, clock, i);
      && (key in n ==> key in m && n[key] == m[key])
      && (key in n <==> key in m && forall j :: 0 <= j < |keys| && keys[j] == key ==>
            m[key].expireAt == 0 || clock(i + j) < m[key].expireAt)
    decreases |keys|
  {
    if keys != [] {
      var next := Checked(m, keys[0], clock(i));
      CheckAllDeletes(next, keys[1..], clock, i + 1, key);
      if key in m {
        var e := m[key].expireAt;
        assert (forall j :: 0 <= j < |keys| && keys[j] == key ==> e == 0 || clock(i + j) < e) <==>
          (keys[0] == key ==> e == 0 || clock(i) < e)
          && forall j :: 0 <= j < |keys[1..]| && keys[1..][j] == key ==> e == 0 || clock(i + 1 + j) < e by {
          KeysFirst(keys, clock, i, key, e);
        }
      }
    }
  }

  lemma KeysFirst(keys: seq<Bytes>, clock: nat -> int, i: nat, key: Bytes, e: int)
    requires keys != []
    ensures (forall j :: 0 <= j < |keys| && keys[j] == key ==> e == 0 || clock(i + j) < e) <==>
      (keys[0] == key ==> e == 0 || clock(i) < e)
      && forall j :: 0 <= j < |keys[1..]| && keys[1..][j] == key ==> e == 0 || clock(i + 1 + j) < e
  {
    forall j | 0 <= j < |keys[1..]|
      ensures keys[1..][j] == keys[j + 1] && clock(i + 1 + j) == clock(i + (j + 1))
    {
    }
    if forall j :: 0 <= j < |keys| && keys[j] == key ==> e == 0 || clock(i + j) < e {
      assert keys[0] == key ==> e == 0 || clock(i + 0) < e;
      forall j | 0 <= j < |keys[1..]| && keys[1..][j] == key
        ensures e == 0 || clock(i + 1 + j) < e
      {
        assert keys[j + 1] == key;
      }
    } else {
      var j :| 0 <= j < |keys| && keys[j] == key && !(e == 0 || clock(i + j) < e);
      if j > 0 {
        assert keys[1..][j - 1] == key;
      }
    }
  }

  /** One pass of the sweep loop. */
  method SweepPass(d: Db, clock: nat -> int) returns (keys: seq<Bytes>)
    requires d.Valid()
    modifies d`M, d`count, d`chains, d.buckets, d.Repr`next
    ensures d.Valid() && keys == FirstOf(Candidates(old(d.Visit())), SWEEP_MAX)
    ensures Collects(keys, old(d.M)) && d.M == CheckAll(old(d.M), keys, clock, 0)
  {
    hide Dict.Valid, Checked, Collects;
    keys := d.ForEach(SweepKey, []);
    SweepCollects(d.Visit(), []);
    CollectsIs(d.Visit(), d.M);
    assert [] + Candidates(d.Visit()) == Candidates(d.Visit());
    ghost var end := CheckAll(d.M, keys, clock, 0);
    for i := 0 to |keys|
      invariant d.Valid() && end == CheckAll(d.M, keys[i..], clock, i)
    {
      assert keys[i..][1..] == keys[i + 1..];
      var expired := CheckExpiry(d, keys[i], clock(i));
    }
  }

  /** A pass changes nothing that can be seen once its last clock reading is past. */
  lemma {:induction false} SweepUnseen(m: Store, keys: seq<Bytes>, clock: nat -> int, i: nat, t: int)
    requires forall j :: i <= j < i + |keys| ==> clock(j) <= t
    ensures Expiry.SameFrom(m, CheckAll(m, keys, clock, i), t)
    decreases |keys|
  {
    if keys != [] {
      var next := Checked(m, keys[0], clock(i));
      Expiry.CheckedSame(m, keys[0], clock(i));
      SweepUnseen(next, keys[1..], clock, i + 1, t);
      Expiry.SameTransitive(m, next, CheckAll(next, keys[1..], clock, i + 1), clock(i), t);
    }
  }
}
