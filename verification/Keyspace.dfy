/** src/commands.cpp and src/expiry.cpp: what each command makes of the keyspace, with keys dropped when
    somebody looks (as the code does) or at their deadline (as clients are told). */
module Keyspace {
  import opened Sequences
  import opened Bytes
  import opened SortedSet
  import opened ZSetModel
  import opened Codec
  import opened Snapshot

  type Value = Obj<Fields>

  const MAX_RANGE: nat := 65536

  datatype Reply =
    | Nil | WrongType | Done
    | Int(n: int)
    | Bulk(data: Bytes)
    | Kind(name: string)
    | Array(items: seq<Bytes>)
    | Score(score: SortedSet.Score)
    | Ranked(elems: seq<Elem>)

  /** Commands whose handler calls `check_expiry` on their key before anything else. */
  datatype Keyed =
    | Get | StrLen | Type | SetNx(val: Bytes) | Append(val: Bytes)
    | LPush(vals: seq<Bytes>) | RPush(vals: seq<Bytes>) | LPop | RPop
    | LLen | LRange(start: int, end: int) | LIndex(index: int)
    | HGet(field: Bytes) | HExists(field: Bytes) | HLen | HSet(pairs: seq<(Bytes, Bytes)>) | HDel(fields: seq<Bytes>)
    | ZScore(member: Bytes) | ZRank(member: Bytes) | ZCard | ZRange(start: int, end: int)
    | ZAdd(elems: seq<(SortedSet.Score, Bytes)>) | ZRem(members: seq<Bytes>)

  datatype Command =
    | On(key: Bytes, op: Keyed)
    // the clock is read once for every key
    | Exists(lookups: seq<(Bytes, int)>)
    | Set(key: Bytes, val: Bytes)
    | Ttl(key: Bytes)
    | FlushDb
    // these look at the table as it is
    | Expire(key: Bytes, secs: int)
    | Persist(key: Bytes)
    | Del(keys: seq<Bytes>)
    | DbSize

  // ---------- one key ----------

  function CountNew(pairs: seq<(Bytes, Bytes)>, fields: Fields): nat
    decreases |pairs|
  {
    if pairs == [] then 0
    else (if pairs[0].0 in fields then 0 else 1) + CountNew(pairs[1..], fields[pairs[0].0 := pairs[0].1])
  }

  /** Removing fields one by one, and how many were there. */
  function RemoveFields(names: seq<Bytes>, fields: Fields): (Fields, nat)
    decreases |names|
  {
    if names == [] then (fields, 0)
    else
      var (left, n) := RemoveFields(names[1..], fields - {names[0]});
      (left, n + if names[0] in fields then 1 else 0)
  }

  function RemoveMembers(members: seq<Bytes>, z: State): (State, nat)
    decreases |members|
  {
    if members == [] then (z, 0)
    else
      var (left, n) := RemoveMembers(members[1..], Rem(z, members[0]));
      (left, n + if members[0] in z.scores then 1 else 0)
  }

  function KindName(o: Option<Value>): string {
    match o
    case None => "none"
    case Some(v) =>
      match v.body
      case Text(_) => "string"
      case ListOf(_) => "list"
      case HashOf(_) => "hash"
      case SortedOf(_) => "zset"
  }

  /** A list that a pop leaves empty is deleted with its key. */
  function Popped(items: seq<Bytes>, v: Value): Option<Value> {
    if items == [] then None else Some(v.(body := ListOf(items)))
  }

  function ActText(op: Keyed, o: Option<Value>): (Option<Value>, Reply)
    requires op.Get? || op.StrLen? || op.Append? || op.SetNx?
  {
    match op
    case SetNx(val) => if o.Some? then (o, Int(0)) else (Some(Obj(Text(val), 0)), Int(1))
    case Get =>
      (o, if o.None? then Nil else if o.value.body.Text? then Bulk(o.value.body.text) else WrongType)
    case StrLen =>
      (o, if o.None? then Int(0) else if o.value.body.Text? then Int(|o.value.body.text|) else WrongType)
    case Append(val) =>
      if o.None? then (Some(Obj(Text(val), 0)), Int(|val|))
      else if !o.value.body.Text? then (o, WrongType)
      else
        var text := o.value.body.text + val;
        (Some(o.value.(body := Text(text))), Int(|text|))
  }

  function ActList(op: Keyed, o: Option<Value>): (Option<Value>, Reply)
    requires op.LPush? || op.RPush? || op.LPop? || op.RPop? || op.LLen? || op.LRange? || op.LIndex?
  {
    var isList := o.Some? && o.value.body.ListOf?;
    var items := if isList then o.value.body.items else [];
    match op
    case LPush(vals) =>
      if o.Some? && !isList then (o, WrongType)
      else
        var v := if isList then o.value else Obj(ListOf([]), 0);
        (Some(v.(body := ListOf(Pushed(vals, items)))), Int(|vals| + |items|))
    case RPush(vals) =>
      if o.Some? && !isList then (o, WrongType)
      else
        var v := if isList then o.value else Obj(ListOf([]), 0);
        (Some(v.(body := ListOf(items + vals))), Int(|items| + |vals|))
    case LPop => if items == [] then (o, Nil) else (Popped(items[1..], o.value), Bulk(items[0]))
    case RPop => if items == [] then (o, Nil) else (Popped(items[..|items| - 1], o.value), Bulk(items[|items| - 1]))
    case LLen => (o, if o.Some? && !isList then WrongType else Int(|items|))
    case LRange(start, end) => (o, if o.Some? && !isList then WrongType else Array(Slice(items, start, end, MAX_RANGE)))
    case LIndex(index) =>
      var item := ItemAt(items, index);
      (o, if item.None? then Nil else Bulk(item.value))
  }

  function ActHash(op: Keyed, o: Option<Value>): (Option<Value>, Reply)
    requires op.HGet? || op.HExists? || op.HLen? || op.HSet? || op.HDel?
  {
    var isHash := o.Some? && o.value.body.HashOf?;
    var fields := if isHash then o.value.body.fields else map[];
    match op
    case HGet(field) => (o, if field in fields then Bulk(fields[field]) else Nil)
    case HExists(field) => (o, Int(if field in fields then 1 else 0))
    case HLen => (o, Int(|fields|))
    case HSet(pairs) =>
      if o.Some? && !isHash then (o, WrongType)
      else
        var v := if isHash then o.value else Obj(HashOf(map[]), 0);
        (Some(v.(body := HashOf(SetAll(pairs, fields)))), Int(CountNew(pairs, fields)))
    case HDel(names) =>
      if !isHash then (o, Int(0))
      else
        var (left, n) := RemoveFields(names, fields);
        (Some(o.value.(body := HashOf(left))), Int(n))
  }

  function ActSorted(op: Keyed, o: Option<Value>): (Option<Value>, Reply)
    requires op.ZScore? || op.ZRank? || op.ZCard? || op.ZRange? || op.ZAdd? || op.ZRem?
  {
    var isSorted := o.Some? && o.value.body.SortedOf?;
    var z := if isSorted then o.value.body.zset else EMPTY;
    match op
    case ZScore(member) => (o, if member in z.scores then Score(z.scores[member]) else Nil)
    case ZRank(member) =>
      var rank := Rank(z.elems, Visible(member));
      (o, if rank < 0 then Nil else Int(rank))
    case ZCard => (o, Int(|z.elems|))
    case ZRange(start, end) => (o, Ranked(Slice(z.elems, start, end, MAX_COLLECTED)))
    case ZAdd(elems) =>
      if o.Some? && !isSorted then (o, WrongType)
      else
        var v := if isSorted then o.value else Obj(SortedOf(EMPTY), 0);
        (Some(v.(body := SortedOf(AddAll(elems, z)))), Int(|elems|))
    case ZRem(members) =>
      if !isSorted then (o, Int(0))
      else
        var (left, n) := RemoveMembers(members, z);
        (Some(o.value.(body := SortedOf(left))), Int(n))
  }

  /** What a handler does with the value it finds under its key: the value it leaves, and the reply. */
  function Act(op: Keyed, o: Option<Value>): (Option<Value>, Reply) {
    if op.Type? then (o, Kind(KindName(o)))
    else if op.Get? || op.StrLen? || op.Append? || op.SetNx? then ActText(op, o)
    else if op.LPush? || op.RPush? || op.LPop? || op.RPop? || op.LLen? || op.LRange? || op.LIndex? then ActList(op, o)
    else if op.HGet? || op.HExists? || op.HLen? || op.HSet? || op.HDel? then ActHash(op, o)
    else ActSorted(op, o)
  }

  // ---------- the keyspace as the code keeps it ----------

  function At(m: Store, key: Bytes): Option<Value> {
    if key in m then Some(m[key]) else None
  }

  function PutBack(m: Store, key: Bytes, o: Option<Value>): Store {
    match o
    case Some(v) => m[key := v]
    case None => m - {key}
  }

  predicate LiveAt(expireAt: int64, now: int) {
    expireAt == 0 || now < expireAt
  }

  /** `check_expiry`. */
  function Checked(m: Store, key: Bytes, now: int): Store {
    if key in m && !LiveAt(m[key].expireAt, now) then m - {key} else m
  }

  function Int64(x: int): int64 {
    (x + TWO_63) % TWO_64 - TWO_63
  }

  function ExecExists(m: Store, lookups: seq<(Bytes, int)>): (Store, nat)
    decreases |lookups|
  {
    if lookups == [] then (m, 0)
    else
      var checked := Checked(m, lookups[0].0, lookups[0].1);
      var (m', n) := ExecExists(checked, lookups[1..]);
      (m', n + if lookups[0].0 in checked then 1 else 0)
  }

  function ExecDel(m: Store, keys: seq<Bytes>): (Store, nat)
    decreases |keys|
  {
    if keys == [] then (m, 0)
    else
      var (m', n) := ExecDel(m - {keys[0]}, keys[1..]);
      (m', n + if keys[0] in m then 1 else 0)
  }

  /** The remaining time of a key with an expiry, rounded up to seconds. */
  function Seconds(remaining: int): int {
    (remaining + 999) / 1000
  }

  function Exec(m: Store, c: Command, now: int): (Store, Reply) {
    match c
    case On(key, op) =>
      var checked := Checked(m, key, now);
      var (o, reply) := Act(op, At(checked, key));
      (PutBack(checked, key, o), reply)
    case Exists(lookups) =>
      var (m', n) := ExecExists(m, lookups);
      (m', Int(n))
    case Set(key, val) => (m[key := Obj(Text(val), 0)], Done)
    case Ttl(key) =>
      if key !in m then (m, Int(-2))
      else if m[key].expireAt == 0 then (m, Int(-1))
      else
        var remaining := m[key].expireAt - now;
        if remaining <= 0 then (m - {key}, Int(-2)) else (m, Int(Seconds(remaining)))
    case FlushDb => (map[], Done)
    case Expire(key, secs) =>
      if key !in m then (m, Int(0)) else (m[key := m[key].(expireAt := Int64(now + 1000 * secs))], Int(1))
    case Persist(key) =>
      if key !in m || m[key].expireAt == 0 then (m, Int(0)) else (m[key := m[key].(expireAt := 0)], Int(1))
    case Del(keys) =>
      var (m', n) := ExecDel(m, keys);
      (m', Int(n))
    case DbSize => (m, Int(|m|))
  }

  // ---------- what the replies mean ----------

  function Members<T>(s: seq<T>): set<T> {
    set x | x in s
  }

  lemma MembersNone<T>()
    ensures Members<T>([]) == {}
  {
  }

  lemma MembersFirst<T>(s: seq<T>)
    requires s != []
    ensures Members(s) == {s[0]} + Members(s[1..])
  {
    assert s == [s[0]] + s[1..];
  }

  /** HSET answers with how many fields there are more. */
  lemma {:induction false} CountNewIsGrowth(pairs: seq<(Bytes, Bytes)>, fields: Fields)
    ensures CountNew(pairs, fields) == |SetAll(pairs, fields)| - |fields|
    decreases |pairs|
  {
    if pairs != [] {
      var (field, val) := pairs[0];
      SizeAfterSet(fields, field, val);
      CountNewIsGrowth(pairs[1..], fields[field := val]);
    }
  }

  lemma SizeAfterSet<K, V>(m: map<K, V>, k: K, v: V)
    ensures |m[k := v]| == |m| + if k in m then 0 else 1
  {
    assert m[k := v].Keys == m.Keys + {k};
    assert |m| == |m.Keys| && |m[k := v]| == |m[k := v].Keys|;
  }

  lemma SizeAfterRemove<K, V>(m: map<K, V>, k: K)
    ensures |m - {k}| == |m| - if k in m then 1 else 0
  {
    assert (m - {k}).Keys == m.Keys - {k};
    assert |m| == |m.Keys| && |m - {k}| == |(m - {k}).Keys|;
  }

  lemma MinusTwice<K, V>(m: map<K, V>, k: K, ks: set<K>)
    ensures m - {k} - ks == m - ({k} + ks)
  {
  }

  lemma RemoveFieldsFirst(names: seq<Bytes>, fields: Fields)
    requires names != []
    ensures var after := RemoveFields(names[1..], fields - {names[0]});
      && RemoveFields(names, fields).0 == after.0
      && RemoveFields(names, fields).1 == after.1 + if names[0] in fields then 1 else 0
  {
  }

  /** HDEL takes away exactly the fields named, ... */
  lemma {:induction false} RemoveFieldsLeaves(names: seq<Bytes>, fields: Fields)
    ensures RemoveFields(names, fields).0 == fields - Members(names)
    decreases |names|
  {
    hide Members;
    if names == [] {
      MembersNone<Bytes>();
      assert fields - {} == fields;
    } else {
      MembersFirst(names);
      MinusTwice(fields, names[0], Members(names[1..]));
      RemoveFieldsFirst(names, fields);
      hide RemoveFields;
      RemoveFieldsLeaves(names[1..], fields - {names[0]});
    }
  }

  /** ... and answers with how many fields there are less. */
  lemma {:induction false} RemoveFieldsCounts(names: seq<Bytes>, fields: Fields)
    ensures RemoveFields(names, fields).1 == |fields| - |RemoveFields(names, fields).0|
    decreases |names|
  {
    if names != [] {
      SizeAfterRemove(fields, names[0]);
      RemoveFieldsFirst(names, fields);
      hide RemoveFields;
      RemoveFieldsCounts(names[1..], fields - {names[0]});
    }
  }

  lemma RemoveMembersFirst(members: seq<Bytes>, z: State)
    requires members != []
    ensures var after := RemoveMembers(members[1..], Rem(z, members[0]));
      && RemoveMembers(members, z).0 == after.0
      && RemoveMembers(members, z).1 == after.1 + if members[0] in z.scores then 1 else 0
  {
  }

  /** ZREM takes away exactly the members named, from both indexes, and answers with how many there
      are less. */
  lemma {:induction false} RemoveMembersIs(members: seq<Bytes>, z: State)
    requires Agree(z)
    ensures var (left, n) := RemoveMembers(members, z);
      && Agree(left) && left.scores == z.scores - Members(members)
      && n == |z.elems| - |left.elems|
    decreases |members|
  {
    hide Agree, Rem, Members;
    if members == [] {
      MembersNone<Bytes>();
      assert z.scores - {} == z.scores;
    } else {
      var next := Rem(z, members[0]);
      MembersFirst(members);
      RemIs(z, members[0]);
      RemoveMembersIs(members[1..], next);
      AgreementCounts(z);
      AgreementCounts(next);
      MinusTwice(z.scores, members[0], Members(members[1..]));
    }
  }

  lemma RemIs(z: State, member: Bytes)
    requires Agree(z)
    ensures var next := Rem(z, member);
      Agree(next) && next.scores == z.scores - {member}
      && |next.scores| == |z.scores| - if member in z.scores then 1 else 0
  {
    hide Agree, Delete;
    RemKeepsAgreement(z, member);
    SizeAfterRemove(z.scores, member);
    assert member !in z.scores ==> z.scores - {member} == z.scores;
  }

  /** ZADD of NUL-free members keeps the indexes together and leaves each member with its last score. */
  lemma {:induction false} AddAllIs(pairs: seq<(SortedSet.Score, Bytes)>, z: State)
    requires Agree(z) && forall p :: p in pairs ==> NulFree(p.1)
    ensures Agree(AddAll(pairs, z))
    ensures AddAll(pairs, z).scores == SetAll(ByMember(pairs), z.scores)
    decreases |pairs|
  {
    hide Agree, Add;
    if pairs != [] {
      AddKeepsAgreement(z, pairs[0].1, pairs[0].0);
      AddScores(z, pairs[0].1, pairs[0].0);
      AddAllIs(pairs[1..], Add(z, pairs[0].1, pairs[0].0));
      assert ByMember(pairs)[1..] == ByMember(pairs[1..]);
    }
  }

  function ByMember(pairs: seq<(SortedSet.Score, Bytes)>): seq<(Bytes, SortedSet.Score)> {
    if pairs == [] then [] else [(pairs[0].1, pairs[0].0)] + ByMember(pairs[1..])
  }

  lemma AddScores(z: State, member: Bytes, score: SortedSet.Score)
    ensures Add(z, member, score).scores == z.scores[member := score]
  {
  }

  /** How much there is under a key. */
  function Size(o: Option<Value>): nat {
    match o
    case None => 0
    case Some(v) =>
      match v.body
      case Text(text) => |text|
      case ListOf(items) => |items|
      case HashOf(fields) => |fields|
      case SortedOf(z) => |z.elems|
  }

  lemma SetReplies(op: Keyed, o: Option<Value>)
    requires op.HSet?
    ensures var (after, reply) := ActHash(op, o);
      && (reply.WrongType? ==> after == o) && !reply.Nil?
      && (reply.WrongType? || reply == Int(Size(after) - Size(o)))
  {
    hide CountNew, SetAll;
    CountNewIsGrowth(op.pairs, if o.Some? && o.value.body.HashOf? then o.value.body.fields else map[]);
  }

  lemma DeleteReplies(op: Keyed, o: Option<Value>)
    requires op.HDel?
    ensures var (after, reply) := ActHash(op, o); reply == Int(Size(o) - Size(after))
  {
    hide RemoveFields, Members;
    if o.Some? && o.value.body.HashOf? {
      RemoveFieldsCounts(op.fields, o.value.body.fields);
    }
  }

  lemma SortedReplies(op: Keyed, o: Option<Value>)
    requires op.ZRem? && Together(o)
    ensures var (after, reply) := ActSorted(op, o); reply == Int(Size(o) - Size(after))
  {
    hide RemoveMembers, Members, Agree;
    if o.Some? && o.value.body.SortedOf? {
      RemoveMembersIs(op.members, o.value.body.zset);
    }
  }

  lemma ListReplies(op: Keyed, o: Option<Value>)
    requires op.LPush? || op.RPush? || op.LPop? || op.RPop?
    ensures var (after, reply) := ActList(op, o);
      && (op.LPush? || op.RPush? ==> reply.WrongType? || reply == Int(Size(after)))
      && (op.LPop? || op.RPop? ==> if reply.Bulk? then Size(after) == Size(o) - 1 else after == o)
      && (reply.WrongType? || reply.Nil? ==> after == o)
  {
    if op.LPush? {
      ReverseLength(op.vals);
    }
  }

  lemma AppendReplies(op: Keyed, o: Option<Value>)
    requires op.Append?
    ensures var (after, reply) := Act(op, o); reply.WrongType? || reply == Int(Size(after))
  {
  }

  /** The number in a reply is the difference the command made, or the size it leaves. */
  lemma RepliesCount(op: Keyed, o: Option<Value>)
    requires Together(o)
    ensures var (after, reply) := Act(op, o);
      && (op.HSet? ==> reply.WrongType? || reply == Int(Size(after) - Size(o)))
      && (op.HDel? || op.ZRem? ==> reply == Int(Size(o) - Size(after)))
      && (op.LPush? || op.RPush? || op.Append? ==> reply.WrongType? || reply == Int(Size(after)))
      && (op.LPop? || op.RPop? ==> if reply.Bulk? then Size(after) == Size(o) - 1 else after == o)
      && (reply.WrongType? || reply.Nil? ==> after == o)
  {
    hide Size, Together;
    if op.HSet? {
      hide ActHash;
      SetReplies(op, o);
    } else if op.HDel? {
      hide ActHash;
      DeleteReplies(op, o);
    } else if op.ZRem? {
      hide ActSorted;
      SortedReplies(op, o);
    } else if op.LPush? || op.RPush? || op.LPop? || op.RPop? {
      hide ActList;
      ListReplies(op, o);
    } else if op.Append? {
      AppendReplies(op, o);
    }
  }

  // ---------- what every command keeps ----------

  ghost predicate Filled(o: Option<Value>) {
    o.Some? && o.value.body.ListOf? ==> o.value.body.items != []
  }

  ghost predicate Together(o: Option<Value>) {
    o.Some? && o.value.body.SortedOf? ==> Agree(o.value.body.zset)
  }

  /** No stored list is empty. */
  ghost predicate ListsFilled(m: Store) {
    forall key :: key in m ==> Filled(Some(m[key]))
  }

  /** The two indexes of every stored sorted set agree. */
  ghost predicate SetsTogether(m: Store) {
    forall key :: key in m ==> Together(Some(m[key]))
  }

  /** The push handlers are reached with at least one value. */
  predicate PushesSomething(c: Command) {
    match c
    case On(_, LPush(vals)) => vals != []
    case On(_, RPush(vals)) => vals != []
    case _ => true
  }

  predicate AddsNulFree(c: Command) {
    match c
    case On(_, ZAdd(pairs)) => forall p :: p in pairs ==> NulFree(p.1)
    case _ => true
  }

  lemma EmptyAgrees()
    ensures Agree(EMPTY)
  {
    assert Scores([]) == map[];
  }

  lemma ActKeepsFilled(op: Keyed, o: Option<Value>)
    requires Filled(o) && PushesSomething(On([], op))
    ensures Filled(Act(op, o).0)
  {
    if op.LPush? {
      ReverseLength(op.vals);
    }
  }

  lemma ActKeepsTogether(op: Keyed, o: Option<Value>)
    requires Together(o) && AddsNulFree(On([], op))
    ensures Together(Act(op, o).0)
  {
    hide Agree;
    EmptyAgrees();
    match op
    case ZAdd(pairs) => AddAllIs(pairs, if o.Some? && o.value.body.SortedOf? then o.value.body.zset else EMPTY);
    case ZRem(members) =>
      if o.Some? && o.value.body.SortedOf? {
        RemoveMembersIs(members, o.value.body.zset);
      }
    case _ =>
  }

  ghost predicate Within(m: Store, n: Store) {
    forall key :: key in m ==> key in n && m[key] == n[key]
  }

  lemma {:induction false} ExistsShrinks(m: Store, lookups: seq<(Bytes, int)>)
    ensures Within(ExecExists(m, lookups).0, m)
    decreases |lookups|
  {
    if lookups != [] {
      ExistsShrinks(Checked(m, lookups[0].0, lookups[0].1), lookups[1..]);
    }
  }

  lemma {:induction false} DelShrinks(m: Store, keys: seq<Bytes>)
    ensures Within(ExecDel(m, keys).0, m)
    decreases |keys|
  {
    if keys != [] {
      DelShrinks(m - {keys[0]}, keys[1..]);
    }
  }

  /** No command leaves an empty list under a key. */
  lemma ListsStayFilled(m: Store, c: Command, now: int)
    requires ListsFilled(m) && PushesSomething(c)
    ensures ListsFilled(Exec(m, c, now).0)
  {
    hide Act;
    match c
    case On(key, op) =>
      var checked := Checked(m, key, now);
      assert Filled(At(checked, key));
      ActKeepsFilled(op, At(checked, key));
    case Exists(lookups) => ExistsShrinks(m, lookups);
    case Del(keys) => DelShrinks(m, keys);
    case _ =>
  }

  /** No command parts the two indexes of a stored sorted set. */
  lemma SetsStayTogether(m: Store, c: Command, now: int)
    requires SetsTogether(m) && AddsNulFree(c)
    ensures SetsTogether(Exec(m, c, now).0)
  {
    hide Act, Agree;
    match c
    case On(key, op) =>
      var checked := Checked(m, key, now);
      assert Together(At(checked, key));
      ActKeepsTogether(op, At(checked, key));
    case Exists(lookups) => ExistsShrinks(m, lookups);
    case Del(keys) => DelShrinks(m, keys);
    case _ =>
  }
}
