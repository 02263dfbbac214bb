/** Lazy deletion and the background sweep are invisible to clients. */
module Expiry {
  import opened Sequences
  import opened Bytes
  import opened Snapshot
  import opened Keyspace

  /** What a client may know of a key at time `t`. */
  function Seen(m: Store, key: Bytes, t: int): Option<Value> {
    if key in m && LiveAt(m[key].expireAt, t) then Some(m[key]) else None
  }

  /** No client can tell the two keyspaces apart from time `t` on. */
  ghost predicate SameFrom(m: Store, v: Store, t: int) {
    forall key, u :: u >= t ==> Seen(m, key, u) == Seen(v, key, u)
  }

  /** The keyspace that drops every key at its deadline. */
  function Live(m: Store, now: int): Store {
    map key | key in m && LiveAt(m[key].expireAt, now) :: m[key]
  }

  /** An expired key that nobody has looked at yet. */
  predicate Lingers(m: Store, key: Bytes, now: int) {
    key in m && !LiveAt(m[key].expireAt, now)
  }

  /** A value is seen while it has no deadline or its deadline is ahead; a key lingers from its deadline on. */
  lemma SeenMeans(m: Store, key: Bytes, t: int)
    ensures Seen(m, key, t).Some? <==> key in m && (m[key].expireAt == 0 || t < m[key].expireAt)
    ensures Seen(m, key, t).Some? ==> Seen(m, key, t).value == m[key]
    ensures Lingers(m, key, t) <==> key in m && m[key].expireAt != 0 && m[key].expireAt <= t
  {
  }

  lemma LiveIsSeen(m: Store, key: Bytes, now: int)
    ensures At(Live(m, now), key) == Seen(m, key, now) == At(Checked(m, key, now), key)
  {
  }

  lemma LiveSame(m: Store, now: int)
    ensures SameFrom(m, Live(m, now), now)
  {
  }

  lemma CheckedSame(m: Store, key: Bytes, now: int)
    ensures SameFrom(m, Checked(m, key, now), now)
  {
  }

  /** Replacing what is under one key keeps the same things the same. */
  lemma PutBackSame(m: Store, v: Store, key: Bytes, o: Option<Value>, t: int)
    requires SameFrom(m, v, t)
    ensures SameFrom(PutBack(m, key, o), PutBack(v, key, o), t)
  {
    forall k, u | u >= t
      ensures Seen(PutBack(m, key, o), k, u) == Seen(PutBack(v, key, o), k, u)
    {
      assert Seen(m, k, u) == Seen(v, k, u);
    }
  }

  lemma SameTransitive(a: Store, b: Store, c: Store, t: int, t': int)
    requires SameFrom(a, b, t) && SameFrom(b, c, t') && t <= t'
    ensures SameFrom(a, c, t')
  {
    forall key, u | u >= t'
      ensures Seen(a, key, u) == Seen(c, key, u)
    {
      assert Seen(a, key, u) == Seen(b, key, u);
      assert Seen(b, key, u) == Seen(c, key, u);
    }
  }

  lemma SameSymmetric(m: Store, v: Store, t: int)
    requires SameFrom(m, v, t)
    ensures SameFrom(v, m, t)
  {
  }

  lemma CheckedBefore(m: Store, v: Store, key: Bytes, t: int)
    requires SameFrom(m, v, t)
    ensures SameFrom(Checked(m, key, t), v, t)
  {
    hide SameFrom, Checked;
    CheckedSame(m, key, t);
    SameSymmetric(m, Checked(m, key, t), t);
    SameTransitive(Checked(m, key, t), m, v, t, t);
  }

  lemma SameLive(m: Store, v: Store, now: int)
    requires SameFrom(m, v, now)
    ensures Live(m, now) == Live(v, now)
  {
    forall key
      ensures At(Live(m, now), key) == At(Live(v, now), key)
    {
      LiveIsSeen(m, key, now);
      LiveIsSeen(v, key, now);
      assert Seen(m, key, now) == Seen(v, key, now);
    }
    AtDetermines(Live(m, now), Live(v, now));
  }

  lemma AtDetermines(a: Store, b: Store)
    requires forall key :: At(a, key) == At(b, key)
    ensures a == b
  {
    forall key
      ensures key in a <==> key in b
      ensures key in a ==> a[key] == b[key]
    {
      assert At(a, key) == At(b, key);
    }
  }

  // ---------- one command ----------

  /** The keys a command looks up without checking their expiry are none that linger. */
  predicate Undisturbed(m: Store, c: Command, now: int) {
    match c
    case Expire(key, _) => !Lingers(m, key, now)
    case Persist(key) => !Lingers(m, key, now)
    case Del(keys) => forall key :: key in keys ==> !Lingers(m, key, now)
    case DbSize => forall key :: key in m ==> !Lingers(m, key, now)
    case _ => true
  }

  lemma OnSame(m: Store, key: Bytes, op: Keyed, now: int)
    ensures var v := Live(m, now);
      Exec(m, On(key, op), now).1 == Exec(v, On(key, op), now).1
      && SameFrom(Exec(m, On(key, op), now).0, Exec(v, On(key, op), now).0, now)
  {
    hide Act;
    var v := Live(m, now);
    LiveIsSeen(m, key, now);
    assert Checked(v, key, now) == v;
    CheckedSame(m, key, now);
    LiveSame(m, now);
    SameSymmetric(m, Checked(m, key, now), now);
    SameTransitive(Checked(m, key, now), m, v, now, now);
    PutBackSame(Checked(m, key, now), v, key, Act(op, At(v, key)).0, now);
  }

  /** Every reading of the clock inside a command comes after its start. */
  predicate TimesFrom(c: Command, now: int) {
    c.Exists? ==> forall l :: l in c.lookups ==> now <= l.1
  }

  lemma CheckedBoth(m: Store, v: Store, key: Bytes, now: int, t: int)
    requires SameFrom(m, v, now) && now <= t
    ensures SameFrom(Checked(m, key, t), Checked(v, key, t), now)
    ensures key in Checked(m, key, t) <==> key in Checked(v, key, t)
  {
    assert Seen(m, key, t) == Seen(v, key, t);
    LiveIsSeen(m, key, t);
    LiveIsSeen(v, key, t);
    var o := Seen(m, key, t);
    PutBackSame(m, v, key, o, now);
    assert Checked(m, key, t) == PutBack(m, key, o) && Checked(v, key, t) == PutBack(v, key, o);
  }

  lemma {:induction false} ExistsSame(m: Store, v: Store, lookups: seq<(Bytes, int)>, now: int)
    requires SameFrom(m, v, now) && forall l :: l in lookups ==> now <= l.1
    ensures ExecExists(m, lookups).1 == ExecExists(v, lookups).1
    ensures SameFrom(ExecExists(m, lookups).0, ExecExists(v, lookups).0, now)
    decreases |lookups|
  {
    hide SameFrom, Checked;
    if lookups != [] {
      var (key, t) := lookups[0];
      CheckedBoth(m, v, key, now, t);
      ExistsSame(Checked(m, key, t), Checked(v, key, t), lookups[1..], now);
    }
  }

  /** How many of the keys are live when their turn comes. */
  function LiveLookups(m: Store, lookups: seq<(Bytes, int)>): nat {
    if lookups == [] then 0
    else (if Seen(m, lookups[0].0, lookups[0].1).Some? then 1 else 0) + LiveLookups(m, lookups[1..])
  }

  predicate TimesOrdered(lookups: seq<(Bytes, int)>, now: int)
    decreases |lookups|
  {
    lookups == [] || (now <= lookups[0].1 && TimesOrdered(lookups[1..], lookups[0].1))
  }

  lemma {:induction false} LookupsSame(m: Store, v: Store, lookups: seq<(Bytes, int)>, now: int)
    requires SameFrom(m, v, now) && TimesOrdered(lookups, now)
    ensures LiveLookups(m, lookups) == LiveLookups(v, lookups)
  {
    if lookups != [] {
      SameLater(m, v, now, lookups[0].1);
      LookupsSame(m, v, lookups[1..], lookups[0].1);
    }
  }

  /** EXISTS answers with the number of keys that are live when their turn comes, whatever lingers. */
  lemma {:induction false} ExistsCounts(m: Store, lookups: seq<(Bytes, int)>, now: int)
    requires TimesOrdered(lookups, now)
    ensures ExecExists(m, lookups).1 == LiveLookups(m, lookups)
    decreases |lookups|
  {
    if lookups != [] {
      var (key, t) := lookups[0];
      LiveIsSeen(m, key, t);
      CheckedSame(m, key, t);
      hide SameFrom, Checked;
      LookupsSame(m, Checked(m, key, t), lookups[1..], t);
      ExistsCounts(Checked(m, key, t), lookups[1..], t);
    }
  }

  lemma DelLingers(m: Store, keys: seq<Bytes>, now: int)
    requires keys != []
    ensures (forall key :: key in keys ==> !Lingers(m, key, now))
       <==> !Lingers(m, keys[0], now) && forall key :: key in keys[1..] ==> !Lingers(m - {keys[0]}, key, now)
  {
    var k := keys[0];
    forall key
      ensures key in keys <==> key == k || key in keys[1..]
      ensures Lingers(m - {k}, key, now) <==> key != k && Lingers(m, key, now)
    {
      assert keys == [k] + keys[1..];
    }
    if !Lingers(m, k, now) && forall key :: key in keys[1..] ==> !Lingers(m - {k}, key, now) {
      forall key | key in keys
        ensures !Lingers(m, key, now)
      {
        assert key == k || !Lingers(m - {k}, key, now);
      }
    }
  }

  lemma {:induction false} DelSame(m: Store, keys: seq<Bytes>, now: int)
    ensures var v := Live(m, now);
      && SameFrom(ExecDel(m, keys).0, ExecDel(v, keys).0, now)
      && ExecDel(m, keys).1 >= ExecDel(v, keys).1
      && (ExecDel(m, keys).1 == ExecDel(v, keys).1 <==> forall key :: key in keys ==> !Lingers(m, key, now))
    decreases |keys|
  {
    var v := Live(m, now);
    if keys == [] {
      LiveSame(m, now);
    } else {
      var k := keys[0];
      assert Live(m - {k}, now) == v - {k};
      LiveIsSeen(m, k, now);
      DelSame(m - {k}, keys[1..], now);
      DelLingers(m, keys, now);
    }
  }

  lemma LiveCount(m: Store, now: int)
    ensures |Live(m, now)| == |m| <==> forall key :: key in m ==> !Lingers(m, key, now)
  {
    var v := Live(m, now);
    assert v.Keys <= m.Keys;
    assert |m.Keys| == |m| && |v.Keys| == |v|;
    assert |m.Keys - v.Keys| == |m| - |v|;
    if forall key :: key in m ==> !Lingers(m, key, now) {
      assert v.Keys == m.Keys;
    } else {
      var key :| key in m && Lingers(m, key, now);
      assert key in m.Keys - v.Keys;
    }
  }

  /** The command answers as on the keyspace that drops keys at their deadline, and leaves what nobody can
      tell from what that one leaves. */
  ghost predicate Transparent(m: Store, c: Command, now: int) {
    var got, ideal := Exec(m, c, now), Exec(Live(m, now), c, now);
    got.1 == ideal.1 && SameFrom(got.0, ideal.0, now)
  }

  lemma ExistsTransparent(m: Store, lookups: seq<(Bytes, int)>, now: int)
    requires TimesFrom(Exists(lookups), now)
    ensures Transparent(m, Exists(lookups), now)
  {
    hide SameFrom;
    LiveSame(m, now);
    ExistsSame(m, Live(m, now), lookups, now);
  }

  lemma SetTransparent(m: Store, key: Bytes, val: Bytes, now: int)
    ensures Transparent(m, Set(key, val), now)
  {
    hide SameFrom;
    LiveSame(m, now);
    PutBackSame(m, Live(m, now), key, Some(Obj(Text(val), 0)), now);
  }

  lemma TtlTransparent(m: Store, key: Bytes, now: int)
    ensures Transparent(m, Ttl(key), now)
  {
    hide SameFrom;
    LiveSame(m, now);
    LiveIsSeen(m, key, now);
    CheckedBefore(m, Live(m, now), key, now);
  }

  lemma ExpireTransparent(m: Store, key: Bytes, secs: int, now: int)
    ensures Transparent(m, Expire(key, secs), now) <==> !Lingers(m, key, now)
  {
    hide SameFrom, Int64;
    LiveSame(m, now);
    LiveIsSeen(m, key, now);
    if key in Live(m, now) {
      PutBackSame(m, Live(m, now), key, Some(m[key].(expireAt := Int64(now + 1000 * secs))), now);
    }
  }

  lemma PersistTransparent(m: Store, key: Bytes, now: int)
    ensures Transparent(m, Persist(key), now) <==> !Lingers(m, key, now)
  {
    hide SameFrom;
    LiveSame(m, now);
    LiveIsSeen(m, key, now);
    if key in Live(m, now) {
      PutBackSame(m, Live(m, now), key, Some(m[key].(expireAt := 0)), now);
    }
  }

  lemma TableTransparent(m: Store, c: Command, now: int)
    requires c.FlushDb? || c.Del? || c.DbSize?
    ensures Transparent(m, c, now) <==> Undisturbed(m, c, now)
  {
    LiveSame(m, now);
    match c
    case Del(keys) => DelSame(m, keys, now);
    case DbSize => LiveCount(m, now);
    case FlushDb =>
  }

  /** A command is transparent exactly when no key it looks up unchecked lingers. */
  lemma CommandTransparent(m: Store, c: Command, now: int)
    requires TimesFrom(c, now)
    ensures Transparent(m, c, now) <==> Undisturbed(m, c, now)
  {
    match c
    case On(key, op) => OnSame(m, key, op, now);
    case _ =>
      hide Transparent;
      match c
      case Exists(lookups) => ExistsTransparent(m, lookups, now);
      case Set(key, val) => SetTransparent(m, key, val, now);
      case Ttl(key) => TtlTransparent(m, key, now);
      case Expire(key, secs) => ExpireTransparent(m, key, secs, now);
      case Persist(key) => PersistTransparent(m, key, now);
      case _ => TableTransparent(m, c, now);
  }

  /** The reply alone tells: whenever such a key lingers, the reply is wrong. */
  lemma DisturbedShows(m: Store, c: Command, now: int)
    requires TimesFrom(c, now)
    ensures Exec(m, c, now).1 == Exec(Live(m, now), c, now).1 <==> Undisturbed(m, c, now)
  {
    if Undisturbed(m, c, now) {
      CommandTransparent(m, c, now);
    } else {
      match c
      case Expire(key, _) => LiveIsSeen(m, key, now);
      case Persist(key) => LiveIsSeen(m, key, now);
      case Del(keys) => DelSame(m, keys, now);
      case DbSize => LiveCount(m, now);
    }
  }

  /** The seconds reported for a live key are its remaining milliseconds, rounded up. */
  lemma TtlIsCeiling(m: Store, key: Bytes, now: int)
    requires key in m && m[key].expireAt != 0
    ensures var reply := Exec(m, Ttl(key), now).1;
      if now < m[key].expireAt
      then reply.Int? && reply.n > 0 && 1000 * (reply.n - 1) < m[key].expireAt - now <= 1000 * reply.n
      else reply == Int(-2)
  {
  }

  // ---------- whole runs ----------

  /** Something happens at a time: a client's command; the sweep looking up one of the keys it has
      collected; or the sweep deleting the key it has found expired. The sweep takes no lock, so commands
      come between its look and its delete. A command is one step. */
  datatype Event = Client(now: int, command: Command) | Look(now: int, key: Bytes) | Delete(now: int)

  /** The key that a look has found expired, and that the sweep will delete. */
  function Found(m: Store, key: Bytes, now: int): Option<Bytes> {
    if Lingers(m, key, now) then Some(key) else None
  }

  function Swept(m: Store, pending: Option<Bytes>): Store {
    if pending.Some? then m - {pending.value} else m
  }

  /** The replies, and the keyspace in the end. */
  function Run(m: Store, pending: Option<Bytes>, events: seq<Event>): (Store, seq<Reply>)
    decreases |events|
  {
    if events == [] then (m, [])
    else
      match events[0]
      case Client(now, c) =>
        var (next, reply) := Exec(m, c, now);
        var (end, replies) := Run(next, pending, events[1..]);
        (end, [reply] + replies)
      case Look(now, key) => Run(m, Found(m, key, now), events[1..])
      case Delete(_) => Run(Swept(m, pending), None, events[1..])
  }

  /** The same commands on the keyspace that drops keys at their deadline, with no sweep at all. */
  function IdealRun(m: Store, events: seq<Event>): (Store, seq<Reply>)
    decreases |events|
  {
    if events == [] then (m, [])
    else
      match events[0]
      case Client(now, c) =>
        var (next, reply) := Exec(Live(m, now), c, now);
        var (end, replies) := IdealRun(next, events[1..]);
        (end, [reply] + replies)
      case _ => IdealRun(m, events[1..])
  }

  predicate Forward(events: seq<Event>, now: int)
    decreases |events|
  {
    events == [] ||
    (now <= events[0].now && (events[0].Client? ==> TimesFrom(events[0].command, events[0].now))
     && Forward(events[1..], events[0].now))
  }

  /** No command of the run meets a lingering key that it looks up unchecked. */
  predicate RunUndisturbed(m: Store, pending: Option<Bytes>, events: seq<Event>)
    decreases |events|
  {
    events == [] ||
    match events[0]
    case Client(now, c) => Undisturbed(m, c, now) && RunUndisturbed(Exec(m, c, now).0, pending, events[1..])
    case Look(now, key) => RunUndisturbed(m, Found(m, key, now), events[1..])
    case Delete(_) => RunUndisturbed(Swept(m, pending), None, events[1..])
  }

  /** No delete of the sweep strikes a key that is live by then. */
  predicate DeletesStale(m: Store, pending: Option<Bytes>, events: seq<Event>)
    decreases |events|
  {
    events == [] ||
    match events[0]
    case Client(now, c) => DeletesStale(Exec(m, c, now).0, pending, events[1..])
    case Look(now, key) => DeletesStale(m, Found(m, key, now), events[1..])
    case Delete(now) =>
      && (pending.Some? ==> Seen(m, pending.value, now).None?)
      && DeletesStale(Swept(m, pending), None, events[1..])
  }

  function LastTime(events: seq<Event>, now: int): int
    decreases |events|
  {
    if events == [] then now else LastTime(events[1..], events[0].now)
  }

  /** After every single step the reply given is right and the keyspace cannot be told from the one that
      drops keys at their deadline. */
  ghost predicate NeverShows(m: Store, v: Store, pending: Option<Bytes>, events: seq<Event>)
    decreases |events|
  {
    events == [] ||
    match events[0]
    case Client(now, c) =>
      var got, ideal := Exec(m, c, now), Exec(Live(v, now), c, now);
      got.1 == ideal.1 && SameFrom(got.0, ideal.0, now) && NeverShows(got.0, ideal.0, pending, events[1..])
    case Look(now, key) => NeverShows(m, v, Found(m, key, now), events[1..])
    case Delete(now) => SameFrom(Swept(m, pending), v, now) && NeverShows(Swept(m, pending), v, None, events[1..])
  }

  /** Deleting a key cannot be seen exactly when the key cannot be seen. */
  lemma DeleteExact(m: Store, key: Bytes, now: int)
    ensures SameFrom(m, m - {key}, now) <==> Seen(m, key, now).None?
  {
    assert Seen(m - {key}, key, now).None?;
  }

  lemma SweptExact(m: Store, v: Store, pending: Option<Bytes>, now: int)
    requires SameFrom(m, v, now)
    ensures SameFrom(Swept(m, pending), v, now) <==> (pending.Some? ==> Seen(m, pending.value, now).None?)
  {
    hide SameFrom;
    if pending.Some? {
      var next := m - {pending.value};
      DeleteExact(m, pending.value, now);
      if SameFrom(next, v, now) {
        SameSymmetric(next, v, now);
        SameTransitive(m, v, next, now, now);
      }
      if SameFrom(m, next, now) {
        SameSymmetric(m, next, now);
        SameTransitive(next, m, v, now, now);
      }
    }
  }

  /** The replies of a run are right and nobody can tell the keyspace in the end from the one that drops
      keys at their deadline, as long as no command looks up a lingering key unchecked and no delete of the
      sweep strikes a live key. */
  lemma {:induction false} RunTransparent(m: Store, v: Store, pending: Option<Bytes>, events: seq<Event>, now: int)
    requires SameFrom(m, v, now) && Forward(events, now)
    requires RunUndisturbed(m, pending, events) && DeletesStale(m, pending, events)
    ensures Run(m, pending, events).1 == IdealRun(v, events).1
    ensures SameFrom(Run(m, pending, events).0, IdealRun(v, events).0, LastTime(events, now))
    decreases |events|
  {
    hide Exec, Undisturbed, Live, SameFrom, Seen, Swept, Found;
    if events != [] {
      var e := events[0];
      SameLater(m, v, now, e.now);
      match e
      case Client(t, c) =>
        SameLive(m, v, t);
        CommandTransparent(m, c, t);
        RunTransparent(Exec(m, c, t).0, Exec(Live(v, t), c, t).0, pending, events[1..], t);
      case Look(t, key) =>
        RunTransparent(m, v, Found(m, key, t), events[1..], t);
      case Delete(t) =>
        SweptExact(m, v, pending, t);
        RunTransparent(Swept(m, pending), v, None, events[1..], t);
    }
  }

  /** Over any run with time not going back, neither lazy deletion nor the sweep ever shows exactly when no
      command looks up a lingering key unchecked and no delete of the sweep strikes a live key. */
  lemma {:induction false} RunExact(m: Store, v: Store, pending: Option<Bytes>, events: seq<Event>, now: int)
    requires SameFrom(m, v, now) && Forward(events, now)
    ensures NeverShows(m, v, pending, events)
       <==> RunUndisturbed(m, pending, events) && DeletesStale(m, pending, events)
    decreases |events|
  {
    hide Exec, Undisturbed, Live, SameFrom, Seen, Swept, Found;
    if events != [] {
      var e := events[0];
      SameLater(m, v, now, e.now);
      match e
      case Client(t, c) =>
        SameLive(m, v, t);
        CommandTransparent(m, c, t);
        if Undisturbed(m, c, t) {
          RunExact(Exec(m, c, t).0, Exec(Live(v, t), c, t).0, pending, events[1..], t);
        }
      case Look(t, key) =>
        RunExact(m, v, Found(m, key, t), events[1..], t);
      case Delete(t) =>
        SweptExact(m, v, pending, t);
        if SameFrom(Swept(m, pending), v, t) {
          RunExact(Swept(m, pending), v, None, events[1..], t);
        }
    }
  }

  /** If no delete strikes a live key, the replies alone are right exactly when no command looks up a
      lingering key unchecked. */
  lemma {:induction false} RepliesExact(m: Store, v: Store, pending: Option<Bytes>, events: seq<Event>, now: int)
    requires SameFrom(m, v, now) && Forward(events, now) && DeletesStale(m, pending, events)
    ensures Run(m, pending, events).1 == IdealRun(v, events).1 <==> RunUndisturbed(m, pending, events)
    decreases |events|
  {
    hide Exec, Undisturbed, Live, SameFrom, Seen, Swept, Found;
    if events != [] {
      var e := events[0];
      SameLater(m, v, now, e.now);
      match e
      case Client(t, c) =>
        SameLive(m, v, t);
        DisturbedShows(m, c, t);
        if Undisturbed(m, c, t) {
          CommandTransparent(m, c, t);
          RepliesExact(Exec(m, c, t).0, Exec(Live(v, t), c, t).0, pending, events[1..], t);
          FirstReply(Exec(m, c, t).1, Run(Exec(m, c, t).0, pending, events[1..]).1,
            IdealRun(Exec(Live(v, t), c, t).0, events[1..]).1);
        } else {
          assert Run(m, pending, events).1[0] != IdealRun(v, events).1[0];
        }
      case Look(t, key) =>
        RepliesExact(m, v, Found(m, key, t), events[1..], t);
      case Delete(t) =>
        SweptExact(m, v, pending, t);
        RepliesExact(Swept(m, pending), v, None, events[1..], t);
    }
  }

  lemma FirstReply(reply: Reply, a: seq<Reply>, b: seq<Reply>)
    ensures [reply] + a == [reply] + b <==> a == b
  {
    assert ([reply] + a)[1..] == a && ([reply] + b)[1..] == b;
  }

  lemma SameLater(m: Store, v: Store, t: int, t': int)
    requires SameFrom(m, v, t) && t <= t'
    ensures SameFrom(m, v, t')
  {
  }

  // ---------- writes between a look and its delete ----------

  /** The commands that can leave a live value under a key that was not live. */
  predicate Writes(c: Command, key: Bytes) {
    match c
    case On(k, op) =>
      k == key && (op.SetNx? || op.Append? || op.LPush? || op.RPush? || op.HSet? || op.ZAdd?)
    case Set(k, _) => k == key
    case Expire(k, _) => k == key
    case Persist(k) => k == key
    case _ => false
  }

  /** And each of them does: the first seven whatever was there, PERSIST if the key lingers, EXPIRE if it
      lingers and the new deadline is ahead. */
  lemma WritesRevive(m: Store, c: Command, key: Bytes, now: int)
    requires Writes(c, key) && Seen(m, key, now).None?
    requires c.Persist? ==> Lingers(m, key, now)
    requires c.Expire? ==> Lingers(m, key, now) && 0 < c.secs && 0 < now + 1000 * c.secs < 0x8000_0000_0000_0000
    ensures Seen(Exec(m, c, now).0, key, now).Some?
  {
    match c
    case On(k, op) =>
      LiveIsSeen(m, key, now);
      hide Exec, Seen, Reverse, SetAll, CountNew;
      assert Act(op, None).0.Some? && Act(op, None).0.value.expireAt == 0;
      hide Act;
      WrittenSeen(m, key, op, now);
    case _ =>
  }

  lemma WrittenSeen(m: Store, key: Bytes, op: Keyed, now: int)
    requires At(Checked(m, key, now), key) == None
    requires Act(op, None).0.Some? && Act(op, None).0.value.expireAt == 0
    ensures Seen(Exec(m, On(key, op), now).0, key, now).Some?
  {
    hide Act;
  }

  /** No command writes a key between a look at it and the next delete or look. */
  predicate Unwritten(looked: Option<Bytes>, events: seq<Event>)
    decreases |events|
  {
    events == [] ||
    match events[0]
    case Client(_, c) => (looked.Some? ==> !Writes(c, looked.value)) && Unwritten(looked, events[1..])
    case Look(_, key) => Unwritten(Some(key), events[1..])
    case Delete(_) => Unwritten(None, events[1..])
  }

  lemma NothingStaysNothing(op: Keyed)
    requires !Writes(On([], op), [])
    ensures Act(op, None).0 == None
  {
  }

  lemma UnwrittenStaysGone(m: Store, c: Command, key: Bytes, now: int)
    requires !Writes(c, key) && Seen(m, key, now).None?
    ensures Seen(Exec(m, c, now).0, key, now).None?
  {
    match c
    case On(k, op) =>
      hide Act;
      if k == key {
        LiveIsSeen(m, key, now);
        NothingStaysNothing(op);
      }
    case Exists(lookups) => ExistsShrinks(m, lookups);
    case Del(keys) => DelShrinks(m, keys);
    case _ =>
  }

  /** If no command writes a key between the look at it and the delete, no delete strikes a live key. */
  lemma {:induction false} UnwrittenStale(m: Store, pending: Option<Bytes>, looked: Option<Bytes>, events: seq<Event>,
    now: int)
    requires Forward(events, now) && Unwritten(looked, events)
    requires pending.Some? ==> looked == pending && Seen(m, pending.value, now).None?
    ensures DeletesStale(m, pending, events)
    decreases |events|
  {
    hide Exec, Writes;
    if events != [] {
      var t := events[0].now;
      match events[0]
      case Client(_, c) =>
        if pending.Some? {
          UnwrittenStaysGone(m, c, pending.value, t);
        }
        UnwrittenStale(Exec(m, c, t).0, pending, looked, events[1..], t);
      case Look(_, key) => UnwrittenStale(m, Found(m, key, t), Some(key), events[1..], t);
      case Delete(_) => UnwrittenStale(Swept(m, pending), None, None, events[1..], t);
    }
  }

  /** If no command writes a key between the look at it and the delete, then neither lazy deletion nor the
      sweep ever shows exactly when no command looks up a lingering key unchecked. */
  lemma UnwrittenExact(m: Store, v: Store, events: seq<Event>, now: int)
    requires SameFrom(m, v, now) && Forward(events, now) && Unwritten(None, events)
    ensures NeverShows(m, v, None, events) <==> RunUndisturbed(m, None, events)
  {
    UnwrittenStale(m, None, None, events, now);
    RunExact(m, v, None, events, now);
  }

  /** With nothing in between, a look and its delete are `check_expiry`. */
  lemma LookThenDelete(m: Store, key: Bytes, now: int)
    ensures Swept(m, Found(m, key, now)) == Checked(m, key, now)
  {
  }

  /** The condition is needed: a value written between the look and the delete is lost, for every key that
      lingers and every value. */
  lemma SweepLosesWrite(m: Store, key: Bytes, val: Bytes, now: int)
    requires Lingers(m, key, now)
    ensures var events := [Look(now, key), Client(now, Set(key, val)), Delete(now), Client(now, On(key, Get))];
      Run(m, None, events).1 == [Done, Nil] && IdealRun(m, events).1 == [Done, Bulk(val)]
  {
    var e1, e2 := Look(now, key), Client(now, Set(key, val));
    var e3, e4 := Delete(now), Client(now, On(key, Get));
    var written := m[key := Obj(Text(val), 0)];
    assert [e1, e2, e3, e4][1..] == [e2, e3, e4] && [e2, e3, e4][1..] == [e3, e4] && [e3, e4][1..] == [e4];
    assert [e4][1..] == [];
    assert Run(m, None, [e1, e2, e3, e4]) == Run(m, Some(key), [e2, e3, e4]);
    assert Run(written, Some(key), [e3, e4]) == Run(written - {key}, None, [e4]);
    assert Run(written - {key}, None, [e4]).1 == [Nil];
    var ideal := Live(m, now)[key := Obj(Text(val), 0)];
    assert IdealRun(ideal, [e3, e4]) == IdealRun(ideal, [e4]);
    assert IdealRun(ideal, [e4]).1 == [Bulk(val)];
  }

  // ---------- what runs keep ----------

  lemma SweptKeepsFilled(m: Store, pending: Option<Bytes>)
    requires ListsFilled(m)
    ensures ListsFilled(Swept(m, pending))
  {
  }

  /** Whatever clients and the sweep do, no list becomes empty ... */
  lemma {:induction false} RunKeepsFilled(m: Store, pending: Option<Bytes>, events: seq<Event>)
    requires ListsFilled(m) && forall e :: e in events && e.Client? ==> PushesSomething(e.command)
    ensures ListsFilled(Run(m, pending, events).0)
    decreases |events|
  {
    hide Exec, PushesSomething, ListsFilled, Swept;
    if events != [] {
      var e := events[0];
      assert e in events;
      match e
      case Client(now, c) =>
        ListsStayFilled(m, c, now);
        RunKeepsFilled(Exec(m, c, now).0, pending, events[1..]);
      case Look(now, key) =>
        RunKeepsFilled(m, Found(m, key, now), events[1..]);
      case Delete(_) =>
        SweptKeepsFilled(m, pending);
        RunKeepsFilled(Swept(m, pending), None, events[1..]);
    }
  }

  lemma SweptKeepsTogether(m: Store, pending: Option<Bytes>)
    requires SetsTogether(m)
    ensures SetsTogether(Swept(m, pending))
  {
  }

  /** ... and no sorted set falls apart. */
  lemma {:induction false} RunKeepsTogether(m: Store, pending: Option<Bytes>, events: seq<Event>)
    requires SetsTogether(m) && forall e :: e in events && e.Client? ==> AddsNulFree(e.command)
    ensures SetsTogether(Run(m, pending, events).0)
    decreases |events|
  {
    hide Exec, AddsNulFree, SetsTogether, Swept;
    if events != [] {
      var e := events[0];
      assert e in events;
      match e
      case Client(now, c) =>
        SetsStayTogether(m, c, now);
        RunKeepsTogether(Exec(m, c, now).0, pending, events[1..]);
      case Look(now, key) =>
        RunKeepsTogether(m, Found(m, key, now), events[1..]);
      case Delete(_) =>
        SweptKeepsTogether(m, pending);
        RunKeepsTogether(Swept(m, pending), None, events[1..]);
    }
  }

  // ---------- a list as a queue ----------

  /** As many RPOPs as there are times. */
  function Pops(key: Bytes, times: seq<int>): seq<Event> {
    if times == [] then [] else [Client(times[0], On(key, RPop))] + Pops(key, times[1..])
  }

  function Delivered(vals: seq<Bytes>): seq<Reply> {
    if vals == [] then [] else [Bulk(vals[0])] + Delivered(vals[1..])
  }

  lemma PopBehind(rest: seq<Bytes>, last: Bytes)
    ensures ActList(RPop, Some(Obj(ListOf(rest + [last]), 0))) ==
      (if rest == [] then None else Some(Obj(ListOf(rest), 0)), Bulk(last))
  {
    var items := rest + [last];
    assert items != [] && items[..|items| - 1] == rest && items[|items| - 1] == last;
  }

  lemma PopLast(vals: seq<Bytes>)
    requires vals != []
    ensures ActList(RPop, Some(Obj(ListOf(Reverse(vals)), 0))) ==
      (if |vals| == 1 then None else Some(Obj(ListOf(Reverse(vals[1..])), 0)), Bulk(vals[0]))
  {
    ReverseLength(vals[1..]);
    assert Reverse(vals) == Reverse(vals[1..]) + [vals[0]];
    hide ActList, Reverse;
    PopBehind(Reverse(vals[1..]), vals[0]);
  }

  lemma PopStep(m: Store, key: Bytes, vals: seq<Bytes>, now: int)
    requires vals != [] && key in m && m[key] == Obj(ListOf(Reverse(vals)), 0)
    ensures Exec(m, On(key, RPop), now) ==
      (if |vals| == 1 then m - {key} else m[key := Obj(ListOf(Reverse(vals[1..])), 0)], Bulk(vals[0]))
  {
    hide ActList, Reverse;
    PopLast(vals);
  }

  lemma {:induction false} PopsDeliver(m: Store, key: Bytes, vals: seq<Bytes>, times: seq<int>)
    requires |times| == |vals| > 0 && key in m && m[key] == Obj(ListOf(Reverse(vals)), 0)
    ensures Run(m, None, Pops(key, times)) == (m - {key}, Delivered(vals))
    decreases |vals|
  {
    PopStep(m, key, vals, times[0]);
    hide Exec, Reverse;
    var events := Pops(key, times);
    assert events[1..] == Pops(key, times[1..]);
    if |vals| == 1 {
      assert times[1..] == [] && vals[1..] == [];
    } else {
      var next := m[key := Obj(ListOf(Reverse(vals[1..])), 0)];
      PopsDeliver(next, key, vals[1..], times[1..]);
      assert next - {key} == m - {key};
    }
  }

  /** What LPUSH puts into a list that is not there, RPOP delivers in the same order, at any times, and the
      key is gone with the last value. */
  lemma QueueDelivers(m: Store, key: Bytes, vals: seq<Bytes>, now: int, times: seq<int>)
    requires Seen(m, key, now).None? && |times| == |vals| > 0
    ensures Run(m, None, [Client(now, On(key, LPush(vals)))] + Pops(key, times))
         == (m - {key}, [Int(|vals|)] + Delivered(vals))
  {
    var push := Client(now, On(key, LPush(vals)));
    var next := m[key := Obj(ListOf(Reverse(vals)), 0)];
    LiveIsSeen(m, key, now);
    assert Pushed(vals, []) == Reverse(vals);
    assert Exec(m, push.command, now) == (next, Int(|vals|)) by {
      assert Checked(m, key, now)[key := Obj(ListOf(Reverse(vals)), 0)] == next;
    }
    hide Exec, Reverse;
    PopsDeliver(next, key, vals, times);
    var events := [push] + Pops(key, times);
    assert events[1..] == Pops(key, times);
    assert next - {key} == m - {key};
  }
}
