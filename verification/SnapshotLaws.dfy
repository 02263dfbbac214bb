/** Loading what was saved, and refusing what was damaged. */
module SnapshotLaws {
  import opened Sequences
  import opened Bytes
  import opened SortedSet
  import opened ZSetModel
  import opened Codec
  import opened Snapshot
  import Crc

  // ---------- values ----------

  /** The length fits its 32-bit field, and the reader's 32-bit sum of it and one. */
  ghost predicate Short32(s: Bytes) {
    |s| < TWO_32 - 1
  }

  lemma ReadShortBlob(data: Bytes, t: Bytes)
    requires Short32(data)
    ensures GetBlob(PutBlob(data) + t) == Got(data, t)
  {
    hide GetBlob, PutBlob;
    ReadBlob(data, t);
    assert |data| % TWO_32 == |data| && data[..|data|] == data;
  }

  lemma {:induction false} ReadBlobs(items: seq<Bytes>, t: Bytes)
    requires forall x :: x in items ==> Short32(x)
    ensures GetBlobs(PutBlobs(items) + t, |items|) == Got(items, t)
  {
    hide GetBlob, PutBlob, Short32;
    if items == [] {
      assert PutBlobs(items) + t == t;
    } else {
      var rest := PutBlobs(items[1..]) + t;
      assert PutBlobs(items) + t == PutBlob(items[0]) + rest;
      ReadShortBlob(items[0], rest);
      ReadBlobs(items[1..], t);
      assert [items[0]] + items[1..] == items;
    }
  }

  ghost predicate Short32Fields(fields: Listing) {
    forall x :: x in fields ==> Short32(x.0) && Short32(x.1)
  }

  lemma {:induction false} ReadFields(fields: Listing, table: Fields, t: Bytes)
    requires Short32Fields(fields)
    ensures GetFields(PutFields(fields) + t, |fields|, table) == Got(SetAll(fields, table), t)
    decreases |fields|
  {
    hide GetBlob, PutBlob, Short32;
    if fields == [] {
      assert PutFields(fields) + t == t;
    } else {
      var (field, val) := fields[0];
      assert fields[0] in fields;
      var rest := PutFields(fields[1..]) + t;
      assert PutFields(fields) + t == PutBlob(field) + (PutBlob(val) + rest);
      ReadShortBlob(field, PutBlob(val) + rest);
      ReadShortBlob(val, rest);
      ReadFields(fields[1..], table[field := val], t);
    }
  }

  /** The elements as ZADD would be given them. */
  function Pairs(elems: seq<Elem>): seq<(Score, Bytes)> {
    if elems == [] then [] else [(elems[0].score, elems[0].member)] + Pairs(elems[1..])
  }

  lemma AddFirst(elems: seq<Elem>, z: State)
    requires elems != []
    ensures AddAll(Pairs(elems), z) == AddAll(Pairs(elems[1..]), Add(z, elems[0].member, elems[0].score))
  {
    assert Pairs(elems)[1..] == Pairs(elems[1..]);
  }

  ghost predicate Short32Elems(elems: seq<Elem>) {
    forall x :: x in elems ==> Short32(x.member)
  }

  lemma {:induction false} ReadElems(elems: seq<Elem>, more: nat, z: State, t: Bytes)
    requires Short32Elems(elems)
    ensures GetElems(PutElems(elems) + t, |elems| + more, z) == GetElems(t, more, AddAll(Pairs(elems), z))
    decreases |elems|
  {
    hide GetBlob, PutBlob, Short32, GetScore, PutScore, Add;
    if elems == [] {
      assert PutElems(elems) + t == t;
    } else {
      var e := elems[0];
      assert e in elems;
      var rest := PutElems(elems[1..]) + t;
      assert PutElems(elems) + t == PutScore(e.score) + (PutBlob(e.member) + rest);
      ReadScore(e.score, PutBlob(e.member) + rest);
      ReadShortBlob(e.member, rest);
      AddFirst(elems, z);
      ReadElems(elems[1..], more, Add(z, e.member, e.score), t);
    }
  }

  /** Adding a larger element to a sorted set puts it last. */
  lemma AddLast(elems: seq<Elem>, k: nat)
    requires Ordered(elems) && k < |elems|
    ensures var was, now := elems[..k], elems[..k + 1];
      Add(State(was, Scores(was)), elems[k].member, elems[k].score) == State(now, Scores(now))
  {
    var was, e := elems[..k], elems[k];
    assert Ordered(was);
    ScoresAreLookups(was, e.member);
    LowerBoundSplits(was, e);
    assert LowerBound(was, e) == k;
    assert InsertAt(was, k, e) == elems[..k + 1];
    InsertRefines(was, e);
  }

  /** Adding the elements of an ordered sequence in turn builds both indexes over it. */
  lemma {:induction false} AddAllRebuilds(elems: seq<Elem>, k: nat)
    requires Ordered(elems) && k <= |elems|
    ensures AddAll(Pairs(elems[k..]), State(elems[..k], Scores(elems[..k]))) == State(elems, Scores(elems))
    decreases |elems| - k
  {
    if k < |elems| {
      AddLast(elems, k);
      assert elems[k..][1..] == elems[k + 1..] && elems[k..][0] == elems[k];
      hide Add, Scores, Ordered;
      AddFirst(elems[k..], State(elems[..k], Scores(elems[..k])));
      AddAllRebuilds(elems, k + 1);
    } else {
      assert elems[..k] == elems;
    }
  }

  // ---------- entries ----------

  /** What a saved value comes back as: a hash as the map of its first 4096 listed fields, anything
      else as it was. */
  function Restored(body: Body<Listing>): Body<Fields> {
    match body
    case Text(text) => Text(text)
    case ListOf(items) => ListOf(items)
    case HashOf(fields) => HashOf(SetAll(Collected(fields), map[]))
    case SortedOf(z) => SortedOf(z)
  }

  /** Lengths fit their 32-bit fields, and a sorted set is consistent and not larger than what is written. */
  ghost predicate Fits(body: Body<Listing>) {
    match body
    case Text(text) => Short32(text)
    case ListOf(items) => |items| < TWO_32 && forall x :: x in items ==> Short32(x)
    case HashOf(fields) => Short32Fields(fields)
    case SortedOf(z) => Agree(z) && |z.elems| <= MAX_COLLECTED && Short32Elems(z.elems)
  }

  lemma ReadCount(n: nat, t: Bytes)
    requires n < TWO_32
    ensures GetNat(Put(n, 4) + t, 4) == Got(n, t)
  {
    PowersOf256();
    ReadNat(n, 4, t);
  }

  lemma ReadListBody(items: seq<Bytes>, t: Bytes)
    requires Fits(ListOf(items))
    ensures GetBody(PutBody(ListOf(items)) + t, TYPE_LIST) == Got(ListOf(items), t)
  {
    hide Put, PutBlobs, GetNat, GetBlobs, Short32;
    assert PutBody(ListOf(items)) + t == Put(|items|, 4) + (PutBlobs(items) + t);
    ReadCount(|items|, PutBlobs(items) + t);
    ReadBlobs(items, t);
  }

  lemma ReadHashBody(fields: Listing, t: Bytes)
    requires Fits(HashOf(fields))
    ensures GetBody(PutBody(HashOf(fields)) + t, TYPE_HASH) == Got(HashOf(SetAll(Collected(fields), map[])), t)
  {
    hide Put, PutFields, GetNat, GetFields, Short32, SetAll;
    var cut := Collected(fields);
    assert PutBody(HashOf(fields)) + t == Put(|cut|, 4) + (PutFields(cut) + t);
    ReadCount(|cut|, PutFields(cut) + t);
    ReadFields(cut, map[], t);
  }

  lemma ElemsDone(t: Bytes, z: State)
    ensures GetElems(t, 0, z) == Got(z, t)
  {
  }

  lemma ReadElemsBehind(n: nat, rest: Bytes, z: State, t: Bytes)
    requires n < TWO_32 && GetElems(rest, n, EMPTY) == Got(z, t)
    ensures GetBody(Put(n, 4) + rest, TYPE_ZSET) == Got(SortedOf(z), t)
  {
    hide Put, GetNat, GetElems;
    ReadCount(n, rest);
  }

  lemma SortedBody(z: State)
    requires |z.elems| <= MAX_COLLECTED
    ensures PutBody(SortedOf(z)) == Put(|z.elems|, 4) + PutElems(z.elems)
  {
    hide Put, PutElems, Written;
    WrittenAll(z.elems);
  }

  lemma ReadSortedBody(z: State, t: Bytes)
    requires Fits(SortedOf(z))
    ensures GetBody(PutBody(SortedOf(z)) + t, TYPE_ZSET) == Got(SortedOf(z), t)
  {
    hide Put, PutElems, PutBody, GetBody, GetElems, Short32, Agree, Written, AddAll, Pairs;
    var n, rest := |z.elems|, PutElems(z.elems) + t;
    SortedBody(z);
    Reassociate(Put(n, 4), PutElems(z.elems), t);
    ReadElems(z.elems, 0, EMPTY, t);
    ElemsDone(t, z);
    RebuildsFromEmpty(z);
    ReadElemsBehind(n, rest, z, t);
  }

  lemma ReadBody(body: Body<Listing>, t: Bytes)
    requires Fits(body)
    ensures GetBody(PutBody(body) + t, TypeOf(body)) == Got(Restored(body), t)
  {
    match body
    case Text(text) =>
      hide GetBlob, PutBlob, Short32;
      ReadShortBlob(text, t);
    case ListOf(items) =>
      hide GetBody, PutBody;
      ReadListBody(items, t);
    case HashOf(fields) =>
      hide GetBody, PutBody;
      ReadHashBody(fields, t);
    case SortedOf(z) =>
      hide GetBody, PutBody;
      ReadSortedBody(z, t);
  }

  lemma WrittenAll(elems: seq<Elem>)
    requires |elems| <= MAX_COLLECTED
    ensures Written(elems) == elems
  {
  }

  lemma RebuildsFromEmpty(z: State)
    requires Agree(z)
    ensures AddAll(Pairs(z.elems), EMPTY) == z
  {
    assert Scores([]) == map[];
    assert z.elems[..0] == [] && z.elems[0..] == z.elems;
    AddAllRebuilds(z.elems, 0);
  }

  ghost predicate EntryFits(e: Saved) {
    Short32(e.0) && Fits(e.1.body)
  }

  function RestoredObj(o: Obj<Listing>): Obj<Fields> {
    Obj(Restored(o.body), o.expireAt)
  }

  lemma ReadEntry(e: Saved, t: Bytes)
    requires EntryFits(e)
    ensures GetEntry(PutEntry(e) + t) == Got((e.0, RestoredObj(e.1)), t)
  {
    hide GetBlob, PutBlob, GetInt64, PutInt64, GetBody, PutBody, Restored, Fits;
    var kind, body := TypeOf(e.1.body), PutBody(e.1.body) + t;
    var s := PutEntry(e) + t;
    assert s == [kind] + (PutInt64(e.1.expireAt) + (PutBlob(e.0) + body));
    assert s[1..] == PutInt64(e.1.expireAt) + (PutBlob(e.0) + body);
    ReadInt64(e.1.expireAt, PutBlob(e.0) + body);
    ReadShortBlob(e.0, body);
    ReadBody(e.1.body, t);
  }

  /** The store after a load has gone through the entries from turn `i` on. */
  function Restore(entries: seq<Saved>, i: nat, clock: nat -> int, store: Store): Store
    decreases |entries|
  {
    if entries == [] then store
    else
      var e := entries[0];
      Restore(entries[1..], i + 1, clock,
              if Dropped(e.1.expireAt, clock(i)) then store else store[e.0 := RestoredObj(e.1)])
  }

  lemma {:induction false} ReadEntries(entries: seq<Saved>, i: nat, n: nat, clock: nat -> int, store: Store, t: Bytes)
    requires i + |entries| <= n && forall e :: e in entries ==> EntryFits(e)
    ensures LoadEntries(PutEntries(entries) + t, i, n, clock, store)
         == LoadEntries(t, i + |entries|, n, clock, Restore(entries, i, clock, store))
    decreases |entries|
  {
    hide GetEntry, PutEntry, EntryFits, Restored;
    if entries == [] {
      assert PutEntries(entries) + t == t;
    } else {
      var e, rest := entries[0], PutEntries(entries[1..]) + t;
      assert PutEntries(entries) + t == PutEntry(e) + rest;
      ReadEntry(e, rest);
      ReadEntries(entries[1..], i + 1, n, clock,
                  if Dropped(e.1.expireAt, clock(i)) then store else store[e.0 := RestoredObj(e.1)], t);
    }
  }

  // ---------- the whole file ----------

  lemma PutCrcParts(c: bv64, k: nat)
    requires k <= 8 && Crc.Below(k, c) && k > 0
    ensures Crc.Below(k - 1, c >> 8) && Crc.Xor(c & 0xff, Crc.ShiftUp(c >> 8)) == c
  {
  }

  lemma PackPutFirst(c: bv64, k: nat)
    requires 0 < k
    ensures Crc.Pack(PutCrc(c, k)) == Crc.Xor(Crc.Bits(Crc.LowByte(c)), Crc.ShiftUp(Crc.Pack(PutCrc(c >> 8, k - 1))))
  {
    hide Crc.Xor, Crc.Bits, Crc.ShiftUp, Crc.LowByte;
    assert PutCrc(c, k)[1..] == PutCrc(c >> 8, k - 1);
  }

  lemma {:induction false} PackPutCrc(c: bv64, k: nat)
    requires k <= 8 && Crc.Below(k, c)
    ensures Crc.Pack(PutCrc(c, k)) == c
    decreases k
  {
    if k > 0 {
      PutCrcParts(c, k);
      Crc.LowByteBits(c);
      PackPutFirst(c, k);
      hide Crc.Below, Crc.LowByte, Crc.Bits, Crc.Xor, Crc.ShiftUp, Crc.Pack, PutCrc;
      PackPutCrc(c >> 8, k - 1);
    }
  }

  /** The fixed front of a file that starts with what a save writes. */
  lemma ReadHeader(n: nat, t: Bytes)
    requires n < TWO_64
    ensures var file := MAGIC + Put(VERSION, 4) + Put(n, 8) + t;
      HasHeader(file) && KeyCount(file) == n && file[16..] == t
  {
    var file := MAGIC + Put(VERSION, 4) + Put(n, 8) + t;
    PowersOf256();
    ValuePut(VERSION, 4);
    ValuePut(n, 8);
    assert file[4..8] == Put(VERSION, 4) && file[8..16] == Put(n, 8);
  }

  /** A checksum field, read back. */
  lemma ReadChecksum(covered: Bytes, crc: bv64)
    ensures ChecksumMatches(covered + PutCrc(crc, 8), PutCrc(crc, 8)) <==> crc == Crc.Update(0, covered)
  {
    hide Crc.Update, Crc.Pack, Crc.Below;
    var file, rest := covered + PutCrc(crc, 8), PutCrc(crc, 8);
    assert file[..|file| - 8] == covered && rest[..8] == rest;
    BelowEight(crc);
    PackPutCrc(crc, 8);
  }

  lemma Regroup(a: Bytes, b: Bytes, c: Bytes, d: Bytes, t: Bytes)
    ensures a + b + c + d + t == a + b + c + (d + t)
  {
  }

  lemma CountFits(n: nat)
    requires n < TWO_64
    ensures n % TWO_64 == n
  {
  }

  lemma CoveredShape(entries: seq<Saved>, t: Bytes)
    requires |entries| < TWO_64
    ensures Covered(entries) + t == MAGIC + Put(VERSION, 4) + Put(|entries|, 8) + (PutEntries(entries) + t)
  {
    CountFits(|entries|);
    hide Put, PutEntries;
    var magic, version, count, body := MAGIC, Put(VERSION, 4), Put(|entries|, 8), PutEntries(entries);
    assert Covered(entries) == magic + version + count + body;
    Regroup(magic, version, count, body, t);
  }

  /** The loaded keys of a saved file, and the checksum behind them. */
  lemma LoadSaved(entries: seq<Saved>, clock: nat -> int, crc: bv64, file: Bytes)
    requires |entries| < TWO_64 && forall e :: e in entries ==> EntryFits(e)
    requires file == Covered(entries) + PutCrc(crc, 8)
    ensures var l := Load(file, clock, map[]);
      l.store == Restore(entries, 0, clock, map[]) && l.ok == (crc == Crc.Update(0, Covered(entries)))
  {
    hide Put, PutCrc, PutEntries, Restore, EntryFits, HasHeader, KeyCount, ChecksumMatches, Covered, Crc.Update;
    CoveredShape(entries, PutCrc(crc, 8));
    ReadHeader(|entries|, PutEntries(entries) + PutCrc(crc, 8));
    ReadEntries(entries, 0, |entries|, clock, map[], PutCrc(crc, 8));
    ReadChecksum(Covered(entries), crc);
  }

  lemma BelowEight(c: bv64)
    ensures Crc.Below(8, c)
  {
  }

  /** Loading a saved file into an empty table succeeds and restores every entry that has not expired. */
  lemma SaveThenLoad(entries: seq<Saved>, clock: nat -> int)
    requires |entries| < TWO_64 && forall e :: e in entries ==> EntryFits(e)
    ensures var l := Load(Save(entries), clock, map[]);
      l.ok && l.store == Restore(entries, 0, clock, map[])
  {
    hide Load, Covered, PutCrc, Restore, Crc.Update, EntryFits;
    LoadSaved(entries, clock, Crc.Update(0, Covered(entries)), Save(entries));
  }

  lemma RestoredKey(entries: seq<Saved>, clock: nat -> int, j: nat)
    requires Distinct(entries) && j < |entries|
    ensures var e, r := entries[j], Restore(entries, 0, clock, map[]);
      && (e.0 in r <==> e.1.expireAt == 0 || clock(j) <= e.1.expireAt)
      && (e.0 in r ==> r[e.0] == RestoredObj(e.1))
  {
    var e := entries[j];
    assert Dropped(e.1.expireAt, clock(j)) <==> !(e.1.expireAt == 0 || clock(j) <= e.1.expireAt);
    hide Restore, RestoredObj, Dropped;
    assert e == (e.0, e.1) && 0 + j == j;
    RestoreHit(entries, 0, clock, map[], j);
  }

  /** With a clock that moves while the keys are read, a key is in the loaded store exactly when it has no
      expiry or the reading at its turn is not past it. */
  lemma SavedKeySurvives(entries: seq<Saved>, clock: nat -> int, j: nat)
    requires |entries| < TWO_64 && Distinct(entries) && forall e :: e in entries ==> EntryFits(e)
    requires j < |entries|
    ensures var e, l := entries[j], Load(Save(entries), clock, map[]);
      && l.ok && (e.0 in l.store <==> e.1.expireAt == 0 || clock(j) <= e.1.expireAt)
      && (e.0 in l.store ==> l.store[e.0] == RestoredObj(e.1))
  {
    hide Load, Save, Restore, RestoredObj, EntryFits, Distinct;
    SaveThenLoad(entries, clock);
    RestoredKey(entries, clock, j);
  }

  /** And no other key is. */
  lemma NothingElseLoaded(entries: seq<Saved>, clock: nat -> int, key: Bytes)
    requires |entries| < TWO_64 && forall e :: e in entries ==> EntryFits(e)
    requires key !in KeysOf(entries)
    ensures key !in Load(Save(entries), clock, map[]).store
  {
    SaveThenLoad(entries, clock);
    hide Load, Save, Restore, EntryFits;
    RestoreMiss(entries, 0, clock, map[], key);
  }

  // ---------- what the restored store holds ----------

  ghost predicate SameAt(a: Store, b: Store, key: Bytes) {
    (key in a <==> key in b) && (key in a ==> a[key] == b[key])
  }

  lemma SameEverywhere(a: Store, b: Store)
    requires forall key :: SameAt(a, b, key)
    ensures a == b
  {
    forall key
      ensures key in a <==> key in b
      ensures key in a ==> a[key] == b[key]
    {
      assert SameAt(a, b, key);
    }
  }

  lemma {:induction false} RestoreMiss(entries: seq<Saved>, i: nat, clock: nat -> int, store: Store, key: Bytes)
    requires key !in KeysOf(entries)
    ensures SameAt(Restore(entries, i, clock, store), store, key)
    decreases |entries|
  {
    if entries != [] {
      KeysOfFirst(entries);
      var e := entries[0];
      hide KeysOf, RestoredObj;
      RestoreMiss(entries[1..], i + 1, clock,
                  if Dropped(e.1.expireAt, clock(i)) then store else store[e.0 := RestoredObj(e.1)], key);
    }
  }

  lemma {:induction false} RestoreHit(entries: seq<Saved>, i: nat, clock: nat -> int, store: Store, j: nat)
    requires Distinct(entries) && j < |entries| && entries[j].0 !in store
    ensures var (key, o), r := entries[j], Restore(entries, i, clock, store);
      if Dropped(o.expireAt, clock(i + j)) then key !in r else key in r && r[key] == RestoredObj(o)
    decreases |entries|
  {
    var e := entries[0];
    var next := if Dropped(e.1.expireAt, clock(i)) then store else store[e.0 := RestoredObj(e.1)];
    if j == 0 {
      FirstKeyOnce(entries);
      hide RestoredObj, KeysOf;
      RestoreMiss(entries[1..], i + 1, clock, next, e.0);
    } else {
      hide RestoredObj;
      RestoreHit(entries[1..], i + 1, clock, next, j - 1);
    }
  }

  /** The saved map, minus the keys that had expired strictly before the load. */
  ghost function Survivors(m: map<Bytes, Obj<Listing>>, now: int): Store {
    map key | key in m && !Dropped(m[key].expireAt, now) :: RestoredObj(m[key])
  }

  /** The snapshot round trip: a listing of a keyspace, saved and loaded at one instant, gives the keyspace
      back without the keys that have expired. */
  lemma SnapshotRoundTrip(entries: seq<Saved>, m: map<Bytes, Obj<Listing>>, now: int)
    requires |entries| < TWO_64 && Enumerates(entries, m) && forall e :: e in entries ==> EntryFits(e)
    ensures var l := Load(Save(entries), (i: nat) => now, map[]);
      l.ok && l.store == Survivors(m, now)
  {
    var clock: nat -> int := (i: nat) => now;
    SaveThenLoad(entries, clock);
    hide Load, Save, EntryFits, RestoredObj, Dropped;
    RestoreListing(entries, m, now, clock);
  }

  lemma RestoreListing(entries: seq<Saved>, m: map<Bytes, Obj<Listing>>, now: int, clock: nat -> int)
    requires Enumerates(entries, m) && forall i :: clock(i) == now
    ensures Restore(entries, 0, clock, map[]) == Survivors(m, now)
  {
    hide RestoredObj, Dropped;
    var r := Restore(entries, 0, clock, map[]);
    ListingKeys(entries, m);
    forall key
      ensures SameAt(r, Survivors(m, now), key)
    {
      if key in KeysOf(entries) {
        var j :| 0 <= j < |entries| && entries[j].0 == key;
        RestoreHit(entries, 0, clock, map[], j);
      } else {
        RestoreMiss(entries, 0, clock, map[], key);
      }
    }
    SameEverywhere(r, Survivors(m, now));
  }

  /** A hash comes back whole exactly when it has at most 4096 fields. */
  lemma HashRestoredWhole(fields: Listing, m: Fields)
    requires Enumerates(fields, m)
    ensures Restored(HashOf(fields)) == HashOf(m) <==> |m| <= 4096
  {
    if |fields| <= MAX_COLLECTED {
      SetAllListing(fields, m);
    } else {
      var cut := Collected(fields);
      assert Distinct(cut);
      SetAllKeys(cut, map[]);
      KeysOfCount(cut);
      var t := SetAll(cut, map[]);
      assert t.Keys == KeysOf(cut);
      assert |t| == |t.Keys| && |m| == |m.Keys|;
    }
  }

  // ---------- the keyspace that commands work on ----------

  /** A saved value is the value, a hash given by a listing of its table. */
  ghost predicate ListsValue(o: Obj<Listing>, v: Obj<Fields>) {
    && o.expireAt == v.expireAt
    && match o.body
       case Text(text) => v.body == Text(text)
       case ListOf(items) => v.body == ListOf(items)
       case HashOf(fields) => v.body.HashOf? && Enumerates(fields, v.body.fields)
       case SortedOf(z) => v.body == SortedOf(z)
  }

  /** The entries list the whole keyspace, each key once. */
  ghost predicate ListsStore(entries: seq<Saved>, m: Store) {
    && |entries| == |m| && Distinct(entries)
    && forall i :: 0 <= i < |entries| ==> entries[i].0 in m && ListsValue(entries[i].1, m[entries[i].0])
  }

  /** The keyspace without the keys that had expired strictly before the load. */
  function Kept(m: Store, now: int): Store {
    map key | key in m && !Dropped(m[key].expireAt, now) :: m[key]
  }

  predicate HashFits(v: Obj<Fields>) {
    v.body.HashOf? ==> |v.body.fields| <= 4096
  }

  ghost predicate HashesFit(m: Store) {
    forall key :: key in m ==> HashFits(m[key])
  }

  lemma RestoredExact(o: Obj<Listing>, v: Obj<Fields>)
    requires ListsValue(o, v)
    ensures RestoredObj(o) == v <==> HashFits(v)
  {
    match o.body
    case HashOf(fields) => HashRestoredWhole(fields, v.body.fields);
    case _ =>
  }

  /** The entries as a map: the same keys as the keyspace, each with its listed value. */
  lemma EntriesAsMap(entries: seq<Saved>, m: Store) returns (s: map<Bytes, Obj<Listing>>)
    requires ListsStore(entries, m)
    ensures Enumerates(entries, s) && s.Keys == m.Keys
    ensures forall key :: key in m ==> ListsValue(s[key], m[key])
  {
    s := SetAll(entries, map[]);
    hide ListsValue, SetAll;
    SetAllKeys(entries, map[]);
    KeysOfCount(entries);
    assert s.Keys == KeysOf(entries) && |s| == |s.Keys|;
    assert s.Keys <= m.Keys;
    assert |m.Keys - s.Keys| == |m.Keys| - |s.Keys| == 0;
    forall key | key in m
      ensures ListsValue(s[key], m[key])
    {
      assert key in KeysOf(entries);
      var i :| 0 <= i < |entries| && entries[i].0 == key;
    }
  }

  /** Loading what was saved of a keyspace always succeeds, and gives back exactly the keyspace without
      what has expired, if and only if no surviving hash has more than 4096 fields. */
  lemma StoreRoundTrip(entries: seq<Saved>, m: Store, now: int)
    requires |m| < TWO_64 && ListsStore(entries, m) && forall e :: e in entries ==> EntryFits(e)
    ensures var l := Load(Save(entries), (i: nat) => now, map[]);
      && l.ok && (l.store == Kept(m, now) <==> HashesFit(Kept(m, now)))
      && forall key :: key in l.store <==> key in m && (m[key].expireAt == 0 || now <= m[key].expireAt)
  {
    KeptKeys(m, now);
    hide Load, Save, EntryFits, ListsValue, Dropped, RestoredObj, HashFits, Kept, Survivors;
    var s := EntriesAsMap(entries, m);
    SnapshotRoundTrip(entries, s, now);
    SurvivorsKept(s, m, now);
  }

  /** The keys kept, and with their values, are those without an expiry and those that expire now or later. */
  lemma KeptKeys(m: Store, now: int)
    ensures forall key :: key in Kept(m, now) <==> key in m && (m[key].expireAt == 0 || now <= m[key].expireAt)
    ensures forall key :: key in Kept(m, now) ==> Kept(m, now)[key] == m[key]
  {
  }

  lemma SurvivorsKept(s: map<Bytes, Obj<Listing>>, m: Store, now: int)
    requires s.Keys == m.Keys && forall key :: key in m ==> ListsValue(s[key], m[key])
    ensures Survivors(s, now).Keys == Kept(m, now).Keys
    ensures Survivors(s, now) == Kept(m, now) <==> HashesFit(Kept(m, now))
  {
    var r, k := Survivors(s, now), Kept(m, now);
    assert forall key :: key in m ==> s[key].expireAt == m[key].expireAt;
    hide Dropped, RestoredObj, HashFits, ListsValue;
    assert r.Keys == k.Keys;
    forall key | key in k
      ensures r[key] == k[key] <==> HashFits(k[key])
    {
      RestoredExact(s[key], m[key]);
    }
  }

  // ---------- what a load refuses ----------

  ghost predicate Suffix(s: Bytes, rest: Bytes) {
    |rest| <= |s| && rest == s[|s| - |rest|..]
  }

  lemma SuffixTransitive(a: Bytes, b: Bytes, c: Bytes)
    requires Suffix(a, b) && Suffix(b, c)
    ensures Suffix(a, c)
  {
  }

  lemma BlobSuffix(s: Bytes)
    ensures GetBlob(s).Got? ==> Suffix(s, GetBlob(s).rest)
  {
  }

  lemma FieldSuffix(s: Bytes)
    ensures GetScore(s).Got? ==> Suffix(s, GetScore(s).rest)
    ensures GetInt64(s).Got? ==> Suffix(s, GetInt64(s).rest)
    ensures GetNat(s, 4).Got? ==> Suffix(s, GetNat(s, 4).rest)
    ensures Suffix(s, s)
  {
  }

  lemma {:induction false} BlobsSuffix(s: Bytes, n: nat)
    ensures GetBlobs(s, n).Got? ==> Suffix(s, GetBlobs(s, n).rest)
    decreases n
  {
    FieldSuffix(s);
    hide Suffix, GetBlob;
    if n > 0 && GetBlobs(s, n).Got? {
      BlobSuffix(s);
      BlobsSuffix(GetBlob(s).rest, n - 1);
      SuffixTransitive(s, GetBlob(s).rest, GetBlobs(s, n).rest);
    }
  }

  lemma {:induction false} FieldsSuffix(s: Bytes, n: nat, table: Fields)
    ensures GetFields(s, n, table).Got? ==> Suffix(s, GetFields(s, n, table).rest)
    decreases n
  {
    FieldSuffix(s);
    hide Suffix, GetBlob;
    if n > 0 && GetFields(s, n, table).Got? {
      var field, val := GetBlob(s), GetBlob(GetBlob(s).rest);
      BlobSuffix(s);
      BlobSuffix(field.rest);
      SuffixTransitive(s, field.rest, val.rest);
      FieldsSuffix(val.rest, n - 1, table[field.value := val.value]);
      SuffixTransitive(s, val.rest, GetFields(s, n, table).rest);
    }
  }

  lemma {:induction false} ElemsSuffix(s: Bytes, n: nat, z: State)
    ensures GetElems(s, n, z).Got? ==> Suffix(s, GetElems(s, n, z).rest)
    decreases n
  {
    FieldSuffix(s);
    hide Suffix, GetBlob, GetScore, Add;
    if n > 0 && GetElems(s, n, z).Got? {
      var score, member := GetScore(s), GetBlob(GetScore(s).rest);
      FieldSuffix(s);
      BlobSuffix(score.rest);
      SuffixTransitive(s, score.rest, member.rest);
      ElemsSuffix(member.rest, n - 1, Add(z, member.value, score.value));
      SuffixTransitive(s, member.rest, GetElems(s, n, z).rest);
    }
  }

  lemma BodySuffix(s: Bytes, kind: byte)
    ensures GetBody(s, kind).Got? ==> Suffix(s, GetBody(s, kind).rest)
  {
    hide Suffix, GetBlob, GetBlobs, GetFields, GetElems, GetNat;
    BlobSuffix(s);
    FieldSuffix(s);
    if kind != TYPE_STRING && GetNat(s, 4).Got? {
      var n, rest := GetNat(s, 4).value, GetNat(s, 4).rest;
      BlobsSuffix(rest, n);
      FieldsSuffix(rest, n, map[]);
      ElemsSuffix(rest, n, EMPTY);
      if GetBody(s, kind).Got? {
        SuffixTransitive(s, rest, GetBody(s, kind).rest);
      }
    }
  }

  lemma EntrySuffix(s: Bytes)
    ensures GetEntry(s).Got? ==> Suffix(s, GetEntry(s).rest)
  {
    hide GetInt64, GetBlob, GetBody;
    if GetEntry(s).Got? {
      var expireAt := GetInt64(s[1..]);
      var key := GetBlob(expireAt.rest);
      assert Suffix(s, s[1..]);
      FieldSuffix(s[1..]);
      BlobSuffix(expireAt.rest);
      BodySuffix(key.rest, s[0]);
      SuffixTransitive(s, s[1..], expireAt.rest);
      SuffixTransitive(s, expireAt.rest, key.rest);
      SuffixTransitive(s, key.rest, GetEntry(s).rest);
    }
  }

  lemma {:induction false} RestIsSuffix(s: Bytes, i: nat, n: nat, clock: nat -> int, store: Store)
    requires i <= n
    ensures Suffix(s, LoadEntries(s, i, n, clock, store).rest)
    decreases n - i
  {
    if i < n && GetEntry(s).Got? {
      var (e, rest) := (GetEntry(s).value, GetEntry(s).rest);
      EntrySuffix(s);
      var next := if Dropped(e.1.expireAt, clock(i)) then store else store[e.0 := e.1];
      hide GetEntry, Dropped;
      RestIsSuffix(rest, i + 1, n, clock, next);
      SuffixTransitive(s, rest, LoadEntries(rest, i + 1, n, clock, next).rest);
    }
  }

  lemma SuffixBytes(file: Bytes, rest: Bytes)
    requires |file| >= 16 && Suffix(file[16..], rest) && |rest| >= 8
    ensures var n := |file| - |rest|; 16 <= n <= |file| - 8 && rest[..8] == file[n..n + 8]
  {
    var n := |file| - |rest|;
    assert file[16..][n - 16..] == file[n..];
  }

  /** A load that says yes has seen the checksum of everything it read. */
  lemma AcceptedIsChecked(file: Bytes, clock: nat -> int, store: Store)
    requires Load(file, clock, store).ok
    ensures var n := |file| - |Load(file, clock, store).rest|;
      16 <= n <= |file| - 8 && Crc.Pack(file[n..n + 8]) == Crc.Update(0, file[..n])
  {
    hide LoadEntries, Crc.Pack, Crc.Update, KeyCount, Suffix;
    var l := LoadEntries(file[16..], 0, KeyCount(file), clock, store);
    RestIsSuffix(file[16..], 0, KeyCount(file), clock, store);
    SuffixBytes(file, l.rest);
  }

  /** Behind the saved keys, the checksum of a save is accepted and no other eight bytes are. */
  lemma ChecksumExact(entries: seq<Saved>, clock: nat -> int, stored: Bytes)
    requires |entries| < TWO_64 && |stored| == 8 && forall e :: e in entries ==> EntryFits(e)
    ensures Load(Covered(entries) + stored, clock, map[]).ok <==> Covered(entries) + stored == Save(entries)
  {
    hide Load, Covered, PutCrc, Restore, Crc.Update, Crc.Pack, EntryFits;
    var crc, sum := Crc.Pack(stored), Crc.Update(0, Covered(entries));
    BelowEight(crc);
    PackPutCrc(crc, 8);
    Crc.PackInjective(PutCrc(crc, 8), stored);
    BelowEight(sum);
    PackPutCrc(sum, 8);
    LoadSaved(entries, clock, crc, Covered(entries) + stored);
    if Covered(entries) + stored == Save(entries) {
      var n := |Covered(entries)|;
      assert (Covered(entries) + stored)[n..] == stored && Save(entries)[n..] == PutCrc(sum, 8);
    }
  }

  /** Damage within eight neighbouring bytes that turns the saved keys into other well-formed ones, be it
      in a key, a value, a score or an expiry time, is always refused. */
  lemma ForgedKeysRefused(entries: seq<Saved>, forged: seq<Saved>, pre: Bytes, w: Bytes, w': Bytes, post: Bytes,
    clock: nat -> int)
    requires |forged| < TWO_64 && forall e :: e in forged ==> EntryFits(e)
    requires |w| == |w'| <= 8 && w != w'
    requires Covered(entries) == pre + w + post && Covered(forged) == pre + w' + post
    ensures !Load(Covered(forged) + PutCrc(Crc.Update(0, Covered(entries)), 8), clock, map[]).ok
  {
    hide Load, Covered, PutCrc, Restore, Crc.Update, EntryFits;
    var crc := Crc.Update(0, Covered(entries));
    LoadSaved(forged, clock, crc, Covered(forged) + PutCrc(crc, 8));
    Crc.BurstDetected(0, pre, w, w', post);
  }

  lemma {:induction false} PutEntriesAppend(entries: seq<Saved>, e: Saved)
    ensures PutEntries(entries + [e]) == PutEntries(entries) + PutEntry(e)
  {
    hide PutEntry;
    if entries == [] {
      assert entries + [e] == [e] && [e][1..] == [];
      assert PutEntry(e) + [] == [] + PutEntry(e);
    } else {
      assert (entries + [e])[1..] == entries[1..] + [e];
      PutEntriesAppend(entries[1..], e);
    }
  }

  /** Eight bytes are a score without a member. */
  lemma ElemsShort(t: Bytes, more: nat, z: State)
    requires |t| == 8 && more > 0
    ensures GetElems(t, more, z) == Short
  {
    assert GetScore(t).rest == [];
  }

  lemma BigSortedBody(z: State)
    requires MAX_COLLECTED < |z.elems| < TWO_32
    ensures PutBody(SortedOf(z)) == Put(|z.elems|, 4) + PutElems(z.elems[..MAX_COLLECTED])
  {
    hide Put, PutElems;
    assert Written(z.elems) == z.elems[..MAX_COLLECTED];
  }

  lemma ShortBehind(n: nat, rest: Bytes)
    requires n < TWO_32 && GetElems(rest, n, EMPTY) == Short
    ensures GetBody(Put(n, 4) + rest, TYPE_ZSET) == Short
  {
    hide Put, GetNat, GetElems;
    ReadCount(n, rest);
  }

  lemma BigBodyShort(z: State, t: Bytes)
    requires |t| == 8 && MAX_COLLECTED < |z.elems| < TWO_32 && Short32Elems(z.elems)
    ensures GetBody(PutBody(SortedOf(z)) + t, TYPE_ZSET) == Short
  {
    hide Put, PutElems, PutBody, GetBody, GetElems, Short32, AddAll, Pairs;
    var n, w := |z.elems|, z.elems[..MAX_COLLECTED];
    BigSortedBody(z);
    Reassociate(Put(n, 4), PutElems(w), t);
    ReadElems(w, n - |w|, EMPTY, t);
    ElemsShort(t, n - |w|, AddAll(Pairs(w), EMPTY));
    ShortBehind(n, PutElems(w) + t);
  }

  lemma BigEntryShort(e: Saved, t: Bytes)
    requires |t| == 8 && Short32(e.0) && e.1.body.SortedOf? && Short32Elems(e.1.body.zset.elems)
    requires MAX_COLLECTED < |e.1.body.zset.elems| < TWO_32
    ensures GetEntry(PutEntry(e) + t) == Short
  {
    hide GetBlob, PutBlob, GetInt64, PutInt64, GetBody, PutBody;
    var body := PutBody(e.1.body) + t;
    var s := PutEntry(e) + t;
    assert s == [TYPE_ZSET] + (PutInt64(e.1.expireAt) + (PutBlob(e.0) + body));
    assert s[1..] == PutInt64(e.1.expireAt) + (PutBlob(e.0) + body);
    ReadInt64(e.1.expireAt, PutBlob(e.0) + body);
    ReadShortBlob(e.0, body);
    BigBodyShort(e.1.body.zset, t);
  }

  /** A sorted set of more than 4096 elements is counted in full but written in part: when it is the
      last key of a snapshot the load runs out of bytes and fails. */
  lemma BigSortedSetLost(entries: seq<Saved>, e: Saved, clock: nat -> int)
    requires |entries| + 1 < TWO_64 && forall x :: x in entries ==> EntryFits(x)
    requires Short32(e.0) && e.1.body.SortedOf? && Short32Elems(e.1.body.zset.elems)
    requires MAX_COLLECTED < |e.1.body.zset.elems| < TWO_32
    ensures !Load(Save(entries + [e]), clock, map[]).ok
  {
    hide Put, Covered, PutCrc, PutEntries, PutEntry, EntryFits, GetEntry, HasHeader, KeyCount, Restore;
    var all := entries + [e];
    var crc := PutCrc(Crc.Update(0, Covered(all)), 8);
    var tail := PutEntry(e) + crc;
    CoveredShape(all, crc);
    PutEntriesAppend(entries, e);
    assert PutEntries(all) + crc == PutEntries(entries) + tail;
    ReadHeader(|all|, PutEntries(all) + crc);
    ReadEntries(entries, 0, |all|, clock, map[], tail);
    BigEntryShort(e, crc);
  }

  ghost predicate SortedEntry(e: Saved) {
    && Short32(e.0) && e.1.body.SortedOf? && Agree(e.1.body.zset)
    && Short32Elems(e.1.body.zset.elems) && |e.1.body.zset.elems| < TWO_32
  }

  /** An entry that holds a sorted set reads back, whatever follows it, exactly when the set has at most
      4096 elements. */
  lemma SortedEntryExact(e: Saved)
    requires SortedEntry(e)
    ensures (forall t :: GetEntry(PutEntry(e) + t) == Got((e.0, RestoredObj(e.1)), t))
       <==> |e.1.body.zset.elems| <= 4096
  {
    hide GetEntry, PutEntry, RestoredObj, Agree, Short32, Short32Elems;
    if |e.1.body.zset.elems| <= MAX_COLLECTED {
      forall t
        ensures GetEntry(PutEntry(e) + t) == Got((e.0, RestoredObj(e.1)), t)
      {
        ReadEntry(e, t);
      }
    } else {
      BigEntryShort(e, PutCrc(0, 8));
    }
  }

  /** A snapshot whose last key holds a sorted set loads exactly when the set has at most 4096 elements. */
  lemma SortedSetSavedExact(entries: seq<Saved>, e: Saved, clock: nat -> int)
    requires |entries| + 1 < TWO_64 && forall x :: x in entries ==> EntryFits(x)
    requires SortedEntry(e)
    ensures Load(Save(entries + [e]), clock, map[]).ok <==> |e.1.body.zset.elems| <= 4096
  {
    hide Load, Save, Restore, Agree, Short32, Short32Elems;
    if |e.1.body.zset.elems| <= MAX_COLLECTED {
      SaveThenLoad(entries + [e], clock);
    } else {
      BigSortedSetLost(entries, e, clock);
    }
  }
}
