/** src/rdb.cpp: the bytes of a snapshot, and what loading makes of any bytes. */
module Snapshot {
  import opened Sequences
  import opened Bytes
  import opened SortedSet
  import opened ZSetModel
  import opened Codec
  import Crc

  const TYPE_STRING: byte := 0
  const TYPE_LIST: byte := 1
  const TYPE_HASH: byte := 2
  const TYPE_ZSET: byte := 3
  const MAGIC: Bytes := [77, 82, 68, 66]
  const VERSION: nat := 1
  const MAX_COLLECTED: nat := 4096

  /** The value of a key. `H` is how a hash is given: to a save as the listing of its table, by a
      load as the finite map. */
  datatype Body<+H> = Text(text: Bytes) | ListOf(items: seq<Bytes>) | HashOf(fields: H) | SortedOf(zset: State)

  datatype Obj<+H> = Obj(body: Body<H>, expireAt: int64)

  type Listing = seq<(Bytes, Bytes)>
  type Fields = map<Bytes, Bytes>
  type Saved = (Bytes, Obj<Listing>)

  // ---------- writing ----------

  function PutBlobs(items: seq<Bytes>): Bytes {
    if items == [] then [] else PutBlob(items[0]) + PutBlobs(items[1..])
  }

  function PutFields(fields: Listing): Bytes {
    if fields == [] then [] else PutBlob(fields[0].0) + PutBlob(fields[0].1) + PutFields(fields[1..])
  }

  function PutElems(elems: seq<Elem>): Bytes {
    if elems == [] then [] else PutScore(elems[0].score) + PutBlob(elems[0].member) + PutElems(elems[1..])
  }

  /** What the collecting callback keeps of a hash: at most 4096 fields. */
  function Collected(fields: Listing): Listing {
    if |fields| <= MAX_COLLECTED then fields else fields[..MAX_COLLECTED]
  }

  function TypeOf<H>(body: Body<H>): byte {
    match body
    case Text(_) => TYPE_STRING
    case ListOf(_) => TYPE_LIST
    case HashOf(_) => TYPE_HASH
    case SortedOf(_) => TYPE_ZSET
  }

  /** The elements of a sorted set that are written: at most 4096, though all are counted. */
  function Written(elems: seq<Elem>): seq<Elem> {
    Slice(elems, 0, |elems| % TWO_32 - 1, MAX_COLLECTED)
  }

  function PutBody(body: Body<Listing>): Bytes {
    match body
    case Text(text) => PutBlob(text)
    case ListOf(items) => Put(|items| % TWO_32, 4) + PutBlobs(items)
    case HashOf(fields) => Put(|Collected(fields)|, 4) + PutFields(Collected(fields))
    case SortedOf(z) => Put(|z.elems| % TWO_32, 4) + PutElems(Written(z.elems))
  }

  /** `write_entry`. */
  function PutEntry(e: Saved): Bytes {
    [TypeOf(e.1.body)] + PutInt64(e.1.expireAt) + PutBlob(e.0) + PutBody(e.1.body)
  }

  function PutEntries(entries: seq<Saved>): Bytes {
    if entries == [] then [] else PutEntry(entries[0]) + PutEntries(entries[1..])
  }

  /** Everything the checksum covers. */
  function Covered(entries: seq<Saved>): Bytes {
    MAGIC + Put(VERSION, 4) + Put(|entries| % TWO_64, 8) + PutEntries(entries)
  }

  function PutCrc(c: bv64, k: nat): (s: Bytes)
    ensures |s| == k
  {
    if k == 0 then [] else [Crc.LowByte(c)] + PutCrc(c >> 8, k - 1)
  }

  /** The file that `rdb_save` writes. */
  function Save(entries: seq<Saved>): Bytes {
    Covered(entries) + PutCrc(Crc.Update(0, Covered(entries)), 8)
  }

  // ---------- reading ----------

  function GetBlobs(s: Bytes, n: nat): (r: Read<seq<Bytes>>)
    ensures r.Got? ==> |r.rest| <= |s|
    decreases n
  {
    if n == 0 then Got([], s)
    else
      match GetBlob(s)
      case Short => Short
      case Got(item, rest) =>
        match GetBlobs(rest, n - 1)
        case Short => Short
        case Got(more, rest') => Got([item] + more, rest')
  }

  /** Each field is put into the table with `htable_set` as it is read. */
  function GetFields(s: Bytes, n: nat, table: Fields): (r: Read<Fields>)
    ensures r.Got? ==> |r.rest| <= |s|
    decreases n
  {
    if n == 0 then Got(table, s)
    else
      match GetBlob(s)
      case Short => Short
      case Got(field, rest) =>
        match GetBlob(rest)
        case Short => Short
        case Got(val, rest') => GetFields(rest', n - 1, table[field := val])
  }

  /** Each element is added with `zset_add` as it is read. */
  function GetElems(s: Bytes, n: nat, z: State): (r: Read<State>)
    ensures r.Got? ==> |r.rest| <= |s|
    decreases n
  {
    if n == 0 then Got(z, s)
    else
      match GetScore(s)
      case Short => Short
      case Got(score, rest) =>
        match GetBlob(rest)
        case Short => Short
        case Got(member, rest') => GetElems(rest', n - 1, Add(z, member, score))
  }

  function Map<A, B>(r: Read<A>, f: A -> B): Read<B> {
    match r
    case Short => Short
    case Got(a, rest) => Got(f(a), rest)
  }

  function GetBody(s: Bytes, kind: byte): Read<Body<Fields>> {
    if kind == TYPE_STRING then Map(GetBlob(s), (text: Bytes) => Text(text))
    else
      match GetNat(s, 4)
      case Short => Short
      case Got(n, rest) =>
        if kind == TYPE_LIST then Map(GetBlobs(rest, n), (items: seq<Bytes>) => ListOf(items))
        else if kind == TYPE_HASH then Map(GetFields(rest, n, map[]), (fields: Fields) => HashOf(fields))
        else if kind == TYPE_ZSET then Map(GetElems(rest, n, EMPTY), (z: State) => SortedOf(z))
        else Short
  }

  /** One key with its value; an unknown type fails like a short read. */
  function GetEntry(s: Bytes): (r: Read<(Bytes, Obj<Fields>)>)
    ensures r.Got? ==> |r.rest| <= |s|
  {
    if s == [] then Short
    else
      match GetInt64(s[1..])
      case Short => Short
      case Got(expireAt, rest) =>
        match GetBlob(rest)
        case Short => Short
        case Got(key, rest') =>
          Map(GetBody(rest', s[0]), (body: Body<Fields>) => (key, Obj(body, expireAt)))
  }

  type Store = map<Bytes, Obj<Fields>>

  /** Loading drops what has expired strictly before the reading of the clock. */
  predicate Dropped(expireAt: int64, now: int) {
    expireAt != 0 && now > expireAt
  }

  /** A load stopped by an error leaves the keys it had already set. */
  datatype Loaded = Loaded(ok: bool, store: Store, rest: Bytes)

  /** The loop over the announced keys; `clock(i)` is what `now_ms` says at turn `i`. */
  function LoadEntries(s: Bytes, i: nat, n: nat, clock: nat -> int, store: Store): (l: Loaded)
    requires i <= n
    ensures |l.rest| <= |s|
    decreases n - i
  {
    if i == n then Loaded(true, store, s)
    else
      match GetEntry(s)
      case Short => Loaded(false, store, s)
      case Got(e, rest) =>
        LoadEntries(rest, i + 1, n, clock, if Dropped(e.1.expireAt, clock(i)) then store else store[e.0 := e.1])
  }

  /** Magic and version at the front, and a key count behind them. */
  predicate HasHeader(file: Bytes) {
    |file| >= 16 && file[..4] == MAGIC && Value(file[4..8]) == VERSION
  }

  function KeyCount(file: Bytes): nat
    requires HasHeader(file)
  {
    Value(file[8..16])
  }

  /** The eight bytes at the front of `rest`, the unread end of the file, are the checksum of all read before. */
  predicate ChecksumMatches(file: Bytes, rest: Bytes)
    requires |rest| <= |file|
  {
    |rest| >= 8 && Crc.Pack(rest[..8]) == Crc.Update(0, file[..|file| - |rest|])
  }

  /** `rdb_load` on any bytes, into a table that holds `store`. */
  function Load(file: Bytes, clock: nat -> int, store: Store): Loaded {
    if !HasHeader(file) then Loaded(false, store, file)
    else
      var l := LoadEntries(file[16..], 0, KeyCount(file), clock, store);
      if l.ok then l.(ok := ChecksumMatches(file, l.rest)) else l
  }
}
