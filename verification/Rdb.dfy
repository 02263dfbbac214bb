/** src/rdb.cpp: the writer and the reader as they run, over bytes instead of files. */
module Rdb {
  import opened Sequences
  import opened Bytes
  import opened SortedSet
  import opened ZSetModel
  import opened Codec
  import opened Snapshot
  import opened Chains
  import opened Dicts
  import Crc
  import SnapshotLaws

  class Writer {
    const table: array<bv64>
    var out: Bytes
    var crc: bv64

    /** The running checksum is that of everything written. */
    ghost predicate Valid()
      reads this, table
    {
      Crc.IsTable(table) && crc == Crc.Update(0, out)
    }

    constructor ()
      ensures Valid() && out == [] && fresh(table)
    {
      var t := Crc.BuildTable();
      table, out, crc := t, [], 0;
    }

    method Write(data: Bytes)
      requires Valid()
      modifies this
      ensures Valid() && out == old(out) + data
    {
      Crc.UpdateJoin(0, out, data);
      out := out + data;
      crc := Crc.Crc64Update(table, crc, data);
    }

    method WriteBlob(data: Bytes)
      requires Valid()
      modifies this
      ensures Valid() && out == old(out) + PutBlob(data)
    {
      var len := |data| % TWO_32;
      Write(Put(len, 4));
      Write(data[..len]);
    }

    method WriteBlobs(items: seq<Bytes>)
      requires Valid()
      modifies this
      ensures Valid() && out == old(out) + PutBlobs(items)
    {
      hide PutBlob, Crc.IsTable;
      ghost var goal := out + PutBlobs(items);
      for i := 0 to |items|
        invariant Valid() && goal == out + PutBlobs(items[i..])
      {
        assert items[i..][1..] == items[i + 1..];
        Reassociate(out, PutBlob(items[i]), PutBlobs(items[i + 1..]));
        WriteBlob(items[i]);
      }
    }

    method WriteFields(fields: Listing)
      requires Valid()
      modifies this
      ensures Valid() && out == old(out) + PutFields(fields)
    {
      hide PutBlob, Crc.IsTable;
      ghost var goal := out + PutFields(fields);
      for i := 0 to |fields|
        invariant Valid() && goal == out + PutFields(fields[i..])
      {
        ghost var rest := PutFields(fields[i + 1..]);
        assert fields[i..][1..] == fields[i + 1..];
        assert out + (PutBlob(fields[i].0) + PutBlob(fields[i].1) + rest) ==
            out + PutBlob(fields[i].0) + PutBlob(fields[i].1) + rest;
        WriteBlob(fields[i].0);
        WriteBlob(fields[i].1);
      }
    }

    method WriteElems(elems: seq<Elem>)
      requires Valid()
      modifies this
      ensures Valid() && out == old(out) + PutElems(elems)
    {
      hide PutBlob, Crc.IsTable, PutScore;
      ghost var goal := out + PutElems(elems);
      for i := 0 to |elems|
        invariant Valid() && goal == out + PutElems(elems[i..])
      {
        ghost var rest := PutElems(elems[i + 1..]);
        assert elems[i..][1..] == elems[i + 1..];
        assert out + (PutScore(elems[i].score) + PutBlob(elems[i].member) + rest) ==
            out + PutScore(elems[i].score) + PutBlob(elems[i].member) + rest;
        Write(PutScore(elems[i].score));
        WriteBlob(elems[i].member);
      }
    }

    method WriteBody(body: Body<Listing>)
      requires Valid()
      modifies this
      ensures Valid() && out == old(out) + PutBody(body)
    {
      hide PutBlob, PutBlobs, PutFields, PutElems, Valid, Put, Collected, Written;
      match body
      case Text(text) =>
        WriteBlob(text);
      case ListOf(items) =>
        Reassociate(out, Put(|items| % TWO_32, 4), PutBlobs(items));
        Write(Put(|items| % TWO_32, 4));
        WriteBlobs(items);
      case HashOf(fields) =>
        var cut := Collected(fields);
        Reassociate(out, Put(|cut|, 4), PutFields(cut));
        Write(Put(|cut|, 4));
        WriteFields(cut);
      case SortedOf(z) =>
        Reassociate(out, Put(|z.elems| % TWO_32, 4), PutElems(Written(z.elems)));
        Write(Put(|z.elems| % TWO_32, 4));
        WriteElems(Written(z.elems));
    }

    /** `write_entry`. */
    method WriteEntry(e: Saved)
      requires Valid()
      modifies this
      ensures Valid() && out == old(out) + PutEntry(e)
    {
      hide PutBlob, PutBody, PutInt64, Crc.IsTable;
      Write([TypeOf(e.1.body)]);
      Write(PutInt64(e.1.expireAt));
      WriteBlob(e.0);
      WriteBody(e.1.body);
    }
  }

  class Reader {
    const table: array<bv64>
    const data: Bytes
    var pos: nat
    var crc: bv64
    var ok: bool

    /** The running checksum is that of everything read. */
    ghost predicate Valid()
      reads this, table
    {
      Crc.IsTable(table) && pos <= |data| && crc == Crc.Update(0, data[..pos])
    }

    /** The bytes not read yet. */
    ghost function Rest(): Bytes
      requires pos <= |data|
      reads this
    {
      data[pos..]
    }

    constructor (data: Bytes)
      ensures Valid() && ok && this.data == data && Rest() == data && fresh(table)
    {
      var t := Crc.BuildTable();
      this.data := data;
      table, pos, crc, ok := t, 0, 0, true;
    }

    /** What a reading method did, told by what the format says of the unread bytes. */
    ghost predicate Gives<T>(got: Option<T>, r: Read<T>)
      reads this
    {
      pos <= |data| && match r
      case Short => got.None?
      case Got(v, rest) => got == Some(v) && ok && Rest() == rest
    }

    method ReadBytes(n: nat) returns (got: Option<Bytes>)
      requires Valid() && ok
      modifies this
      ensures Valid() && Gives(got, Take(old(Rest()), n))
    {
      hide Crc.IsTable, Crc.Update;
      if pos + n > |data| {
        ok := false;
        return None;
      }
      var bytes := data[pos..pos + n];
      assert data[..pos] + bytes == data[..pos + n] && data[pos..][..n] == bytes && data[pos..][n..] == data[pos + n..];
      Crc.UpdateJoin(0, data[..pos], bytes);
      crc := Crc.Crc64Update(table, crc, bytes);
      pos := pos + n;
      return Some(bytes);
    }

    method ReadNat(k: nat) returns (got: Option<nat>)
      requires Valid() && ok
      modifies this
      ensures Valid() && Gives(got, GetNat(old(Rest()), k))
    {
      hide Crc.IsTable, Value;
      var bytes := ReadBytes(k);
      got := if bytes.None? then None else Some(Value(bytes.value));
    }

    method ReadInt64() returns (got: Option<int64>)
      requires Valid() && ok
      modifies this
      ensures Valid() && Gives(got, GetInt64(old(Rest())))
    {
      hide Crc.IsTable, Value, GetNat;
      var bits := ReadNat(8);
      if bits.None? { return None; }
      var n := bits.value;
      return Some(if TWO_63 <= n < TWO_64 then n - TWO_64 else n % TWO_63);
    }

    method ReadScore() returns (got: Option<Score>)
      requires Valid() && ok
      modifies this
      ensures Valid() && Gives(got, GetScore(old(Rest())))
    {
      hide Crc.IsTable, Value, GetNat;
      var bits := ReadNat(8);
      if bits.None? { return None; }
      var n := bits.value;
      return Some(if TWO_63 <= n < TWO_64 then TWO_63 - n else n % TWO_63);
    }

    method ReadBlob() returns (got: Option<Bytes>)
      requires Valid() && ok
      modifies this
      ensures Valid() && Gives(got, GetBlob(old(Rest())))
    {
      hide Crc.IsTable, GetNat, Take;
      var len := ReadNat(4);
      if len.None? { return None; }
      got := ReadBytes(len.value);
    }

    method ReadBlobs(n: nat) returns (got: Option<seq<Bytes>>)
      requires Valid() && ok
      modifies this
      ensures Valid() && Gives(got, GetBlobs(old(Rest()), n))
    {
      hide Crc.IsTable, GetBlob;
      var items: seq<Bytes> := [];
      ghost var all := GetBlobs(Rest(), n);
      for j := 0 to n
        invariant Valid() && ok
        invariant var r := GetBlobs(Rest(), n - j);
          all.Short? == r.Short? && (r.Got? ==> all.rest == r.rest && all.value == items + r.value)
      {
        var item := ReadBlob();
        if item.None? { return None; }
        ghost var more := GetBlobs(Rest(), n - j - 1);
        assert more.Got? ==> items + ([item.value] + more.value) == items + [item.value] + more.value;
        items := items + [item.value];
      }
      assert items + [] == items;
      return Some(items);
    }

    method ReadFields(n: nat) returns (got: Option<Fields>)
      requires Valid() && ok
      modifies this
      ensures Valid() && Gives(got, GetFields(old(Rest()), n, map[]))
    {
      hide Crc.IsTable, GetBlob;
      var table: Fields := map[];
      ghost var all := GetFields(Rest(), n, map[]);
      for j := 0 to n
        invariant Valid() && ok && all == GetFields(Rest(), n - j, table)
      {
        var field := ReadBlob();
        if field.None? { return None; }
        var val := ReadBlob();
        if val.None? { return None; }
        table := table[field.value := val.value];
      }
      return Some(table);
    }

    method ReadElems(n: nat) returns (got: Option<State>)
      requires Valid() && ok
      modifies this
      ensures Valid() && Gives(got, GetElems(old(Rest()), n, EMPTY))
    {
      hide Crc.IsTable, GetBlob, GetScore, Add;
      var z := EMPTY;
      ghost var all := GetElems(Rest(), n, EMPTY);
      for j := 0 to n
        invariant Valid() && ok && all == GetElems(Rest(), n - j, z)
      {
        var score := ReadScore();
        if score.None? { return None; }
        var member := ReadBlob();
        if member.None? { return None; }
        z := Add(z, member.value, score.value);
      }
      return Some(z);
    }

    method ReadBody(kind: byte) returns (got: Option<Body<Fields>>)
      requires Valid() && ok
      modifies this
      ensures Valid() && Gives(got, GetBody(old(Rest()), kind))
    {
      hide Crc.IsTable, GetBlob, GetBlobs, GetFields, GetElems, GetNat;
      if kind == TYPE_STRING {
        var text := ReadBlob();
        return if text.None? then None else Some(Text(text.value));
      }
      if kind != TYPE_LIST && kind != TYPE_HASH && kind != TYPE_ZSET {
        return None;
      }
      var n := ReadNat(4);
      if n.None? { return None; }
      if kind == TYPE_LIST {
        var items := ReadBlobs(n.value);
        return if items.None? then None else Some(ListOf(items.value));
      } else if kind == TYPE_HASH {
        var fields := ReadFields(n.value);
        return if fields.None? then None else Some(HashOf(fields.value));
      } else {
        var z := ReadElems(n.value);
        return if z.None? then None else Some(SortedOf(z.value));
      }
    }

    /** One turn of the loading loop, up to the expiry test. */
    method ReadEntry() returns (got: Option<(Bytes, Obj<Fields>)>)
      requires Valid() && ok
      modifies this
      ensures Valid() && Gives(got, GetEntry(old(Rest())))
    {
      hide Crc.IsTable, GetBlob, GetInt64, GetBody;
      ghost var s := Rest();
      var kind := ReadBytes(1);
      if kind.None? { return None; }
      assert kind.value == [s[0]] && Rest() == s[1..];
      var expireAt := ReadInt64();
      if expireAt.None? { return None; }
      var key := ReadBlob();
      if key.None? { return None; }
      var body := ReadBody(kind.value[0]);
      return if body.None? then None else Some((key.value, Obj(body.value, expireAt.value)));
    }
  }

  /** `rdb_load`: each key is set in the table as it is read, and stays there when a later byte is
      found wanting. `clock(i)` is the time read at turn `i`. */
  method RdbLoad(d: Dict<Obj<Fields>>, file: Bytes, clock: nat -> int) returns (ok: bool)
    requires d.Valid()
    modifies d, d.buckets, d.Repr
    ensures d.Valid() && var l := Load(file, clock, old(d.M)); ok == l.ok && d.M == l.store
    ensures (d.buckets == old(d.buckets) || fresh(d.buckets)) && fresh(d.Repr - old(d.Repr))
  {
    hide Crc.IsTable, LoadEntries, HasHeader, KeyCount, Dict.Valid, Crc.Update, ChecksumMatches;
    var r := new Reader(file);
    var front := ReadFront(r);
    if front.None? { return false; }
    ok := LoadLoop(r, d, front.value, clock);
    if !ok { return false; }
    ok := CheckStored(r);
  }

  /** The stored checksum is read past the reader, so that it does not count into the running one. */
  method CheckStored(r: Reader) returns (ok: bool)
    requires r.Valid()
    ensures ok == ChecksumMatches(r.data, r.Rest())
  {
    hide Crc.IsTable, Crc.Update, Crc.Pack;
    if r.pos + 8 > |r.data| { return false; }
    assert r.data[..|r.data| - |r.Rest()|] == r.data[..r.pos] && r.Rest()[..8] == r.data[r.pos..r.pos + 8];
    return Crc.Pack(r.data[r.pos..r.pos + 8]) == r.crc;
  }

  /** The checksum table is not the bucket array. */
  ghost predicate Apart(r: Reader, d: Dict<Obj<Fields>>)
    reads d
  {
    var a: object, b: object := r.table, d.buckets;
    a != b
  }

  /** Magic, version and key count. */
  method ReadFront(r: Reader) returns (keys: Option<nat>)
    requires r.Valid() && r.ok && r.Rest() == r.data
    modifies r
    ensures r.Valid() && keys == if HasHeader(r.data) then Some(KeyCount(r.data)) else None
    ensures keys.Some? ==> r.ok && r.Rest() == r.data[16..]
  {
    hide Crc.IsTable, Value, Crc.Update;
    ghost var s := r.data;
    var magic := r.ReadBytes(4);
    if magic.None? { return None; }
    assert |s| >= 4 && magic.value == s[..4] && r.Rest() == s[4..];
    if magic.value != MAGIC { return None; }
    var version := r.ReadNat(4);
    if version.None? { return None; }
    assert |s| >= 8 && s[4..][..4] == s[4..8] && s[4..][4..] == s[8..];
    if version.value != VERSION { return None; }
    keys := r.ReadNat(8);
    assert keys.Some? ==> |s| >= 16 && s[8..][..8] == s[8..16] && s[8..][8..] == s[16..];
  }

  /** The loop over the announced keys. */
  method LoadLoop(r: Reader, d: Dict<Obj<Fields>>, n: nat, clock: nat -> int) returns (ok: bool)
    requires r.Valid() && r.ok && d.Valid() && Apart(r, d)
    modifies r, d, d.buckets, d.Repr
    ensures d.Valid() && var l := LoadEntries(old(r.Rest()), 0, n, clock, old(d.M));
      && ok == l.ok && d.M == l.store && (ok ==> r.Valid() && r.Rest() == l.rest)
    ensures (d.buckets == old(d.buckets) || fresh(d.buckets)) && fresh(d.Repr - old(d.Repr))
  {
    hide GetEntry, Crc.IsTable, Dropped, Dict.Valid;
    ghost var l := LoadEntries(r.Rest(), 0, n, clock, d.M);
    for i := 0 to n
      invariant r.Valid() && r.ok && d.Valid() && Apart(r, d) && l == LoadEntries(r.Rest(), i, n, clock, d.M)
      invariant (d.buckets == old(d.buckets) || fresh(d.buckets)) && fresh(d.Repr - old(d.Repr))
    {
      var e := r.ReadEntry();
      if e.None? { return false; }
      var (key, obj) := e.value;
      if !Dropped(obj.expireAt, clock(i)) {
        d.Set(key, obj);
      }
    }
    return true;
  }

  type Stored = Obj<Fields>

  /** For each key that holds a hash, the order in which that hash's own table is visited. */
  ghost predicate Orders(hashes: map<Bytes, Listing>, m: Store) {
    forall key :: key in m && m[key].body.HashOf? ==> key in hashes && Enumerates(hashes[key], m[key].body.fields)
  }

  function Listed(hashes: map<Bytes, Listing>, key: Bytes, v: Stored): Obj<Listing> {
    match v.body
    case Text(text) => Obj(Text(text), v.expireAt)
    case ListOf(items) => Obj(ListOf(items), v.expireAt)
    case HashOf(_) => Obj(HashOf(if key in hashes then hashes[key] else []), v.expireAt)
    case SortedOf(z) => Obj(SortedOf(z), v.expireAt)
  }

  function ListAll(items: seq<(Bytes, Stored)>, hashes: map<Bytes, Listing>): (entries: seq<Saved>)
    ensures |entries| == |items|
    ensures forall i :: 0 <= i < |items| ==> entries[i] == (items[i].0, Listed(hashes, items[i].0, items[i].1))
  {
    if items == [] then []
    else [(items[0].0, Listed(hashes, items[0].0, items[0].1))] + ListAll(items[1..], hashes)
  }

  /** The callback of a save sees every key of the table; here it lists them, and `RdbSave` writes them. */
  function ListEntry(hashes: map<Bytes, Listing>): (seq<Saved>, Bytes, Stored) -> (seq<Saved>, bool) {
    (listed: seq<Saved>, key: Bytes, v: Stored) => (listed + [(key, Listed(hashes, key, v))], true)
  }

  lemma {:induction false} ListEntries(items: seq<(Bytes, Stored)>, hashes: map<Bytes, Listing>, listed: seq<Saved>)
    ensures Each(items, ListEntry(hashes), listed) == listed + ListAll(items, hashes)
    decreases |items|
  {
    if items != [] {
      var e := (items[0].0, Listed(hashes, items[0].0, items[0].1));
      hide Listed;
      Reassociate(listed, [e], ListAll(items[1..], hashes));
      ListEntries(items[1..], hashes, listed + [e]);
    }
  }

  lemma ListAllLists(items: seq<(Bytes, Stored)>, hashes: map<Bytes, Listing>, m: Store)
    requires Enumerates(items, m) && Orders(hashes, m)
    ensures SnapshotLaws.ListsStore(ListAll(items, hashes), m)
  {
    var entries := ListAll(items, hashes);
    forall i | 0 <= i < |entries|
      ensures entries[i].0 in m && SnapshotLaws.ListsValue(entries[i].1, m[entries[i].0])
    {
    }
  }

  /** `rdb_save`: the header, the entries in the order of the table, and the checksum of it all. */
  method RdbSave(d: Dict<Stored>, hashes: map<Bytes, Listing>) returns (file: Bytes)
    requires d.Valid() && Orders(hashes, d.M)
    ensures var entries := ListAll(d.Visit(), hashes);
      file == Save(entries) && SnapshotLaws.ListsStore(entries, d.M)
  {
    hide ListAll, Save, SnapshotLaws.ListsStore, Dict.Valid, Each;
    var entries := d.ForEach(ListEntry(hashes), []);
    ListEntries(d.Visit(), hashes, []);
    assert [] + ListAll(d.Visit(), hashes) == ListAll(d.Visit(), hashes);
    ListAllLists(d.Visit(), hashes, d.M);
    file := SaveEntries(entries);
  }

  /** Lengths fit their 32-bit fields, and a sorted set is consistent and not larger than what is written. */
  ghost predicate ValueFits(key: Bytes, v: Stored) {
    && SnapshotLaws.Short32(key)
    && match v.body
       case Text(text) => SnapshotLaws.Short32(text)
       case ListOf(items) => |items| < TWO_32 && forall x :: x in items ==> SnapshotLaws.Short32(x)
       case HashOf(fields) => forall x :: x in fields ==> SnapshotLaws.Short32(x) && SnapshotLaws.Short32(fields[x])
       case SortedOf(z) =>
         Agree(z) && |z.elems| <= MAX_COLLECTED && SnapshotLaws.Short32Elems(z.elems)
  }

  ghost predicate StoreFits(m: Store) {
    |m| < TWO_64 && forall key :: key in m ==> ValueFits(key, m[key])
  }

  lemma ListedFits(hashes: map<Bytes, Listing>, key: Bytes, v: Stored)
    requires ValueFits(key, v) && (v.body.HashOf? ==> key in hashes && Enumerates(hashes[key], v.body.fields))
    ensures SnapshotLaws.EntryFits((key, Listed(hashes, key, v)))
  {
  }

  lemma ListAllFits(items: seq<(Bytes, Stored)>, hashes: map<Bytes, Listing>, m: Store)
    requires Enumerates(items, m) && Orders(hashes, m) && StoreFits(m)
    ensures forall e :: e in ListAll(items, hashes) ==> SnapshotLaws.EntryFits(e)
  {
    hide SnapshotLaws.EntryFits, ValueFits, Listed;
    var entries := ListAll(items, hashes);
    forall e | e in entries
      ensures SnapshotLaws.EntryFits(e)
    {
      var i :| 0 <= i < |entries| && entries[i] == e;
      ListedFits(hashes, items[i].0, items[i].1);
    }
  }

  /** SAVE and a restart, whatever the new table's hash function: the load succeeds, and the new table
      holds exactly what the old one did, minus what has expired, if and only if no hash that is left
      has more than 4096 fields. */
  method Restart(d: Dict<Stored>, hashes: map<Bytes, Listing>, hash: Hash, now: int)
    returns (ok: bool, d': Dict<Stored>)
    requires d.Valid() && Orders(hashes, d.M) && StoreFits(d.M)
    ensures ok && d'.Valid() && fresh(d')
    ensures var kept := SnapshotLaws.Kept(d.M, now); d'.M == kept <==> SnapshotLaws.HashesFit(kept)
    ensures forall key :: key in d'.M <==> key in d.M && (d.M[key].expireAt == 0 || now <= d.M[key].expireAt)
  {
    hide StoreFits, Dict.Valid, Load, Save, SnapshotLaws.Kept, SnapshotLaws.HashesFit, SnapshotLaws.EntryFits, ListAll;
    var file := RdbSave(d, hashes);
    ghost var entries := ListAll(d.Visit(), hashes);
    assert Enumerates(d.Visit(), d.M) by { d.VisitEnumerates(); }
    ListAllFits(d.Visit(), hashes, d.M);
    assert |d.M| < TWO_64 by { StoreFitsSize(d.M); }
    SnapshotLaws.StoreRoundTrip(entries, d.M, now);
    d' := new Dict(hash);
    ok := RdbLoad(d', file, (i: nat) => now);
  }

  lemma StoreFitsSize(m: Store)
    requires StoreFits(m)
    ensures |m| < TWO_64
  {
  }

  method SaveEntries(entries: seq<Saved>) returns (file: Bytes)
    ensures file == Save(entries)
  {
    hide PutEntry, Crc.IsTable, Put, Crc.Update;
    var w := new Writer();
    w.Write(MAGIC);
    w.Write(Put(VERSION, 4));
    w.Write(Put(|entries| % TWO_64, 8));
    ghost var header := w.out;
    assert header == MAGIC + Put(VERSION, 4) + Put(|entries| % TWO_64, 8);
    for i := 0 to |entries|
      invariant fresh(w) && w.Valid() && Covered(entries) == w.out + PutEntries(entries[i..])
    {
      ghost var rest := PutEntries(entries[i + 1..]);
      assert entries[i..][1..] == entries[i + 1..];
      assert w.out + (PutEntry(entries[i]) + rest) == w.out + PutEntry(entries[i]) + rest;
      w.WriteEntry(entries[i]);
    }
    assert PutEntries(entries[|entries|..]) == [] && w.out + [] == w.out;
    file := w.out + PutCrc(w.crc, 8);
  }
}
