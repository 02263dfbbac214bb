/** How a snapshot begins and ends, and what a load makes of one that is cut short or is none. */
module SnapshotRefusals {
  import opened Sequences
  import opened Bytes
  import opened SortedSet
  import opened ZSetModel
  import opened Codec
  import opened Snapshot
  import opened SnapshotLaws
  import Crc

  // ---------- the layout ----------

  /** A number without its lowest `i` bytes. */
  function WithoutBytes(n: nat, i: nat): nat {
    if i == 0 then n else WithoutBytes(n / 256, i - 1)
  }

  /** Byte `i` of a number is its `i`-th digit to the base 256, lowest first. */
  lemma {:induction false} PutAt(n: nat, k: nat, i: nat)
    requires i < k
    ensures Put(n, k)[i] == WithoutBytes(n, i) % 256
  {
    if i > 0 {
      PutAt(n / 256, k - 1, i - 1);
    }
  }

  /** A signed field holds the number modulo 2^64; a score field its sign bit and magnitude. */
  lemma FieldsHold(x: int64, s: Score)
    ensures Value(PutInt64(x)) == x % 0x1_0000_0000_0000_0000
    ensures Value(PutScore(s)) == if s >= 0 then s else 0x8000_0000_0000_0000 - s
  {
    PowersOf256();
    ValuePut(if x < 0 then TWO_64 + x else x, 8);
    ValuePut(if s < 0 then TWO_63 - s else s, 8);
  }

  /** A snapshot begins with "MRDB", version 1 and the number of keys, and ends with the checksum of all
      before. */
  lemma FileLayout(entries: seq<Saved>)
    requires |entries| < TWO_64
    ensures var f := Save(entries); var n := |f| - 8;
      && n >= 16 && f[..4] == [77, 82, 68, 66] && f[4..8] == [1, 0, 0, 0] && Value(f[8..16]) == |entries|
      && Crc.Pack(f[n..]) == Crc.Update(0, f[..n])
  {
    var f := Save(entries);
    var n, crc := |f| - 8, Crc.Update(0, Covered(entries));
    VersionBytes();
    assert f[..n] == Covered(entries) && f[n..] == PutCrc(crc, 8);
    BelowEight(crc);
    PackPutCrc(crc, 8);
    hide Crc.Update, Crc.Pack, PutCrc, PutEntries;
    FrontLayout(|entries|, PutEntries(entries) + PutCrc(crc, 8));
    CoveredShape(entries, PutCrc(crc, 8));
  }

  lemma VersionBytes()
    ensures Put(VERSION, 4) == [1, 0, 0, 0]
  {
    assert Put(0, 0) == [] && Put(0, 1) == [0] && Put(0, 2) == [0, 0] && Put(0, 3) == [0, 0, 0];
  }

  lemma FrontLayout(n: nat, t: Bytes)
    requires n < TWO_64
    ensures var f := MAGIC + Put(VERSION, 4) + Put(n, 8) + t;
      |f| >= 16 && f[..4] == [77, 82, 68, 66] && f[4..8] == [1, 0, 0, 0] && Value(f[8..16]) == n
  {
    var f := MAGIC + Put(VERSION, 4) + Put(n, 8) + t;
    VersionBytes();
    PowersOf256();
    ValuePut(n, 8);
    hide Put;
    assert f[8..16] == Put(n, 8);
  }

  /** An entry is its type, its expiry, its key and its value. */
  lemma EntryLayout(e: Saved)
    ensures var s := PutEntry(e);
      && |s| >= 9
      && s[0] == (if e.1.body.Text? then 0 else if e.1.body.ListOf? then 1 else if e.1.body.HashOf? then 2 else 3)
      && s[1..9] == PutInt64(e.1.expireAt) && s[9..] == PutBlob(e.0) + PutBody(e.1.body)
  {
    hide PutInt64, PutBlob, PutBody;
    var s := PutEntry(e);
    assert s == [TypeOf(e.1.body)] + (PutInt64(e.1.expireAt) + (PutBlob(e.0) + PutBody(e.1.body)));
    EightBytes(e.1.expireAt);
  }

  lemma EightBytes(x: int64)
    ensures |PutInt64(x)| == 8
  {
  }

  /** A blob is its length in four bytes and its bytes. */
  lemma BlobLayout(data: Bytes)
    requires |data| < 0x1_0000_0000
    ensures PutBlob(data) == Put(|data|, 4) + data
  {
    hide Put;
    Fits32(|data|);
    WholePrefix(data);
  }

  /** A value is a count and its parts in order: list values; fields, each before its value; scores, each before
      its member. */
  lemma BodyLayout(items: seq<Bytes>, fields: Listing, z: State)
    requires |items| < 0x1_0000_0000 && |fields| <= 4096 && |z.elems| <= 4096
    ensures PutBody(ListOf(items)) == Put(|items|, 4) + PutBlobs(items)
    ensures PutBody(HashOf(fields)) == Put(|fields|, 4) + PutFields(fields)
    ensures PutBody(SortedOf(z)) == Put(|z.elems|, 4) + PutElems(z.elems)
  {
    hide Put, PutBlobs, PutFields, PutElems, PutBody;
    ListBody(items);
    HashBody(fields);
    SortedBody(z);
  }

  lemma ListBody(items: seq<Bytes>)
    requires |items| < 0x1_0000_0000
    ensures PutBody(ListOf(items)) == Put(|items|, 4) + PutBlobs(items)
  {
    hide Put, PutBlobs;
    Fits32(|items|);
  }

  lemma WholePrefix(data: Bytes)
    ensures data[..|data|] == data
  {
  }

  lemma Fits32(n: nat)
    requires n < 0x1_0000_0000
    ensures n % TWO_32 == n
  {
  }

  lemma HashBody(fields: Listing)
    requires |fields| <= 4096
    ensures PutBody(HashOf(fields)) == Put(|fields|, 4) + PutFields(fields)
  {
    hide Put, PutFields;
    assert Collected(fields) == fields;
  }

  lemma PartsLayout(item: Bytes, items: seq<Bytes>, field: Bytes, val: Bytes, fields: Listing, e: Elem,
    elems: seq<Elem>)
    ensures PutBlobs([]) == [] && PutBlobs([item] + items) == PutBlob(item) + PutBlobs(items)
    ensures PutFields([]) == []
    ensures PutFields([(field, val)] + fields) == PutBlob(field) + PutBlob(val) + PutFields(fields)
    ensures PutElems([]) == [] && PutElems([e] + elems) == PutScore(e.score) + PutBlob(e.member) + PutElems(elems)
  {
    assert ([item] + items)[1..] == items && ([(field, val)] + fields)[1..] == fields && ([e] + elems)[1..] == elems;
  }

  /** Of a hash the first 4096 listed fields are kept. */
  lemma CollectedMeans(fields: Listing, i: nat)
    ensures |Collected(fields)| == if |fields| <= 4096 then |fields| else 4096
    ensures i < |Collected(fields)| ==> Collected(fields)[i] == fields[i]
  {
  }

  // ---------- what is no snapshot ----------

  /** A file that does not begin with "MRDB", version 1 and eight bytes more is refused, and the table is
      left as it was. */
  lemma HeaderRefused(file: Bytes, clock: nat -> int, store: Store)
    requires |file| < 16 || file[..4] != [77, 82, 68, 66] || file[4..8] != [1, 0, 0, 0]
    ensures var l := Load(file, clock, store); !l.ok && l.store == store
  {
    if HasHeader(file) {
      VersionIs(file[4..8]);
    }
  }

  lemma VersionIs(s: Bytes)
    requires |s| == 4 && Value(s) == 1
    ensures s == [1, 0, 0, 0]
  {
    ZeroIs(s[1..]);
  }

  lemma {:induction false} ZeroIs(s: Bytes)
    requires Value(s) == 0
    ensures forall i :: 0 <= i < |s| ==> s[i] == 0
  {
    if s != [] {
      ZeroIs(s[1..]);
    }
  }

  /** Where an entry cannot be read, because the bytes run out or its type is none of the four, the load
      fails and keeps exactly the keys before it. */
  lemma HalfLoaded(front: seq<Saved>, n: nat, bad: Bytes, clock: nat -> int)
    requires |front| < n < TWO_64 && (forall e :: e in front ==> EntryFits(e)) && GetEntry(bad).Short?
    ensures var file := MAGIC + Put(VERSION, 4) + Put(n, 8) + (PutEntries(front) + bad);
      var l := Load(file, clock, map[]);
      !l.ok && l.store == Restore(front, 0, clock, map[])
  {
    hide Put, PutEntries, Restore, EntryFits, HasHeader, KeyCount, GetEntry;
    ReadHeader(n, PutEntries(front) + bad);
    ReadEntries(front, 0, n, clock, map[], bad);
  }

  lemma UnknownTypeShort(s: Bytes)
    requires s != [] && s[0] > 3
    ensures GetEntry(s).Short?
  {
  }

  // ---------- what is cut short ----------

  lemma NatStable(s: Bytes, k: nat, t: Bytes)
    ensures GetNat(s, k).Got? ==> GetNat(s + t, k) == Got(GetNat(s, k).value, GetNat(s, k).rest + t)
  {
    if k <= |s| {
      assert (s + t)[..k] == s[..k] && (s + t)[k..] == s[k..] + t;
    }
  }

  lemma Int64Stable(s: Bytes, t: Bytes)
    ensures GetInt64(s).Got? ==> GetInt64(s + t) == Got(GetInt64(s).value, GetInt64(s).rest + t)
    ensures GetScore(s).Got? ==> GetScore(s + t) == Got(GetScore(s).value, GetScore(s).rest + t)
  {
    hide GetNat;
    NatStable(s, 8, t);
  }

  lemma BlobStable(s: Bytes, t: Bytes)
    ensures GetBlob(s).Got? ==> GetBlob(s + t) == Got(GetBlob(s).value, GetBlob(s).rest + t)
  {
    hide GetNat;
    NatStable(s, 4, t);
    if GetBlob(s).Got? {
      var n, rest := GetNat(s, 4).value, GetNat(s, 4).rest;
      assert (rest + t)[..n] == rest[..n] && (rest + t)[n..] == rest[n..] + t;
    }
  }

  lemma {:induction false} BlobsStable(s: Bytes, n: nat, t: Bytes)
    ensures GetBlobs(s, n).Got? ==> GetBlobs(s + t, n) == Got(GetBlobs(s, n).value, GetBlobs(s, n).rest + t)
    decreases n
  {
    hide GetBlob;
    if n > 0 && GetBlobs(s, n).Got? {
      BlobStable(s, t);
      BlobsStable(GetBlob(s).rest, n - 1, t);
    }
  }

  lemma {:induction false} FieldsStable(s: Bytes, n: nat, table: Fields, t: Bytes)
    ensures GetFields(s, n, table).Got? ==>
      GetFields(s + t, n, table) == Got(GetFields(s, n, table).value, GetFields(s, n, table).rest + t)
    decreases n
  {
    hide GetBlob;
    if n > 0 && GetFields(s, n, table).Got? {
      var field := GetBlob(s);
      var val := GetBlob(field.rest);
      BlobStable(s, t);
      BlobStable(field.rest, t);
      FieldsStable(val.rest, n - 1, table[field.value := val.value], t);
    }
  }

  lemma {:induction false} ElemsStable(s: Bytes, n: nat, z: State, t: Bytes)
    ensures GetElems(s, n, z).Got? ==>
      GetElems(s + t, n, z) == Got(GetElems(s, n, z).value, GetElems(s, n, z).rest + t)
    decreases n
  {
    hide GetBlob, GetScore, Add;
    if n > 0 && GetElems(s, n, z).Got? {
      var score := GetScore(s);
      var member := GetBlob(score.rest);
      Int64Stable(s, t);
      BlobStable(score.rest, t);
      ElemsStable(member.rest, n - 1, Add(z, member.value, score.value), t);
    }
  }

  lemma BodyStable(s: Bytes, kind: byte, t: Bytes)
    ensures GetBody(s, kind).Got? ==> GetBody(s + t, kind) == Got(GetBody(s, kind).value, GetBody(s, kind).rest + t)
  {
    hide GetBlob, GetBlobs, GetFields, GetElems, GetNat;
    BlobStable(s, t);
    NatStable(s, 4, t);
    if GetNat(s, 4).Got? {
      var n, rest := GetNat(s, 4).value, GetNat(s, 4).rest;
      BlobsStable(rest, n, t);
      FieldsStable(rest, n, map[], t);
      ElemsStable(rest, n, EMPTY, t);
    }
  }

  /** An entry that has been read is the same with more bytes behind. */
  lemma EntryStable(s: Bytes, t: Bytes)
    ensures GetEntry(s).Got? ==> GetEntry(s + t) == Got(GetEntry(s).value, GetEntry(s).rest + t)
  {
    hide GetInt64, GetBlob, GetBody;
    if GetEntry(s).Got? {
      assert (s + t)[1..] == s[1..] + t;
      var expireAt := GetInt64(s[1..]);
      var key := GetBlob(expireAt.rest);
      Int64Stable(s[1..], t);
      BlobStable(expireAt.rest, t);
      BodyStable(key.rest, s[0], t);
    }
  }

  lemma {:induction false} EntriesStable(s: Bytes, i: nat, n: nat, clock: nat -> int, store: Store, t: Bytes)
    requires i <= n && LoadEntries(s, i, n, clock, store).ok
    ensures LoadEntries(s + t, i, n, clock, store).rest == LoadEntries(s, i, n, clock, store).rest + t
    decreases n - i
  {
    hide GetEntry, Dropped;
    if i < n {
      EntryStable(s, t);
      var e, rest := GetEntry(s).value, GetEntry(s).rest;
      EntriesStable(rest, i + 1, n, clock, if Dropped(e.1.expireAt, clock(i)) then store else store[e.0 := e.1], t);
    }
  }

  lemma SavedRest(entries: seq<Saved>, clock: nat -> int)
    requires |entries| < TWO_64 && forall e :: e in entries ==> EntryFits(e)
    ensures var f := Save(entries);
      && HasHeader(f) && |LoadEntries(f[16..], 0, KeyCount(f), clock, map[]).rest| == 8
  {
    var crc := PutCrc(Crc.Update(0, Covered(entries)), 8);
    hide Put, PutCrc, PutEntries, Restore, EntryFits, HasHeader, KeyCount, Covered, Crc.Update;
    CoveredShape(entries, crc);
    ReadHeader(|entries|, PutEntries(entries) + crc);
    ReadEntries(entries, 0, |entries|, clock, map[], crc);
  }

  lemma FrontCut(f: Bytes, k: nat)
    requires k <= |f| && HasHeader(f[..k])
    ensures k >= 16 && HasHeader(f) && KeyCount(f[..k]) == KeyCount(f) && f[..k][16..] + f[k..] == f[16..]
  {
    assert f[..k][..4] == f[..4] && f[..k][4..8] == f[4..8] && f[..k][8..16] == f[8..16];
  }

  /** A snapshot cut short anywhere is refused. */
  lemma TruncatedRefused(entries: seq<Saved>, k: nat, clock: nat -> int)
    requires |entries| < TWO_64 && (forall e :: e in entries ==> EntryFits(e)) && k < |Save(entries)|
    ensures !Load(Save(entries)[..k], clock, map[]).ok
  {
    SavedRest(entries, clock);
    hide Save, LoadEntries, HasHeader, KeyCount, EntryFits, Crc.Pack, Crc.Update;
    var f := Save(entries);
    var p, t := f[..k], f[k..];
    if HasHeader(p) {
      FrontCut(f, k);
      var l := LoadEntries(p[16..], 0, KeyCount(p), clock, map[]);
      if l.ok {
        EntriesStable(p[16..], 0, KeyCount(p), clock, map[], t);
        assert |l.rest| + |t| == 8;
      }
    }
  }
}
