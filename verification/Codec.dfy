/** src/rdb.cpp: the primitive fields of a snapshot, in little-endian byte order. */
module Codec {
  import opened Bytes
  import opened SortedSet

  /** What a read gives: a value and the bytes behind it, or nothing when the bytes run out. */
  datatype Read<+T> = Got(value: T, rest: Bytes) | Short

  type int64 = x: int | -0x8000_0000_0000_0000 <= x < 0x8000_0000_0000_0000

  const TWO_32: nat := 0x1_0000_0000
  const TWO_63: nat := 0x8000_0000_0000_0000
  const TWO_64: nat := 0x1_0000_0000_0000_0000

  /** The lowest `k` bytes of `n`, lowest first. */
  function Put(n: nat, k: nat): (s: Bytes)
    ensures |s| == k
  {
    if k == 0 then [] else [n % 256] + Put(n / 256, k - 1)
  }

  function Value(s: Bytes): nat {
    if s == [] then 0 else s[0] + 256 * Value(s[1..])
  }

  function Take(s: Bytes, n: nat): (r: Read<Bytes>)
    ensures r.Got? ==> |r.rest| <= |s|
  {
    if n <= |s| then Got(s[..n], s[n..]) else Short
  }

  function GetNat(s: Bytes, k: nat): (r: Read<nat>)
    ensures r.Got? ==> |r.rest| <= |s|
  {
    if k <= |s| then Got(Value(s[..k]), s[k..]) else Short
  }

  /** A signed field in two's complement. */
  function PutInt64(x: int64): Bytes {
    Put(if x < 0 then TWO_64 + x else x, 8)
  }

  function GetInt64(s: Bytes): (r: Read<int64>)
    ensures r.Got? ==> |r.rest| <= |s|
  {
    match GetNat(s, 8)
    case Short => Short
    case Got(n, rest) => Got(if TWO_63 <= n < TWO_64 then n - TWO_64 else n % TWO_63, rest)
  }

  /** A double: sign bit and magnitude, as IEEE 754 lays them out; -0 is read as 0. */
  function PutScore(x: Score): Bytes {
    Put(if x < 0 then TWO_63 - x else x, 8)
  }

  function GetScore(s: Bytes): (r: Read<Score>)
    ensures r.Got? ==> |r.rest| <= |s|
  {
    match GetNat(s, 8)
    case Short => Short
    case Got(n, rest) => Got(if TWO_63 <= n < TWO_64 then TWO_63 - n else n % TWO_63, rest)
  }

  /** A length, cut to 32 bits, and that many bytes. */
  function PutBlob(data: Bytes): Bytes {
    Put(|data| % TWO_32, 4) + data[..|data| % TWO_32]
  }

  function GetBlob(s: Bytes): (r: Read<Bytes>)
    ensures r.Got? ==> |r.rest| <= |s|
  {
    match GetNat(s, 4)
    case Short => Short
    case Got(n, rest) => Take(rest, n)
  }

  // ---------- reading back ----------

  function Power256(k: nat): nat {
    if k == 0 then 1 else 256 * Power256(k - 1)
  }

  lemma {:induction false} ValuePut(n: nat, k: nat)
    requires n < Power256(k)
    ensures Value(Put(n, k)) == n
  {
    if k > 0 {
      ValuePut(n / 256, k - 1);
      assert Put(n, k)[1..] == Put(n / 256, k - 1);
    }
  }

  lemma PowersOf256()
    ensures Power256(1) == 256 && Power256(4) == TWO_32 && Power256(8) == TWO_64
  {
    assert Power256(2) == 0x1_0000;
    assert Power256(3) == 0x100_0000;
    assert Power256(5) == 0x100_0000_0000;
    assert Power256(6) == 0x1_0000_0000_0000;
    assert Power256(7) == 0x100_0000_0000_0000;
  }

  lemma ReadNat(n: nat, k: nat, t: Bytes)
    requires n < Power256(k)
    ensures GetNat(Put(n, k) + t, k) == Got(n, t)
  {
    var s := Put(n, k) + t;
    assert s[..k] == Put(n, k) && s[k..] == t;
    ValuePut(n, k);
  }

  lemma ReadInt64(x: int64, t: Bytes)
    ensures GetInt64(PutInt64(x) + t) == Got(x, t)
  {
    PowersOf256();
    ReadNat(if x < 0 then TWO_64 + x else x, 8, t);
  }

  lemma ReadScore(x: Score, t: Bytes)
    ensures GetScore(PutScore(x) + t) == Got(x, t)
  {
    PowersOf256();
    ReadNat(if x < 0 then TWO_63 - x else x, 8, t);
  }

  /** A blob comes back cut to the length that its 32-bit field can hold. */
  lemma ReadBlob(data: Bytes, t: Bytes)
    ensures GetBlob(PutBlob(data) + t) == Got(data[..|data| % TWO_32], t)
  {
    PowersOf256();
    var n := |data| % TWO_32;
    var body := data[..n] + t;
    assert PutBlob(data) + t == Put(n, 4) + body;
    ReadNat(n, 4, body);
    assert body[..n] == data[..n] && body[n..] == t;
  }
}
