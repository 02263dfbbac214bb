/** A byte survives the way into an 8-bit vector. */
module ByteBits {
  lemma NarrowBack(b: int)
    requires 0 <= b < 256
    ensures (b as bv8) as int == b
  {
  }
}

/** src/rdb.cpp: the checksum of a snapshot, table-driven and bit by bit. */
module Crc {
  import opened Bytes
  import opened ByteBits

  /** The constant of the shifting loop, used as it stands. */
  const POLY: bv64 := 0xad93_d235_94c9_35a9

  function Bits(b: byte): bv64 {
    (b as bv8) as bv64
  }

  function Xor(a: bv64, b: bv64): bv64 {
    a ^ b
  }

  function ShiftUp(a: bv64): bv64 {
    a << 8
  }

  /** One shift of the table loop. */
  function Step(c: bv64): bv64 {
    if c & 1 == 1 then (c >> 1) ^ POLY else c >> 1
  }

  function Steps(n: nat, c: bv64): bv64 {
    if n == 0 then c else Steps(n - 1, Step(c))
  }

  /** A bit step drops the lowest bit and xors the constant in when it was set. */
  lemma StepMeans(c: bv64)
    ensures Step(c) == if c % 2 == 1 then (c / 2) ^ 0xad93_d235_94c9_35a9 else c / 2
  {
    OddBit(c);
  }

  lemma OddBit(c: bv64)
    ensures c & 1 == c % 2 && c >> 1 == c / 2
  {
  }

  /** The checksum by definition: xor a byte in, shift eight times. */
  function Update(crc: bv64, data: Bytes): bv64
    decreases |data|
  {
    if data == [] then crc else Update(Steps(8, Xor(crc, Bits(data[0]))), data[1..])
  }

  // ---------- one step ----------

  lemma XorZero(a: bv64)
    ensures Xor(a, 0) == a && Xor(a, a) == 0
  {
  }

  lemma XorCancel(a: bv64, b: bv64, c: bv64)
    requires Xor(a, b) == Xor(a, c)
    ensures b == c
  {
  }

  lemma XorAssociative(a: bv64, b: bv64, c: bv64)
    ensures Xor(Xor(a, b), c) == Xor(a, Xor(b, c)) && Xor(a, b) == Xor(b, a)
  {
  }

  lemma XorMix(a: bv64, b: bv64, x: bv64, y: bv64)
    ensures Xor(Xor(a, b), Xor(x, y)) == Xor(Xor(a, x), Xor(b, y))
  {
    hide Xor;
    XorAssociative(a, b, Xor(x, y));
    XorAssociative(b, x, y);
    XorAssociative(x, b, y);
    XorAssociative(a, x, Xor(b, y));
    XorAssociative(b, x, x);
  }

  function Half(a: bv64): bv64 {
    a >> 1
  }

  function Mask(a: bv64): bv64 {
    if a & 1 == 1 then POLY else 0
  }

  lemma StepMask(a: bv64)
    ensures Step(a) == Xor(Half(a), Mask(a))
  {
    XorZero(Half(a));
  }

  lemma HalfLinear(a: bv64, b: bv64)
    ensures Half(Xor(a, b)) == Xor(Half(a), Half(b))
  {
  }

  lemma MaskLinear(a: bv64, b: bv64)
    ensures Mask(Xor(a, b)) == Xor(Mask(a), Mask(b))
  {
  }

  /** A shift distributes over xor. */
  lemma StepLinear(a: bv64, b: bv64)
    ensures Step(Xor(a, b)) == Xor(Step(a), Step(b))
  {
    hide Step, Xor, Half, Mask;
    StepMask(a);
    StepMask(b);
    StepMask(Xor(a, b));
    HalfLinear(a, b);
    MaskLinear(a, b);
    XorMix(Half(a), Half(b), Mask(a), Mask(b));
  }

  /** A shift can be undone: the constant's top bit tells whether it was xored in. */
  lemma StepInjective(a: bv64, b: bv64)
    requires Step(a) == Step(b)
    ensures a == b
  {
  }

  lemma {:induction false} StepsLinear(n: nat, a: bv64, b: bv64)
    ensures Steps(n, Xor(a, b)) == Xor(Steps(n, a), Steps(n, b))
  {
    hide Step, Xor;
    if n > 0 {
      StepLinear(a, b);
      StepsLinear(n - 1, Step(a), Step(b));
    }
  }

  lemma {:induction false} StepsInjective(n: nat, a: bv64, b: bv64)
    requires Steps(n, a) == Steps(n, b)
    ensures a == b
  {
    if n > 0 {
      StepsInjective(n - 1, Step(a), Step(b));
      StepInjective(a, b);
    }
  }

  lemma {:induction false} StepsAdd(m: nat, n: nat, c: bv64)
    ensures Steps(m + n, c) == Steps(n, Steps(m, c))
  {
    if m > 0 {
      StepsAdd(m - 1, n, Step(c));
    }
  }

  function Twice(a: bv64): bv64 {
    a << 1
  }

  predicate TopClear(a: bv64) {
    a >> 63 == 0
  }

  lemma StepTwice(a: bv64)
    requires TopClear(a)
    ensures Step(Twice(a)) == a
  {
  }

  lemma TwiceEight(a: bv64)
    requires a >> 56 == 0
    ensures ShiftUp(a) == Twice(Twice(Twice(Twice(Twice(Twice(Twice(Twice(a))))))))
    ensures var a1 := Twice(a); var a2 := Twice(a1); var a3 := Twice(a2); var a4 := Twice(a3);
      var a5 := Twice(a4); var a6 := Twice(a5); var a7 := Twice(a6);
      && TopClear(a) && TopClear(a1) && TopClear(a2) && TopClear(a3)
      && TopClear(a4) && TopClear(a5) && TopClear(a6) && TopClear(a7)
  {
  }

  lemma Steps8Is(c: bv64)
    ensures Steps(8, c) == Step(Step(Step(Step(Step(Step(Step(Step(c))))))))
  {
    hide Step;
    var c1 := Step(c); var c2 := Step(c1); var c3 := Step(c2); var c4 := Step(c3);
    var c5 := Step(c4); var c6 := Step(c5); var c7 := Step(c6);
    assert Steps(0, Step(c7)) == Step(c7);
    assert Steps(1, c7) == Step(c7);
    assert Steps(2, c6) == Step(c7);
    assert Steps(3, c5) == Step(c7);
    assert Steps(4, c4) == Step(c7);
    assert Steps(5, c3) == Step(c7);
    assert Steps(6, c2) == Step(c7);
    assert Steps(7, c1) == Step(c7);
  }

  /** Eight shifts take back a shift by a byte that lost nothing. */
  lemma StepsShift(a: bv64)
    requires a >> 56 == 0
    ensures Steps(8, ShiftUp(a)) == a
  {
    hide Step, Twice, ShiftUp, Steps, TopClear;
    TwiceEight(a);
    Steps8Is(ShiftUp(a));
    var a1 := Twice(a); var a2 := Twice(a1); var a3 := Twice(a2); var a4 := Twice(a3);
    var a5 := Twice(a4); var a6 := Twice(a5); var a7 := Twice(a6);
    StepTwice(a); StepTwice(a1); StepTwice(a2); StepTwice(a3);
    StepTwice(a4); StepTwice(a5); StepTwice(a6); StepTwice(a7);
  }

  // ---------- table and pieces ----------

  /** The table-driven turn of `crc64_update`. */
  function TableTurn(crc: bv64, b: byte): bv64 {
    Xor(Steps(8, Xor(crc, Bits(b)) & 0xff), crc >> 8)
  }

  lemma SplitLow(crc: bv64, b: byte)
    ensures Xor(crc, Bits(b)) == Xor(Xor(crc, Bits(b)) & 0xff, ShiftUp(crc >> 8)) && (crc >> 8) >> 56 == 0
  {
  }

  /** One table lookup does what eight shifts do. */
  lemma TableTurnIsBitwise(crc: bv64, b: byte)
    ensures TableTurn(crc, b) == Steps(8, Xor(crc, Bits(b)))
  {
    SplitLow(crc, b);
    StepsShift(crc >> 8);
    hide Xor, Steps, ShiftUp, Bits;
    StepsLinear(8, Xor(crc, Bits(b)) & 0xff, ShiftUp(crc >> 8));
  }

  /** Updating in pieces is updating with the pieces joined. */
  lemma {:induction false} UpdateJoin(crc: bv64, a: Bytes, b: Bytes)
    ensures Update(crc, a + b) == Update(Update(crc, a), b)
    decreases |a|
  {
    if a == [] {
      assert a + b == b;
    } else {
      hide Xor, Steps, Bits;
      assert (a + b)[1..] == a[1..] + b;
      UpdateJoin(Steps(8, Xor(crc, Bits(a[0]))), a[1..], b);
    }
  }

  /** The table index. */
  function LowByte(c: bv64): byte {
    ((c & 0xff) as bv8) as int
  }

  lemma ByteBack(x: bv8)
    ensures (x as int) as bv8 == x
  {
  }

  lemma LowByteBits(c: bv64)
    ensures Bits(LowByte(c)) == c & 0xff
  {
    ByteBack((c & 0xff) as bv8);
  }

  ghost predicate IsTable(table: array<bv64>)
    reads table
  {
    table.Length == 256 && forall i: byte :: table[i] == Steps(8, Bits(i))
  }

  /** `crc64_init`: the table by shifting each of the 256 byte values eight times. */
  method BuildTable() returns (table: array<bv64>)
    ensures fresh(table) && IsTable(table)
  {
    table := new bv64[256];
    var i := 0;
    while i < 256
      invariant 0 <= i <= 256
      invariant forall k: byte :: k < i ==> table[k] == Steps(8, Bits(k))
    {
      var crc := Bits(i);
      var j := 0;
      while j < 8
        invariant 0 <= j <= 8 && Steps(8, Bits(i)) == Steps(8 - j, crc)
      {
        crc := if crc & 1 == 1 then (crc >> 1) ^ POLY else crc >> 1;
        j := j + 1;
      }
      table[i] := crc;
      i := i + 1;
    }
  }

  /** `crc64_update`, by table. */
  method Crc64Update(table: array<bv64>, start: bv64, data: Bytes) returns (crc: bv64)
    requires IsTable(table)
    ensures crc == Update(start, data)
  {
    crc := start;
    for i := 0 to |data|
      invariant Update(start, data) == Update(crc, data[i..])
    {
      hide Steps, Bits, LowByte, Xor;
      TableTurnIsBitwise(crc, data[i]);
      LowByteBits(Xor(crc, Bits(data[i])));
      assert data[i..][1..] == data[i + 1..];
      crc := Xor(table[LowByte(Xor(crc, Bits(data[i])))], crc >> 8);
    }
  }

  // ---------- what the checksum detects ----------

  /** Different states stay different under the same bytes. */
  lemma {:induction false} UpdateInjective(c: bv64, c': bv64, data: Bytes)
    requires Update(c, data) == Update(c', data)
    ensures c == c'
    decreases |data|
  {
    if data != [] {
      hide Xor, Steps, Bits;
      var b := Bits(data[0]);
      UpdateInjective(Steps(8, Xor(c, b)), Steps(8, Xor(c', b)), data[1..]);
      StepsInjective(8, Xor(c, b), Xor(c', b));
      XorAssociative(b, c, c);
      XorAssociative(b, c', c');
      XorCancel(b, c, c');
    }
  }

  /** Up to eight bytes as one word, the first byte lowest. */
  function Pack(w: Bytes): bv64 {
    if w == [] then 0 else Xor(Bits(w[0]), ShiftUp(Pack(w[1..])))
  }

  /** `x` fits in `k` bytes. */
  predicate Below(k: nat, x: bv64) {
    if k == 0 then x == 0
    else if k == 1 then x >> 8 == 0
    else if k == 2 then x >> 16 == 0
    else if k == 3 then x >> 24 == 0
    else if k == 4 then x >> 32 == 0
    else if k == 5 then x >> 40 == 0
    else if k == 6 then x >> 48 == 0
    else if k == 7 then x >> 56 == 0
    else true
  }

  lemma BelowGrows(k: nat, x: bv64, b: byte)
    requires Below(k, x)
    ensures Below(k + 1, Xor(Bits(b), ShiftUp(x)))
  {
  }

  lemma BelowSeven(k: nat, x: bv64)
    requires k <= 7 && Below(k, x)
    ensures x >> 56 == 0
  {
  }

  lemma {:induction false} PackBelow(w: Bytes)
    ensures Below(|w|, Pack(w))
  {
    if w != [] {
      hide Below, Xor, Bits, ShiftUp;
      PackBelow(w[1..]);
      BelowGrows(|w| - 1, Pack(w[1..]), w[0]);
    }
  }

  lemma PackParts(b: byte, p: bv64, b': byte, p': bv64)
    requires p >> 56 == 0 && p' >> 56 == 0
    requires Xor(Bits(b), ShiftUp(p)) == Xor(Bits(b'), ShiftUp(p'))
    ensures b == b' && p == p'
  {
    PackSplit(b, p);
    PackSplit(b', p');
    assert Bits(b) == Bits(b');
    BitsInjective(b, b');
  }

  lemma PackSplit(b: byte, p: bv64)
    requires p >> 56 == 0
    ensures Xor(Bits(b), ShiftUp(p)) & 0xff == Bits(b) && Xor(Bits(b), ShiftUp(p)) >> 8 == p
  {
  }

  lemma WidenInjective(x: bv8, y: bv8)
    requires x as bv64 == y as bv64
    ensures x == y
  {
  }

  lemma BitsInjective(a: byte, b: byte)
    requires Bits(a) == Bits(b)
    ensures a == b
  {
    WidenInjective(a as bv8, b as bv8);
    NarrowBack(a);
    NarrowBack(b);
  }

  lemma {:induction false} PackInjective(w: Bytes, w': Bytes)
    requires |w| == |w'| <= 8 && Pack(w) == Pack(w')
    ensures w == w'
  {
    if w != [] {
      hide Below, Xor, Bits, ShiftUp;
      PackBelow(w[1..]);
      PackBelow(w'[1..]);
      BelowSeven(|w| - 1, Pack(w[1..]));
      BelowSeven(|w'| - 1, Pack(w'[1..]));
      PackParts(w[0], Pack(w[1..]), w'[0], Pack(w'[1..]));
      PackInjective(w[1..], w'[1..]);
      assert w == [w[0]] + w[1..] && w' == [w'[0]] + w'[1..];
    }
  }

  /** Up to eight bytes at once: xor the word in, then shift it all the way. */
  lemma {:induction false} UpdatePacked(c: bv64, w: Bytes)
    requires |w| <= 8
    ensures Update(c, w) == Steps(8 * |w|, Xor(c, Pack(w)))
    decreases |w|
  {
    if w == [] {
      XorZero(c);
    } else {
      var rest, b := w[1..], Bits(w[0]);
      PackBelow(rest);
      BelowSeven(|rest|, Pack(rest));
      StepsShift(Pack(rest));
      hide Xor, Bits, ShiftUp, Below, Steps;
      UpdatePacked(Steps(8, Xor(c, b)), rest);
      StepsAdd(8, 8 * |rest|, Xor(c, Pack(w)));
      XorAssociative(c, b, ShiftUp(Pack(rest)));
      StepsLinear(8, Xor(c, b), ShiftUp(Pack(rest)));
    }
  }

  /** Damage confined to eight neighbouring bytes always changes the checksum. */
  lemma BurstDetected(c: bv64, pre: Bytes, w: Bytes, w': Bytes, post: Bytes)
    requires |w| == |w'| <= 8 && w != w'
    ensures Update(c, pre + w + post) != Update(c, pre + w' + post)
  {
    hide Xor, Steps, Pack, Update;
    UpdateJoin(c, pre + w, post);
    UpdateJoin(c, pre + w', post);
    UpdateJoin(c, pre, w);
    UpdateJoin(c, pre, w');
    var d := Update(c, pre);
    if Update(c, pre + w + post) == Update(c, pre + w' + post) {
      UpdateInjective(Update(d, w), Update(d, w'), post);
      UpdatePacked(d, w);
      UpdatePacked(d, w');
      StepsInjective(8 * |w|, Xor(d, Pack(w)), Xor(d, Pack(w')));
      XorCancel(d, Pack(w), Pack(w'));
      PackInjective(w, w');
    }
  }
}
