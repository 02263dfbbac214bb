/** What bytes that have not arrived yet can and cannot change about a parse. */
module RespLaws {
  import opened Bytes
  import opened Resp

  // ---------- line ends and numbers ----------

  lemma {:induction false} FindCrlfStable(s: Bytes, t: Bytes)
    requires FindCrlf(s) >= 0
    ensures FindCrlf(s + t) == FindCrlf(s)
  {
    if !(s[0] == CR && s[1] == LF) {
      assert (s + t)[1..] == s[1..] + t;
      FindCrlfStable(s[1..], t);
    }
  }

  /** Only white space: then the number scan runs on past the end of the line. */
  predicate Blank(h: Bytes) {
    forall i :: 0 <= i < |h| ==> IsSpace(h[i])
  }

  lemma {:induction false} DigitsStop(h: Bytes, t: Bytes, acc: nat)
    requires t != [] && !IsDigit(t[0])
    ensures Digits(h + t, acc) == Digits(h, acc)
  {
    if h == [] {
      assert h + t == t;
    } else {
      assert (h + t)[1..] == h[1..] + t;
      if IsDigit(h[0]) {
        DigitsStop(h[1..], t, 10 * acc + (h[0] - ZERO));
      }
    }
  }

  lemma {:induction false} SkipSpaceStop(h: Bytes, t: Bytes)
    requires !Blank(h)
    ensures SkipSpace(h) != [] && SkipSpace(h + t) == SkipSpace(h) + t
  {
    assert (h + t)[1..] == h[1..] + t;
    if IsSpace(h[0]) {
      SkipSpaceStop(h[1..], t);
    }
  }

  /** In a line that is not blank the number scan never reads past the end of the line. */
  lemma StrtolLine(h: Bytes, t: Bytes)
    requires !Blank(h)
    ensures Strtol(h + CRLF + t) == Strtol(h)
  {
    var s := SkipSpace(h);
    assert h + CRLF + t == h + (CRLF + t);
    SkipSpaceStop(h, CRLF + t);
    DigitsStop(s, CRLF + t, 0);
    DigitsStop(s[1..], CRLF + t, 0);
    assert (s + (CRLF + t))[1..] == s[1..] + (CRLF + t);
  }

  lemma {:induction false} SkipSpaceBlank(h: Bytes, t: Bytes)
    requires Blank(h)
    ensures SkipSpace(h + t) == SkipSpace(t)
  {
    if h == [] {
      assert h + t == t;
    } else {
      assert (h + t)[1..] == h[1..] + t;
      SkipSpaceBlank(h[1..], t);
    }
  }

  /** A header's number depends on what follows the header exactly when the header is blank. */
  lemma StrtolStable(h: Bytes)
    ensures (forall t, t' :: Strtol(h + CRLF + t) == Strtol(h + CRLF + t')) <==> !Blank(h)
  {
    if Blank(h) {
      var none: Bytes, one: Bytes := [], [ZERO + 1];
      forall t: Bytes
        ensures SkipSpace(h + CRLF + t) == SkipSpace(t)
      {
        SkipSpaceBlank(h + CRLF, t);
      }
      assert Strtol(h + CRLF + none) == 0;
      assert Digits(one, 0) == 1 by { assert one[1..] == []; }
      assert Strtol(h + CRLF + one) == 1;
    } else {
      forall t, t'
        ensures Strtol(h + CRLF + t) == Strtol(h + CRLF + t')
      {
        StrtolLine(h, t);
        StrtolLine(h, t');
      }
    }
  }

  /** The number in the header line at the front of `s`, whose first byte is a marker. */
  lemma HeaderStable(s: Bytes, t: Bytes)
    requires FindCrlf(s) > 0 && !Blank(s[1..FindCrlf(s)])
    ensures FindCrlf(s + t) == FindCrlf(s) && Strtol((s + t)[1..]) == Strtol(s[1..])
  {
    FindCrlfStable(s, t);
    var c := FindCrlf(s);
    var h := s[1..c];
    assert s[1..] == h + CRLF + s[c + 2..];
    assert (s + t)[1..] == h + CRLF + (s[c + 2..] + t);
    StrtolLine(h, s[c + 2..]);
    StrtolLine(h, s[c + 2..] + t);
  }

  /** Behind a blank header line the number is read from whatever comes next. */
  lemma BlankNumber(h: Bytes, t: Bytes)
    requires Blank(h)
    ensures Strtol(h + CRLF + t) == Strtol(t)
  {
    SkipSpaceBlank(h + CRLF, t);
  }

  // ---------- buffers whose headers carry something ----------

  predicate ItemClear(p: Bytes) {
    |p| >= 3 && p[0] == DOLLAR && FindCrlf(p) >= 0 ==> FindCrlf(p) > 0 && !Blank(p[1..FindCrlf(p)])
  }

  predicate ItemsClear(p: Bytes, n: nat) {
    n == 0 || (ItemClear(p) && (ParseItem(p).status.Ok? ==> ItemsClear(ParseItem(p).rest, n - 1)))
  }

  /** No header line that a parse of the buffer reads is blank. */
  predicate Clear(buf: Bytes) {
    buf != [] && buf[0] == STAR && FindCrlf(buf) >= 0 ==>
      && FindCrlf(buf) > 0 && !Blank(buf[1..FindCrlf(buf)])
      && (Strtol(buf[1..]) > 0 ==> ItemsClear(buf[FindCrlf(buf) + 2..], Strtol(buf[1..])))
  }

  // ---------- prefix stability ----------

  lemma CutEarly(s: Bytes, t: Bytes, k: nat)
    requires k <= |s|
    ensures (s + t)[..k] == s[..k] && (s + t)[k..] == s[k..] + t
  {
  }

  lemma ItemStable(p: Bytes, t: Bytes)
    requires ItemClear(p) && !ParseItem(p).status.Incomplete?
    ensures var r := ParseItem(p); ParseItem(p + t) == Item(r.status, r.arg, r.rest + t)
  {
    hide FindCrlf, Strtol, Blank;
    if p[0] == DOLLAR {
      HeaderStable(p, t);
      var q := p[FindCrlf(p) + 2..];
      CutEarly(p, t, FindCrlf(p) + 2);
      var slen := Strtol(p[1..]);
      if slen >= 0 {
        CutEarly(q, t, slen);
        CutEarly(q, t, slen + 2);
      }
    }
  }

  lemma {:induction false} ItemsStable(p: Bytes, n: nat, t: Bytes)
    requires ItemsClear(p, n) && !ParseItems(p, n).status.Incomplete?
    ensures var r := ParseItems(p, n); ParseItems(p + t, n) == Items(r.status, r.args, r.rest + t)
    decreases n
  {
    hide ParseItem, ItemClear;
    if n > 0 {
      ItemStable(p, t);
      var one := ParseItem(p);
      if one.status.Ok? {
        ItemsStable(one.rest, n - 1, t);
      }
    }
  }

  /** A buffer that parses to a command or to an error keeps doing so, with the same arguments and
      the same length, whatever arrives behind it. */
  lemma ParseStable(buf: Bytes, t: Bytes)
    requires Clear(buf) && !Parse(buf).status.Incomplete?
    ensures Parse(buf + t) == Parse(buf)
  {
    FindCrlfStable(buf, t);
    var c := FindCrlf(buf);
    assert (buf + t)[..c] == buf[..c];
    if buf[0] == STAR {
      HeaderStable(buf, t);
      var argc, p := Strtol(buf[1..]), buf[c + 2..];
      assert (buf + t)[c + 2..] == p + t;
      if argc > 0 {
        ItemsStable(p, argc, t);
      }
    }
  }

  // ---------- progress ----------

  /** On success at least two bytes are consumed, and at most all of them. */
  lemma ParseProgress(buf: Bytes)
    requires Parse(buf).status.Ok?
    ensures 2 <= Parse(buf).consumed <= |buf| && Parse(buf).args != []
  {
    if buf[0] == STAR {
      var argc := Strtol(buf[1..]);
      assert ParseItems(buf[FindCrlf(buf) + 2..], argc).args != [];
    }
  }

  // ---------- prefixes ----------

  lemma ItemClearPrefix(p: Bytes, t: Bytes)
    requires ItemClear(p + t)
    ensures ItemClear(p)
  {
    if |p| >= 3 && p[0] == DOLLAR && FindCrlf(p) >= 0 {
      FindCrlfStable(p, t);
      assert (p + t)[1..FindCrlf(p)] == p[1..FindCrlf(p)];
    }
  }

  lemma {:induction false} ItemsClearPrefix(p: Bytes, t: Bytes, n: nat)
    requires ItemsClear(p + t, n)
    ensures ItemsClear(p, n)
    decreases n
  {
    hide ParseItem, ItemClear;
    if n > 0 {
      ItemClearPrefix(p, t);
      if ParseItem(p).status.Ok? {
        ItemStable(p, t);
        ItemsClearPrefix(ParseItem(p).rest, t, n - 1);
      }
    }
  }

  lemma ClearPrefix(buf: Bytes, t: Bytes)
    requires Clear(buf + t)
    ensures Clear(buf)
  {
    if buf != [] && buf[0] == STAR && FindCrlf(buf) >= 0 {
      FindCrlfStable(buf, t);
      var c := FindCrlf(buf);
      assert (buf + t)[1..c] == buf[1..c];
      HeaderStable(buf, t);
      assert (buf + t)[c + 2..] == buf[c + 2..] + t;
      if Strtol(buf[1..]) > 0 {
        ItemsClearPrefix(buf[c + 2..], t, Strtol(buf[1..]));
      }
    }
  }

  // ---------- round trip ----------

  /** `to_string` of a size. */
  function Decimal(n: nat): (s: Bytes)
    ensures s != [] && forall i :: 0 <= i < |s| ==> IsDigit(s[i])
  {
    if n < 10 then [ZERO + n] else Decimal(n / 10) + [ZERO + n % 10]
  }

  /** `resp_bulk`. */
  function Bulk(item: Bytes): Bytes {
    [DOLLAR] + Decimal(|item|) + CRLF + (item + CRLF)
  }

  function Bulks(items: seq<Bytes>): Bytes {
    if items == [] then [] else Bulk(items[0]) + Bulks(items[1..])
  }

  /** `resp_array`. */
  function Encode(items: seq<Bytes>): Bytes {
    [STAR] + Decimal(|items|) + CRLF + Bulks(items)
  }

  lemma {:induction false} BulksAppend(items: seq<Bytes>, item: Bytes)
    ensures Bulks(items + [item]) == Bulks(items) + Bulk(item)
  {
    if items == [] {
      assert items + [item] == [item] && [item][1..] == [];
      assert Bulk(item) + [] == Bulk(item);
    } else {
      assert (items + [item])[1..] == items[1..] + [item];
      BulksAppend(items[1..], item);
    }
  }

  /** The appending loop of `resp_array`. */
  method RespArray(items: seq<Bytes>) returns (out: Bytes)
    ensures out == Encode(items)
  {
    out := [STAR] + Decimal(|items|) + CRLF;
    for i := 0 to |items|
      invariant out == [STAR] + Decimal(|items|) + CRLF + Bulks(items[..i])
    {
      BulksAppend(items[..i], items[i]);
      assert items[..i + 1] == items[..i] + [items[i]];
      out := out + Bulk(items[i]);
    }
    assert items[..|items|] == items;
  }

  lemma {:induction false} DigitsDecimal(n: nat, t: Bytes)
    ensures Digits(Decimal(n) + t, 0) == Digits(t, n)
  {
    if n < 10 {
      assert ([ZERO + n] + t)[1..] == t;
    } else {
      var d: Bytes := [ZERO + n % 10];
      DigitsDecimal(n / 10, d + t);
      assert Decimal(n) + t == Decimal(n / 10) + (d + t);
      assert (d + t)[1..] == t;
    }
  }

  lemma {:induction false} FindCrlfAfter(h: Bytes, t: Bytes)
    requires CR !in h
    ensures FindCrlf(h + CRLF + t) == |h|
  {
    if h != [] {
      assert (h + CRLF + t)[1..] == h[1..] + CRLF + t;
      FindCrlfAfter(h[1..], t);
    }
  }

  /** Reading back a header line written from a size. */
  lemma HeaderReads(marker: byte, n: nat, t: Bytes)
    requires marker != CR
    ensures var s := [marker] + Decimal(n) + CRLF + t;
      && FindCrlf(s) == 1 + |Decimal(n)| && s[FindCrlf(s) + 2..] == t
      && Strtol(s[1..]) == n && !Blank(s[1..FindCrlf(s)])
  {
    var d := Decimal(n);
    var s := [marker] + d + CRLF + t;
    FindCrlfAfter([marker] + d, t);
    assert s[1..1 + |d|] == d && s[1..] == d + (CRLF + t);
    assert IsDigit(d[0]) && !IsSpace(d[0]);
    DigitsDecimal(n, CRLF + t);
  }

  lemma ItemReads(item: Bytes, t: Bytes)
    ensures ParseItem(Bulk(item) + t) == Item(Ok, item, t) && ItemClear(Bulk(item) + t)
  {
    var body := item + CRLF + t;
    assert Bulk(item) + t == [DOLLAR] + Decimal(|item|) + CRLF + body;
    HeaderReads(DOLLAR, |item|, body);
    assert body[..|item|] == item && body[|item| + 2..] == t;
  }

  lemma {:induction false} ItemsRead(items: seq<Bytes>, t: Bytes)
    ensures ParseItems(Bulks(items) + t, |items|) == Items(Ok, items, t)
    ensures ItemsClear(Bulks(items) + t, |items|)
  {
    hide ParseItem, ItemClear, Bulk;
    if items == [] {
      assert Bulks(items) + t == t;
    } else {
      assert Bulks(items) + t == Bulk(items[0]) + (Bulks(items[1..]) + t);
      ItemReads(items[0], Bulks(items[1..]) + t);
      ItemsRead(items[1..], t);
      assert items == [items[0]] + items[1..];
    }
  }

  /** Parsing what `resp_array` printed gives the arguments back and stops where the encoding ends;
      only the empty array, which is no command, does not come back. */
  lemma RoundTrip(items: seq<Bytes>, t: Bytes)
    ensures Parse(Encode(items) + t) == if items != [] then Result(Ok, items, |Encode(items)|) else Result(Error, [], 0)
    ensures Clear(Encode(items) + t)
  {
    var body := Bulks(items) + t;
    assert Encode(items) + t == [STAR] + Decimal(|items|) + CRLF + body;
    HeaderReads(STAR, |items|, body);
    ItemsRead(items, t);
  }

  /** Every proper prefix of an encoding is incomplete. */
  lemma PrefixIncomplete(items: seq<Bytes>, k: nat)
    requires items != [] && k < |Encode(items)|
    ensures Parse(Encode(items)[..k]).status.Incomplete?
  {
    hide Parse, Encode, Clear;
    var e := Encode(items);
    var buf, t := e[..k], e[k..];
    assert buf + t == e + [] == e;
    RoundTrip(items, []);
    ClearPrefix(buf, t);
    if !Parse(buf).status.Incomplete? {
      ParseStable(buf, t);
      ParseProgress(buf);
    }
  }

  // ---------- blank headers ----------

  /** The line of a header: it ends at its own line end and not before. */
  predicate HeaderLine(marker: byte, h: Bytes) {
    FindCrlf([marker] + h + CRLF) == 1 + |h|
  }

  const NINE: byte := 57

  lemma StrtolNine()
    ensures Strtol([NINE]) == 9 && Strtol([]) == 0
  {
    var s: Bytes := [NINE];
    assert s[1..] == [];
    assert Digits(s[1..], 9) == 9;
  }

  /** Every blank count line is an error, until a digit arrives behind it. */
  lemma BlankCountUnstable(h: Bytes)
    requires Blank(h) && HeaderLine(STAR, h)
    ensures var buf := [STAR] + h + CRLF;
      Parse(buf).status.Error? && Parse(buf + [NINE]).status.Incomplete?
  {
    var buf, nine: Bytes := [STAR] + h + CRLF, [NINE];
    assert buf[1..] == h + CRLF + [] && (buf + nine)[1..] == h + CRLF + nine;
    BlankNumber(h, []);
    BlankNumber(h, nine);
    StrtolNine();
    FindCrlfStable(buf, nine);
    assert (buf + nine)[|h| + 3..] == nine;
    assert ParseItem(nine).status.Incomplete?;
  }

  lemma BulksFirst(items: seq<Bytes>, t: Bytes)
    requires items != []
    ensures Bulks(items) + t == Bulk(items[0]) + (Bulks(items[1..]) + t)
  {
  }

  lemma FirstAppend<T>(a: seq<T>, b: seq<T>)
    requires a != []
    ensures a + b == [a[0]] + (a[1..] + b)
  {
  }

  lemma ItemsStep(p: Bytes, n: nat)
    requires n > 0 && ParseItem(p).status.Ok?
    ensures var one := ParseItem(p);
      var more := ParseItems(one.rest, n - 1);
      ParseItems(p, n) == Items(more.status, [one.arg] + more.args, more.rest)
  {
  }

  /** Strings at the front are read, and then the rest. */
  lemma {:induction false} ItemsBefore(items: seq<Bytes>, t: Bytes, n: nat)
    ensures var r, all := ParseItems(t, n), ParseItems(Bulks(items) + t, |items| + n);
      all.status == r.status && all.args == items + r.args && all.rest == r.rest
  {
    hide ParseItem, ParseItems, Bulk, ItemClear;
    if items == [] {
      assert Bulks(items) + t == t && items + ParseItems(t, n).args == ParseItems(t, n).args;
    } else {
      hide Bulks;
      var first, rest := items[0], items[1..];
      var p := Bulks(rest) + t;
      BulksFirst(items, t);
      ItemReads(first, p);
      ItemsStep(Bulk(first) + p, |items| + n);
      ItemsBefore(rest, t, n);
      FirstAppend(items, ParseItems(t, n).args);
    }
  }

  /** A string whose length line is blank, and nothing behind it but a line end. */
  function BlankBulk(h: Bytes): Bytes {
    [DOLLAR] + h + CRLF + CRLF
  }

  lemma BlankLength(h: Bytes, t: Bytes)
    requires Blank(h)
    ensures Strtol((BlankBulk(h) + t)[1..]) == Strtol(t)
  {
    assert (BlankBulk(h) + t)[1..] == h + CRLF + (CRLF + t);
    BlankNumber(h, CRLF + t);
    assert [] + CRLF + t == CRLF + t;
    BlankNumber([], t);
  }

  lemma BlankBody(h: Bytes, t: Bytes)
    requires HeaderLine(DOLLAR, h)
    ensures var s := BlankBulk(h) + t;
      |s| >= 3 && s[0] == DOLLAR && FindCrlf(s) == 1 + |h| && s[|h| + 3..] == CRLF + t
  {
    assert BlankBulk(h) + t == [DOLLAR] + h + CRLF + (CRLF + t);
    FindCrlfStable([DOLLAR] + h + CRLF, CRLF + t);
  }

  /** The string is empty, until a digit arrives: then the digit is its length. */
  lemma BlankBulkReads(h: Bytes)
    requires Blank(h) && HeaderLine(DOLLAR, h)
    ensures ParseItem(BlankBulk(h)) == Item(Ok, [], []) && ParseItem(BlankBulk(h) + [NINE]).status.Incomplete?
  {
    hide FindCrlf, Strtol, Blank, BlankBulk;
    BlankLength(h, []);
    BlankLength(h, [NINE]);
    BlankBody(h, []);
    BlankBody(h, [NINE]);
    StrtolNine();
    assert BlankBulk(h) + [] == BlankBulk(h);
  }

  /** A command whose last length line is blank. */
  function BlankCommand(items: seq<Bytes>, h: Bytes): Bytes {
    [STAR] + Decimal(|items| + 1) + CRLF + (Bulks(items) + BlankBulk(h))
  }

  /** Every such command ends in an empty string, until a digit arrives. */
  lemma BlankLengthUnstable(items: seq<Bytes>, h: Bytes)
    requires Blank(h) && HeaderLine(DOLLAR, h)
    ensures var buf := BlankCommand(items, h);
      Parse(buf) == Result(Ok, items + [[]], |buf|) && Parse(buf + [NINE]).status.Incomplete?
  {
    hide Strtol, FindCrlf, ParseItem, BlankBulk, Blank, Decimal, Bulks;
    var s, d: Bytes := BlankBulk(h), [NINE];
    var p := Bulks(items) + s;
    var buf := BlankCommand(items, h);
    HeaderReads(STAR, |items| + 1, p);
    HeaderReads(STAR, |items| + 1, p + d);
    assert buf + d == [STAR] + Decimal(|items| + 1) + CRLF + (p + d);
    BlankBulkReads(h);
    ItemsBefore(items, s, 1);
    ItemsBefore(items, s + d, 1);
    assert p + d == Bulks(items) + (s + d);
    assert ParseItems(s, 1).args == [[]] by { assert [[]] + ParseItems([], 0).args == [[]]; }
  }

  /** The length lines behind a count line are not blank. */
  predicate CountClear(h: Bytes, t: Bytes) {
    var argc := Strtol(h + CRLF + t);
    argc > 0 ==> ItemsClear(t, argc)
  }

  lemma CountLine(h: Bytes, t: Bytes)
    requires HeaderLine(STAR, h)
    ensures var buf := [STAR] + h + CRLF + t;
      Clear(buf) <==> !Blank(h) && CountClear(h, t)
  {
    var buf := [STAR] + h + CRLF + t;
    FindCrlfStable([STAR] + h + CRLF, t);
    assert buf[1..] == h + CRLF + t && buf[1..1 + |h|] == h && buf[|h| + 3..] == t;
  }

  /** A count line is safe to read as soon as it is complete exactly when it is not blank: then, and
      only then, is every answer to a request that begins with it final. */
  lemma CountLineExact(h: Bytes)
    requires HeaderLine(STAR, h)
    ensures (forall t, t' :: var buf := [STAR] + h + CRLF + t;
               CountClear(h, t) && !Parse(buf).status.Incomplete? ==> Parse(buf + t') == Parse(buf))
       <==> !Blank(h)
  {
    if Blank(h) {
      var buf := [STAR] + h + CRLF + [];
      BlankCountUnstable(h);
      assert buf == [STAR] + h + CRLF;
      BlankNumber(h, []);
      StrtolNine();
      assert CountClear(h, []);
      assert Parse(buf + [NINE]) != Parse(buf);
    } else {
      forall t, t' | var buf := [STAR] + h + CRLF + t; CountClear(h, t) && !Parse(buf).status.Incomplete?
        ensures var buf := [STAR] + h + CRLF + t; Parse(buf + t') == Parse(buf)
      {
        CountLine(h, t);
        ParseStable([STAR] + h + CRLF + t, t');
      }
    }
  }

  /** The same for the length line of a bulk string. */
  lemma LengthLineExact(h: Bytes)
    requires HeaderLine(DOLLAR, h)
    ensures (forall t, t' :: var p := [DOLLAR] + h + CRLF + t;
               var r := ParseItem(p);
               !r.status.Incomplete? ==> ParseItem(p + t') == Item(r.status, r.arg, r.rest + t'))
       <==> !Blank(h)
  {
    if Blank(h) {
      BlankBulkReads(h);
      assert BlankBulk(h) == [DOLLAR] + h + CRLF + CRLF;
    } else {
      forall t, t' | !ParseItem([DOLLAR] + h + CRLF + t).status.Incomplete?
        ensures var p := [DOLLAR] + h + CRLF + t;
          var r := ParseItem(p); ParseItem(p + t') == Item(r.status, r.arg, r.rest + t')
      {
        var p := [DOLLAR] + h + CRLF + t;
        FindCrlfStable([DOLLAR] + h + CRLF, t);
        assert p[1..1 + |h|] == h;
        ItemStable(p, t');
      }
    }
  }

  // ---------- a length line inside a command ----------

  /** A string from its length line on, and whatever follows. */
  function StringStream(h: Bytes, t: Bytes): Bytes {
    [DOLLAR] + h + CRLF + t
  }

  /** A count line, and whatever follows. */
  function CountStream(count: nat, p: Bytes): Bytes {
    [STAR] + Decimal(count) + CRLF + p
  }

  lemma CountStreamReads(count: nat, p: Bytes)
    ensures var buf := CountStream(count, p);
      && buf != [] && buf[0] == STAR && FindCrlf(buf) > 0 && !Blank(buf[1..FindCrlf(buf)])
      && buf[FindCrlf(buf) + 2..] == p && Strtol(buf[1..]) == count
  {
    hide FindCrlf, Strtol, Blank, Decimal;
    HeaderReads(STAR, count, p);
  }

  /** A command of `n` strings more than these and the one whose length line is `h`. */
  function LengthStream(items: seq<Bytes>, n: nat, h: Bytes, t: Bytes): Bytes {
    CountStream(|items| + 1 + n, Bulks(items) + StringStream(h, t))
  }

  lemma LengthStreamAppend(items: seq<Bytes>, n: nat, h: Bytes, t: Bytes, t': Bytes)
    ensures LengthStream(items, n, h, t) + t' == LengthStream(items, n, h, t + t')
  {
    hide Decimal, Bulks;
    var head, p := [STAR] + Decimal(|items| + 1 + n) + CRLF, StringStream(h, t);
    assert p + t' == StringStream(h, t + t');
    hide StringStream;
    assert Bulks(items) + p + t' == Bulks(items) + (p + t');
    assert head + (Bulks(items) + p) + t' == head + (Bulks(items) + p + t');
  }

  /** The length lines behind this one are not blank. */
  predicate LengthClear(n: nat, h: Bytes, t: Bytes) {
    var slen := Strtol(h + CRLF + t);
    0 <= slen <= |t| - 2 ==> ItemsClear(t[slen + 2..], n)
  }

  lemma {:induction false} ItemsClearBefore(items: seq<Bytes>, p: Bytes, n: nat)
    ensures ItemsClear(Bulks(items) + p, |items| + n) <==> ItemsClear(p, n)
  {
    hide ParseItem, Bulk, ItemClear;
    if items == [] {
      assert Bulks(items) + p == p;
    } else {
      BulksFirst(items, p);
      ItemReads(items[0], Bulks(items[1..]) + p);
      ItemsClearBefore(items[1..], p, n);
    }
  }

  lemma LengthHere(h: Bytes, t: Bytes)
    requires HeaderLine(DOLLAR, h)
    ensures var p := StringStream(h, t);
      && |p| >= 3 && p[0] == DOLLAR && FindCrlf(p) == 1 + |h| && p[1..1 + |h|] == h
      && p[|h| + 3..] == t && p[1..] == h + CRLF + t
  {
    FindCrlfStable([DOLLAR] + h + CRLF, t);
  }

  lemma StringClear(n: nat, h: Bytes, t: Bytes)
    requires HeaderLine(DOLLAR, h)
    ensures ItemsClear(StringStream(h, t), n + 1) <==> !Blank(h) && LengthClear(n, h, t)
  {
    hide FindCrlf, Strtol, Blank, StringStream;
    LengthHere(h, t);
  }

  lemma LengthLine(items: seq<Bytes>, n: nat, h: Bytes, t: Bytes)
    requires HeaderLine(DOLLAR, h)
    ensures Clear(LengthStream(items, n, h, t)) <==> !Blank(h) && LengthClear(n, h, t)
  {
    hide FindCrlf, Strtol, Blank, CountStream, Bulks, StringStream, ItemsClear, LengthClear;
    CountStreamReads(|items| + 1 + n, Bulks(items) + StringStream(h, t));
    ItemsClearBefore(items, StringStream(h, t), n + 1);
    StringClear(n, h, t);
  }

  /** A line end and a gap that is not yet the white space before a number. */
  const GAP: Bytes := [CR, LF, SPACE, SPACE, SPACE]

  lemma GapNumber(h: Bytes)
    requires Blank(h)
    ensures Strtol(h + CRLF + GAP) == 0 && Strtol(h + CRLF + (GAP + [NINE])) == 9
  {
    BlankNumber(h, GAP);
    BlankNumber(h, GAP + [NINE]);
    SkipSpaceBlank(GAP, []);
    SkipSpaceBlank(GAP, [NINE]);
    StrtolNine();
    assert GAP + [] == GAP;
  }

  lemma GapItem(h: Bytes)
    requires Blank(h) && HeaderLine(DOLLAR, h)
    ensures ParseItem(StringStream(h, GAP)) == Item(Ok, [], [SPACE, SPACE, SPACE])
    ensures ParseItem(StringStream(h, GAP + [NINE])).status.Incomplete?
  {
    hide FindCrlf, Strtol, Blank, StringStream;
    GapNumber(h);
    LengthHere(h, GAP);
    LengthHere(h, GAP + [NINE]);
  }

  lemma LengthStreamStatus(items: seq<Bytes>, n: nat, h: Bytes, t: Bytes)
    ensures Parse(LengthStream(items, n, h, t)).status == ParseItems(StringStream(h, t), n + 1).status
  {
    hide Strtol, FindCrlf, Blank, Bulks, CountStream, StringStream, ParseItems;
    CountStreamReads(|items| + 1 + n, Bulks(items) + StringStream(h, t));
    ItemsBefore(items, StringStream(h, t), n + 1);
  }

  lemma GapItems(n: nat, h: Bytes)
    requires Blank(h) && HeaderLine(DOLLAR, h)
    ensures !ParseItems(StringStream(h, GAP), n + 1).status.Incomplete?
    ensures ParseItems(StringStream(h, GAP + [NINE]), n + 1).status.Incomplete?
  {
    hide StringStream, Blank;
    GapItem(h);
    assert n > 0 ==> ParseItem([SPACE, SPACE, SPACE]).status.Error?;
  }

  /** A blank length line anywhere in a command gives an answer that a digit takes back. */
  lemma LengthUnstable(items: seq<Bytes>, n: nat, h: Bytes)
    requires Blank(h) && HeaderLine(DOLLAR, h)
    ensures !Parse(LengthStream(items, n, h, GAP)).status.Incomplete?
    ensures Parse(LengthStream(items, n, h, GAP + [NINE])).status.Incomplete?
    ensures LengthClear(n, h, GAP + [NINE])
  {
    GapNumber(h);
    hide Blank, StringStream, LengthStream;
    GapItems(n, h);
    LengthStreamStatus(items, n, h, GAP);
    LengthStreamStatus(items, n, h, GAP + [NINE]);
  }

  // ---------- when an answer is final ----------

  predicate AllDigits(s: Bytes) {
    forall i :: 0 <= i < |s| ==> IsDigit(s[i])
  }

  /** The number scan runs to the end of the bytes: white space, a sign, digits, and nothing behind them. */
  predicate Open(s: Bytes) {
    var u := SkipSpace(s);
    AllDigits(if u != [] && (u[0] == MINUS || u[0] == PLUS) then u[1..] else u)
  }

  predicate Negative(s: Bytes) {
    var u := SkipSpace(s);
    u != [] && u[0] == MINUS
  }

  /** No length that was read and accepted can still change: the scan of each ended before the bytes did.
      When only a refusal is at stake, a minus sign is as good. */
  predicate ItemsSettled(p: Bytes, n: nat, refusal: bool)
    decreases n
  {
    n > 0 && ParseItem(p).status.Ok? ==>
      if Open(p[1..]) then refusal && Negative(p[1..]) else ItemsSettled(ParseItem(p).rest, n - 1, refusal)
  }

  /** No number that was read can still change the answer. A count whose scan ran to the end of the bytes
      stays refused if it has a minus sign or two bytes behind its line. */
  predicate Settled(buf: Bytes, refusal: bool) {
    buf != [] && buf[0] == STAR && FindCrlf(buf) >= 0 ==>
      var argc, p := Strtol(buf[1..]), buf[FindCrlf(buf) + 2..];
      if Open(buf[1..]) then Negative(buf[1..]) || |p| >= 2
      else argc > 0 ==> ItemsSettled(p, argc, refusal)
  }

  lemma {:induction false} DigitsClosed(s: Bytes, t: Bytes, acc: nat)
    requires !AllDigits(s)
    ensures Digits(s + t, acc) == Digits(s, acc)
  {
    if IsDigit(s[0]) {
      assert (s + t)[1..] == s[1..] + t;
      assert !AllDigits(s[1..]) by {
        var i :| 0 <= i < |s| && !IsDigit(s[i]);
        assert s[1..][i - 1] == s[i];
      }
      DigitsClosed(s[1..], t, 10 * acc + (s[0] - ZERO));
    }
  }

  lemma {:induction false} SkipSpaceClosed(s: Bytes, t: Bytes)
    requires SkipSpace(s) != []
    ensures SkipSpace(s + t) == SkipSpace(s) + t
  {
    assert (s + t)[1..] == s[1..] + t;
    if IsSpace(s[0]) {
      SkipSpaceClosed(s[1..], t);
    }
  }

  /** A scan that ended before the bytes did is final. */
  lemma StrtolClosed(s: Bytes, t: Bytes)
    requires !Open(s)
    ensures Strtol(s + t) == Strtol(s)
  {
    var u := SkipSpace(s);
    SkipSpaceClosed(s, t);
    if u[0] == MINUS || u[0] == PLUS {
      assert (u + t)[1..] == u[1..] + t;
      DigitsClosed(u[1..], t, 0);
    } else {
      DigitsClosed(u, t, 0);
    }
  }

  function Nines(k: nat): Bytes {
    if k == 0 then [] else [NINE] + Nines(k - 1)
  }

  lemma {:induction false} DigitsJoin(s: Bytes, t: Bytes, acc: nat)
    requires AllDigits(s)
    ensures Digits(s + t, acc) == Digits(t, Digits(s, acc))
  {
    if s == [] {
      assert s + t == t;
    } else {
      assert (s + t)[1..] == s[1..] + t;
      DigitsJoin(s[1..], t, 10 * acc + (s[0] - ZERO));
    }
  }

  lemma {:induction false} NinesGrow(k: nat, acc: nat)
    ensures |Nines(k)| == k && Digits(Nines(k), acc) >= 9 * k + acc
  {
    if k > 0 {
      assert Nines(k)[1..] == Nines(k - 1);
      NinesGrow(k - 1, 10 * acc + 9);
    }
  }

  /** An open scan without a minus sign can be driven past any number of bytes. */
  lemma OpenGrows(s: Bytes, k: nat)
    requires Open(s) && !Negative(s)
    ensures Strtol(s + Nines(k)) >= 9 * k
  {
    var u := SkipSpace(s);
    NinesGrow(k, 0);
    if u == [] {
      SpaceOnly(s, Nines(k));
      if k > 0 {
        assert Nines(k)[0] == NINE && SkipSpace(Nines(k)) == Nines(k);
      }
    } else {
      SkipSpaceClosed(s, Nines(k));
      var v := if u[0] == PLUS then u[1..] else u;
      assert u[0] == PLUS ==> (u + Nines(k))[1..] == v + Nines(k);
      DigitsJoin(v, Nines(k), 0);
      NinesGrow(k, Digits(v, 0));
    }
  }

  lemma {:induction false} SpaceOnly(s: Bytes, t: Bytes)
    requires SkipSpace(s) == []
    ensures SkipSpace(s + t) == SkipSpace(t)
  {
    if s == [] {
      assert s + t == t;
    } else {
      assert (s + t)[1..] == s[1..] + t;
      SpaceOnly(s[1..], t);
    }
  }

  /** A minus sign stays, and a digit behind an open scan makes the number less than zero. */
  lemma NegativeStays(s: Bytes, t: Bytes)
    requires Negative(s)
    ensures Strtol(s + t) <= 0 && (Open(s) && t == Nines(1) ==> Strtol(s + t) < 0)
  {
    var u := SkipSpace(s);
    SkipSpaceClosed(s, t);
    assert (u + t)[1..] == u[1..] + t;
    if Open(s) && t == Nines(1) {
      DigitsJoin(u[1..], t, 0);
      NinesGrow(1, Digits(u[1..], 0));
    }
  }

  lemma NegativeKeeps(s: Bytes, t: Bytes)
    requires Strtol(s) < 0
    ensures Strtol(s + t) < 0
  {
    var u := SkipSpace(s);
    SkipSpaceClosed(s, t);
    assert (u + t)[1..] == u[1..] + t;
    if AllDigits(u[1..]) {
      DigitsJoin(u[1..], t, 0);
    } else {
      DigitsClosed(u[1..], t, 0);
    }
  }

  lemma SettledItem(p: Bytes, t: Bytes)
    requires !ParseItem(p).status.Incomplete? && (ParseItem(p).status.Ok? ==> !Open(p[1..]))
    ensures var r := ParseItem(p); ParseItem(p + t) == Item(r.status, r.arg, r.rest + t)
  {
    hide FindCrlf, Strtol, Open;
    if p[0] == DOLLAR {
      if Strtol(p[1..]) < 0 {
        NegativeKeeps(p[1..], t);
        assert (p + t)[1..] == p[1..] + t;
        FindCrlfStable(p, t);
      } else {
        AcceptedItem(p, t);
      }
    }
  }

  lemma AcceptedItem(p: Bytes, t: Bytes)
    requires ParseItem(p).status.Ok? && !Open(p[1..])
    ensures var r := ParseItem(p); ParseItem(p + t) == Item(Ok, r.arg, r.rest + t)
  {
    hide FindCrlf, Strtol, Open;
    var crlf, slen := FindCrlf(p), Strtol(p[1..]);
    FindCrlfStable(p, t);
    StrtolClosed(p[1..], t);
    assert (p + t)[1..] == p[1..] + t;
    CutEarly(p, t, crlf + 2);
    CutEarly(p[crlf + 2..], t, slen);
    CutEarly(p[crlf + 2..], t, slen + 2);
  }

  lemma {:induction false} SettledItems(p: Bytes, n: nat, t: Bytes)
    requires ItemsSettled(p, n, false) && !ParseItems(p, n).status.Incomplete?
    ensures var r := ParseItems(p, n); ParseItems(p + t, n) == Items(r.status, r.args, r.rest + t)
    decreases n
  {
    hide ParseItem, Open;
    if n > 0 {
      SettledItem(p, t);
      if ParseItem(p).status.Ok? {
        SettledItems(ParseItem(p).rest, n - 1, t);
      }
    }
  }

  /** The parts of a string whose length has been accepted, with more bytes behind. */
  lemma AcceptedParts(p: Bytes, t: Bytes)
    requires ParseItem(p).status.Ok?
    ensures var crlf := FindCrlf(p);
      && |p| >= 3 && p[0] == DOLLAR && 0 <= crlf && FindCrlf(p + t) == crlf
      && (p + t)[1..] == p[1..] + t && |(p + t)[crlf + 2..]| <= |p| + |t| - 2
  {
    FindCrlfStable(p, t);
  }

  /** An accepted length whose scan is still open can be driven past the bytes there are, or below zero. */
  lemma OpenItem(p: Bytes) returns (t: Bytes)
    requires ParseItem(p).status.Ok? && Open(p[1..])
    ensures !ParseItem(p + t).status.Ok? && (!Negative(p[1..]) ==> ParseItem(p + t).status.Incomplete?)
  {
    hide FindCrlf, Strtol, Open, Negative;
    var k := if Negative(p[1..]) then 1 else |p|;
    t := Nines(k);
    NinesGrow(k, 0);
    AcceptedParts(p, t);
    hide Nines;
    if Negative(p[1..]) {
      NegativeStays(p[1..], t);
    } else {
      OpenGrows(p[1..], k);
    }
  }

  lemma {:induction false} UnsettledItems(p: Bytes, n: nat, refusal: bool) returns (t: Bytes)
    requires !ItemsSettled(p, n, refusal) && !ParseItems(p, n).status.Incomplete?
    ensures var r, r' := ParseItems(p, n), ParseItems(p + t, n);
      if refusal then r'.status.Incomplete? else r'.status != r.status || r'.args != r.args
    decreases n
  {
    hide ParseItem, Open;
    if Open(p[1..]) {
      t := OpenItem(p);
      assert ParseItems(p + t, n).status == ParseItem(p + t).status && ParseItems(p + t, n).args == [];
      assert ParseItems(p, n).args != [];
    } else {
      t := UnsettledItems(ParseItem(p).rest, n - 1, refusal);
      SettledItem(p, t);
      var more, more' := ParseItems(ParseItem(p).rest, n - 1), ParseItems(ParseItem(p).rest + t, n - 1);
      var arg := ParseItem(p).arg;
      assert ParseItems(p, n).args == [arg] + more.args && ParseItems(p + t, n).args == [arg] + more'.args;
      assert ([arg] + more.args)[1..] == more.args && ([arg] + more'.args)[1..] == more'.args;
    }
  }

  lemma {:induction false} OpenNoDollar(s: Bytes, i: nat)
    requires Open(s) && i < |s|
    ensures s[i] != DOLLAR
  {
    if IsSpace(s[0]) {
      if i > 0 {
        OpenNoDollar(s[1..], i - 1);
      }
    } else {
      var u := if s[0] == MINUS || s[0] == PLUS then s[1..] else s;
      assert AllDigits(u);
      assert s[0] == MINUS || s[0] == PLUS ==> i > 0 ==> u[i - 1] == s[i];
    }
  }

  /** Two bytes behind an open count line are enough to refuse whatever number it becomes. */
  lemma OpenCountRefused(buf: Bytes, t: Bytes)
    requires buf != [] && buf[0] == STAR && FindCrlf(buf) > 0 && Open(buf[1..])
    requires |buf| - FindCrlf(buf) >= 5 - |t| && |buf| - FindCrlf(buf) >= 3
    ensures Parse(buf + t) == Result(Error, [], 0)
  {
    var c := FindCrlf(buf);
    FindCrlfStable(buf, t);
    CutEarly(buf, t, c + 2);
    OpenNoDollar(buf[1..], c + 1);
    var p := buf[c + 2..] + t;
    assert p[0] == buf[1..][c + 1];
    assert ParseItem(p) == Item(Error, [], p);
    var argc := Strtol((buf + t)[1..]);
    if argc > 0 {
      assert ParseItems(p, argc) == Items(Error, [], p);
    }
  }

  lemma SettledFinal(buf: Bytes, t: Bytes)
    requires Settled(buf, false) && !Parse(buf).status.Incomplete?
    ensures Parse(buf + t) == Parse(buf)
  {
    var c := FindCrlf(buf);
    FindCrlfStable(buf, t);
    CutEarly(buf, t, c + 2);
    assert (buf + t)[..c] == buf[..c];
    if buf[0] == STAR {
      assert (buf + t)[1..] == buf[1..] + t;
      var p := buf[c + 2..];
      if Open(buf[1..]) {
        if Negative(buf[1..]) {
          NegativeStays(buf[1..], t);
          NegativeStays(buf[1..], []);
          assert buf[1..] + [] == buf[1..];
        } else if t == [] {
          assert buf + t == buf;
        } else {
          OpenCountRefused(buf, t);
          AnsweredCount(buf);
        }
      } else {
        StrtolClosed(buf[1..], t);
        if Strtol(buf[1..]) > 0 {
          SettledItems(p, Strtol(buf[1..]), t);
        }
      }
    }
  }

  /** An open count line with an answer has been refused. */
  lemma AnsweredCount(buf: Bytes)
    requires buf != [] && buf[0] == STAR && FindCrlf(buf) > 0 && Open(buf[1..])
    requires !Parse(buf).status.Incomplete?
    ensures Parse(buf) == Result(Error, [], 0)
  {
    if Strtol(buf[1..]) > 0 {
      assert |buf[FindCrlf(buf) + 2..]| >= 3;
      OpenCountRefused(buf, []);
      assert buf + [] == buf;
    }
  }

  lemma OpenCountShows(buf: Bytes)
    requires buf != [] && buf[0] == STAR && FindCrlf(buf) > 0 && Open(buf[1..]) && !Negative(buf[1..])
    requires |buf| - FindCrlf(buf) <= 3
    ensures Parse(buf + Nines(1)).status.Incomplete?
  {
    var c, t := FindCrlf(buf), Nines(1);
    NinesGrow(1, 0);
    OpenGrows(buf[1..], 1);
    FindCrlfStable(buf, t);
    CutEarly(buf, t, c + 2);
    assert (buf + t)[1..] == buf[1..] + t;
    hide FindCrlf, Strtol, Open, Negative, Nines;
    var p := buf[c + 2..] + t;
    assert |p| < 3 && ParseItem(p).status.Incomplete?;
    assert ParseItems(p, Strtol(buf[1..] + t)).status.Incomplete?;
  }

  lemma CountStays(buf: Bytes, t: Bytes)
    requires buf != [] && buf[0] == STAR && FindCrlf(buf) > 0 && !Open(buf[1..]) && Strtol(buf[1..]) > 0
    ensures var p, argc := buf[FindCrlf(buf) + 2..], Strtol(buf[1..]);
      && Parse(buf).status == ParseItems(p, argc).status && Parse(buf).args == ParseItems(p, argc).args
      && Parse(buf + t).status == ParseItems(p + t, argc).status && Parse(buf + t).args == ParseItems(p + t, argc).args
  {
    hide FindCrlf, Strtol, Open, ParseItems;
    StrtolClosed(buf[1..], t);
    assert (buf + t)[1..] == buf[1..] + t;
    FindCrlfStable(buf, t);
    CutEarly(buf, t, FindCrlf(buf) + 2);
  }

  lemma UnsettledShows(buf: Bytes, refusal: bool) returns (t: Bytes)
    requires !Settled(buf, refusal) && !Parse(buf).status.Incomplete?
    ensures var r, r' := Parse(buf), Parse(buf + t);
      if refusal then r'.status.Incomplete? else r'.status != r.status || r'.args != r.args
  {
    hide FindCrlf, Strtol, Open, Negative, ParseItems, ItemsSettled, Parse;
    if Open(buf[1..]) {
      t := Nines(1);
      OpenCountShows(buf);
    } else {
      CountStays(buf, []);
      t := UnsettledItems(buf[FindCrlf(buf) + 2..], Strtol(buf[1..]), refusal);
      CountStays(buf, t);
    }
  }

  /** An OK or ERROR is final, whatever bytes come behind it, exactly when no number that was read can
      still change. */
  lemma FinalExact(buf: Bytes)
    requires !Parse(buf).status.Incomplete?
    ensures (forall t :: Parse(buf + t) == Parse(buf)) <==> Settled(buf, false)
  {
    if Settled(buf, false) {
      forall t
        ensures Parse(buf + t) == Parse(buf)
      {
        SettledFinal(buf, t);
      }
    } else {
      var t := UnsettledShows(buf, false);
    }
  }

  // ---------- when a refusal is final ----------

  /** An accepted length with a minus sign is zero. */
  lemma MinusItem(p: Bytes)
    requires ParseItem(p).status.Ok? && Open(p[1..]) && Negative(p[1..])
    ensures Strtol(p[1..]) == 0 && ParseItem(p).rest == p[FindCrlf(p) + 2..][2..]
    ensures ParseItem(p).rest != [] ==> ParseItem(p).rest[0] != DOLLAR
  {
    NegativeStays(p[1..], []);
    assert p[1..] + [] == p[1..];
    hide FindCrlf, Strtol, Open, Negative;
    var i := FindCrlf(p) + 4;
    var rest := p[FindCrlf(p) + 2..][2..];
    if rest != [] {
      OpenNoDollar(p[1..], i - 1);
      assert rest[0] == p[i] == p[1..][i - 1];
    }
  }

  /** With more bytes behind, it is zero again or refused. */
  lemma MinusStep(p: Bytes, t: Bytes)
    requires ParseItem(p).status.Ok? && Open(p[1..]) && Negative(p[1..])
    ensures var one := ParseItem(p + t); one.status.Error? || one == Item(Ok, [], ParseItem(p).rest + t)
  {
    hide FindCrlf, Strtol, Open, Negative;
    NegativeStays(p[1..], t);
    MinusItem(p);
    AcceptedParts(p, t);
    CutEarly(p, t, FindCrlf(p) + 2);
    CutEarly(p[FindCrlf(p) + 2..], t, 2);
  }

  lemma MinusItems(p: Bytes, n: nat, t: Bytes)
    requires n > 0 && ParseItem(p).status.Ok? && Open(p[1..]) && Negative(p[1..])
    requires ParseItems(p, n).status.Error?
    ensures ParseItems(p + t, n).status.Error?
  {
    hide FindCrlf, Strtol, Open, Negative, ParseItem;
    var rest := ParseItem(p).rest;
    RefusedBehind(rest, n - 1);
    MinusItem(p);
    MinusStep(p, t);
    NoDollar(rest + t);
    assert ParseItems(rest + t, n - 1).status.Error?;
  }

  lemma NoDollar(p: Bytes)
    requires |p| >= 3 && p[0] != DOLLAR
    ensures ParseItem(p) == Item(Error, [], p)
  {
  }

  lemma RefusedBehind(p: Bytes, n: nat)
    requires ParseItems(p, n).status.Error?
    ensures n > 0 && |p| >= 3
  {
  }

  lemma {:induction false} RefusedItems(p: Bytes, n: nat, t: Bytes)
    requires ItemsSettled(p, n, true) && ParseItems(p, n).status.Error?
    ensures ParseItems(p + t, n).status.Error?
    decreases n
  {
    hide ParseItem, Open, Negative;
    if ParseItem(p).status.Ok? && Open(p[1..]) {
      MinusItems(p, n, t);
    } else {
      SettledItem(p, t);
      if ParseItem(p).status.Ok? {
        RefusedItems(ParseItem(p).rest, n - 1, t);
      }
    }
  }

  /** An ERROR stays one, whatever bytes come behind it, exactly when no number that was read can still
      change that. */
  lemma RefusalExact(buf: Bytes)
    requires Parse(buf).status.Error?
    ensures (forall t :: Parse(buf + t).status.Error?) <==> Settled(buf, true)
  {
    hide Parse, FindCrlf, Strtol, Open, Negative, ItemsSettled, ParseItems;
    if Settled(buf, true) {
      forall t
        ensures Parse(buf + t).status.Error?
      {
        RefusedStays(buf, t);
      }
    } else {
      var t := UnsettledShows(buf, true);
    }
  }

  lemma RefusedStays(buf: Bytes, t: Bytes)
    requires Settled(buf, true) && Parse(buf).status.Error?
    ensures Parse(buf + t).status.Error?
  {
    if Settled(buf, false) {
      SettledFinal(buf, t);
    } else {
      hide FindCrlf, Strtol, Open, Negative, ItemsSettled, ParseItems, Parse;
      CountStays(buf, []);
      CountStays(buf, t);
      RefusedItems(buf[FindCrlf(buf) + 2..], Strtol(buf[1..]), t);
    }
  }
}
