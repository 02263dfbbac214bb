/** src/resp.cpp: the request parser, and the replies it reads back. */
module Resp {
  import opened Bytes

  const CR: byte := 13
  const LF: byte := 10
  const SPACE: byte := 32
  const DOLLAR: byte := 36
  const STAR: byte := 42
  const PLUS: byte := 43
  const MINUS: byte := 45
  const ZERO: byte := 48
  const CRLF: Bytes := [CR, LF]

  datatype Status = Ok | Incomplete | Error

  datatype Result = Result(status: Status, args: seq<Bytes>, consumed: nat)

  /** The first CRLF, or -1. */
  function FindCrlf(s: Bytes): (r: int)
    ensures r == -1 || 0 <= r < |s| - 1
    ensures r >= 0 ==> s[r] == CR && s[r + 1] == LF
  {
    if |s| < 2 then -1
    else if s[0] == CR && s[1] == LF then 0
    else var r := FindCrlf(s[1..]); if r < 0 then -1 else r + 1
  }

  /** The white space `strtol` skips. */
  predicate IsSpace(b: byte) {
    b == SPACE || 9 <= b <= 13
  }

  predicate IsDigit(b: byte) {
    ZERO <= b <= 57
  }

  function SkipSpace(s: Bytes): Bytes {
    if s != [] && IsSpace(s[0]) then SkipSpace(s[1..]) else s
  }

  /** The value of the leading digits, `acc` standing before them. */
  function Digits(s: Bytes, acc: nat): (v: int)
    ensures v >= acc
  {
    if s != [] && IsDigit(s[0]) then Digits(s[1..], 10 * acc + (s[0] - ZERO)) else acc
  }

  /** `strtol` in base 10 on a NUL-terminated buffer: white space, a sign, digits; nothing else counts. */
  function Strtol(s: Bytes): int {
    var t := SkipSpace(s);
    if t != [] && t[0] == MINUS then -Digits(t[1..], 0)
    else if t != [] && t[0] == PLUS then Digits(t[1..], 0)
    else Digits(t, 0)
  }

  /** The length of the leading word. */
  function WordLength(line: Bytes): (n: nat)
    ensures n <= |line|
    ensures line != [] && line[0] != SPACE ==> n > 0
  {
    if line == [] || line[0] == SPACE then 0 else 1 + WordLength(line[1..])
  }

  /** The space-separated words of a line. */
  function Words(line: Bytes): seq<Bytes> {
    if line == [] then []
    else if line[0] == SPACE then Words(line[1..])
    else [line[..WordLength(line)]] + Words(line[WordLength(line)..])
  }

  /** One bulk string from the front of `p`; `rest` is what follows its two closing bytes, which
      nobody looks at. */
  datatype Item = Item(status: Status, arg: Bytes, rest: Bytes)

  function ParseItem(p: Bytes): (r: Item)
    ensures r.status.Ok? ==> |r.rest| + 2 <= |p|
  {
    if |p| < 3 then Item(Incomplete, [], p)
    else if p[0] != DOLLAR then Item(Error, [], p)
    else
      var crlf := FindCrlf(p);
      if crlf < 0 then Item(Incomplete, [], p)
      else
        var slen, q := Strtol(p[1..]), p[crlf + 2..];
        if slen < 0 then Item(Error, [], p)
        else if |q| < slen + 2 then Item(Incomplete, [], p)
        else Item(Ok, q[..slen], q[slen + 2..])
  }

  /** `n` bulk strings from the front of `p`; `rest` is what follows them. */
  datatype Items = Items(status: Status, args: seq<Bytes>, rest: Bytes)

  function ParseItems(p: Bytes, n: nat): (r: Items)
    ensures |r.rest| <= |p|
  {
    if n == 0 then Items(Ok, [], p)
    else
      var one := ParseItem(p);
      if !one.status.Ok? then Items(one.status, [], p)
      else
        var more := ParseItems(one.rest, n - 1);
        Items(more.status, [one.arg] + more.args, more.rest)
  }

  function ParseInline(buf: Bytes): Result {
    var crlf := FindCrlf(buf);
    if crlf < 0 then Result(Incomplete, [], 0)
    else
      var args := Words(buf[..crlf]);
      if args == [] then Result(Error, [], 0) else Result(Ok, args, crlf + 2)
  }

  function ParseArray(buf: Bytes): Result
    requires buf != []
  {
    var crlf := FindCrlf(buf);
    if crlf < 0 then Result(Incomplete, [], 0)
    else
      var argc := Strtol(buf[1..]);
      if argc <= 0 then Result(Error, [], 0)
      else
        var r := ParseItems(buf[crlf + 2..], argc);
        Result(r.status, r.args, if r.status.Ok? then |buf| - |r.rest| else 0)
  }

  /** What one call of `resp_parse` returns for a buffer. */
  function Parse(buf: Bytes): Result {
    if buf == [] then Result(Incomplete, [], 0)
    else if buf[0] != STAR then ParseInline(buf)
    else ParseArray(buf)
  }

  // ---------- the parser as it runs ----------

  method FindCrlfLoop(s: Bytes) returns (r: int)
    ensures r == FindCrlf(s)
  {
    for i := 0 to |s|
      invariant FindCrlf(s) == (if FindCrlf(s[i..]) < 0 then -1 else FindCrlf(s[i..]) + i)
    {
      if i + 1 >= |s| {
        break;
      }
      if s[i] == CR && s[i + 1] == LF {
        return i;
      }
      assert s[i..][1..] == s[i + 1..];
    }
    return -1;
  }

  method WordEnd(line: Bytes, pos: nat) returns (end: nat)
    requires pos <= |line|
    ensures pos <= end <= |line| && end - pos == WordLength(line[pos..])
  {
    end := pos;
    while end < |line| && line[end] != SPACE
      invariant pos <= end <= |line|
      invariant WordLength(line[pos..]) == end - pos + WordLength(line[end..])
    {
      assert line[end..][1..] == line[end + 1..];
      end := end + 1;
    }
  }

  lemma WordsNone()
    ensures Words([]) == []
  {
  }

  lemma WordsSkip(line: Bytes, pos: nat)
    requires pos < |line| && line[pos] == SPACE
    ensures Words(line[pos..]) == Words(line[pos + 1..])
  {
    assert line[pos..][1..] == line[pos + 1..];
  }

  lemma WordsTake(line: Bytes, pos: nat, end: nat)
    requires pos < |line| && line[pos] != SPACE && end == pos + WordLength(line[pos..])
    ensures pos < end <= |line| && Words(line[pos..]) == [line[pos..end]] + Words(line[end..])
  {
    var s, n := line[pos..], end - pos;
    assert s[..n] == line[pos..end] && s[n..] == line[end..];
  }

  /** The tokenising loop of the inline form. */
  method SplitWords(line: Bytes) returns (args: seq<Bytes>)
    ensures args == Words(line)
  {
    hide Words, WordLength;
    args := [];
    var pos := 0;
    assert line[0..] == line;
    while pos < |line|
      invariant 0 <= pos <= |line| && Words(line) == args + Words(line[pos..])
    {
      while pos < |line| && line[pos] == SPACE
        invariant 0 <= pos <= |line| && Words(line) == args + Words(line[pos..])
      {
        WordsSkip(line, pos);
        pos := pos + 1;
      }
      if pos >= |line| {
        break;
      }
      var end := WordEnd(line, pos);
      WordsTake(line, pos, end);
      assert args + ([line[pos..end]] + Words(line[end..])) == args + [line[pos..end]] + Words(line[end..]);
      args := args + [line[pos..end]];
      pos := end;
    }
    assert line[pos..] == [] && Words([]) == [] by { WordsNone(); }
  }

  /** The body of the loop over the announced bulk strings, at position `p`. */
  method ParseItemAt(buf: Bytes, p: nat) returns (status: Status, arg: Bytes, next: nat)
    requires p <= |buf|
    ensures status == ParseItem(buf[p..]).status
    ensures status.Ok? ==> next <= |buf| && Item(Ok, arg, buf[next..]) == ParseItem(buf[p..])
  {
    arg, next := [], p;
    if |buf| - p < 3 {
      return Incomplete, arg, next;
    }
    if buf[p] != DOLLAR {
      return Error, arg, next;
    }
    var lenCrlf := FindCrlfLoop(buf[p..]);
    if lenCrlf < 0 {
      return Incomplete, arg, next;
    }
    assert buf[p..][1..] == buf[p + 1..];
    var slen := Strtol(buf[p + 1..]);
    if slen < 0 {
      return Error, arg, next;
    }
    var q := p + lenCrlf + 2;
    assert buf[p..][lenCrlf + 2..] == buf[q..];
    if |buf| - q < slen + 2 {
      return Incomplete, arg, next;
    }
    assert buf[q..][..slen] == buf[q..q + slen] && buf[q..][slen + 2..] == buf[q + slen + 2..];
    return Ok, buf[q..q + slen], q + slen + 2;
  }

  /** The loop over the announced bulk strings, from position `start`. */
  method ParseItemsLoop(buf: Bytes, start: nat, argc: nat) returns (status: Status, args: seq<Bytes>, p: nat)
    requires start <= |buf|
    ensures p <= |buf|
    ensures var r := ParseItems(buf[start..], argc);
      status == r.status && args == r.args && (status.Ok? ==> buf[p..] == r.rest)
  {
    hide ParseItem;
    p, args := start, [];
    ghost var all := ParseItems(buf[start..], argc);
    for i := 0 to argc
      invariant p <= |buf|
      invariant var r := ParseItems(buf[p..], argc - i);
        all.status == r.status && all.args == args + r.args && (r.status.Ok? ==> all.rest == r.rest)
    {
      var arg, next;
      status, arg, next := ParseItemAt(buf, p);
      if !status.Ok? {
        return;
      }
      ghost var more := ParseItems(buf[next..], argc - i - 1);
      assert args + ([arg] + more.args) == args + [arg] + more.args;
      args := args + [arg];
      p := next;
    }
    status := Ok;
  }

  /** `resp_parse`. */
  method RespParse(buf: Bytes) returns (result: Result)
    ensures result == Parse(buf)
  {
    if buf == [] {
      return Result(Incomplete, [], 0);
    }
    var crlf := FindCrlfLoop(buf);
    if crlf < 0 {
      return Result(Incomplete, [], 0);
    }
    if buf[0] != STAR {
      var words := SplitWords(buf[..crlf]);
      return if words == [] then Result(Error, [], 0) else Result(Ok, words, crlf + 2);
    }
    var argc := Strtol(buf[1..]);
    if argc <= 0 {
      return Result(Error, [], 0);
    }
    var status, args, p := ParseItemsLoop(buf, crlf + 2, argc);
    return Result(status, args, if status.Ok? then p else 0);
  }
}
