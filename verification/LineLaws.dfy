/** What the parser reads in a line: where it ends, its words, its number. */
module LineLaws {
  import opened Bytes
  import opened Resp
  import opened RespLaws

  // ---------- where a line ends ----------

  /** CR and LF stand at `k`. */
  predicate CrlfAt(s: Bytes, k: nat) {
    k + 1 < |s| && s[k] == 13 && s[k + 1] == 10
  }

  /** The line end found is the first there is, and none is found only where there is none. */
  lemma {:induction false} FindCrlfFirst(s: Bytes)
    ensures if FindCrlf(s) >= 0 then CrlfAt(s, FindCrlf(s)) && forall k: nat :: k < FindCrlf(s) ==> !CrlfAt(s, k)
      else forall k: nat :: !CrlfAt(s, k)
  {
    if |s| >= 2 && !CrlfAt(s, 0) {
      FindCrlfFirst(s[1..]);
      forall k: nat | k > 0
        ensures CrlfAt(s, k) <==> CrlfAt(s[1..], k - 1)
      {
      }
    }
  }

  // ---------- words ----------

  function Spaces(n: nat): Bytes {
    if n == 0 then [] else [32] + Spaces(n - 1)
  }

  /** A word is not empty and has no space in it. */
  predicate Word(w: Bytes) {
    w != [] && 32 !in w
  }

  /** The words with a gap of spaces before each of them and behind the last. */
  function Line(words: seq<Bytes>, gaps: seq<nat>): Bytes
    requires |gaps| == |words| + 1
  {
    if words == [] then Spaces(gaps[0]) else Spaces(gaps[0]) + (words[0] + Line(words[1..], gaps[1..]))
  }

  /** There is a space at least between two words. */
  predicate Spaced(words: seq<Bytes>, gaps: seq<nat>) {
    && |gaps| == |words| + 1
    && (forall w :: w in words ==> Word(w))
    && forall i :: 0 < i < |words| ==> gaps[i] > 0
  }

  lemma {:induction false} WordsSkipSpaces(n: nat, s: Bytes)
    ensures Words(Spaces(n) + s) == Words(s)
  {
    if n == 0 {
      assert Spaces(n) + s == s;
    } else {
      assert (Spaces(n) + s)[1..] == Spaces(n - 1) + s;
      WordsSkipSpaces(n - 1, s);
    }
  }

  lemma {:induction false} WordLengthIs(w: Bytes, s: Bytes)
    requires 32 !in w && (s == [] || s[0] == 32)
    ensures WordLength(w + s) == |w|
  {
    if w == [] {
      assert w + s == s;
    } else {
      assert (w + s)[1..] == w[1..] + s;
      WordLengthIs(w[1..], s);
    }
  }

  lemma WordsFirst(w: Bytes, s: Bytes)
    requires Word(w) && (s == [] || s[0] == 32)
    ensures Words(w + s) == [w] + Words(s)
  {
    WordLengthIs(w, s);
    assert (w + s)[..|w|] == w && (w + s)[|w|..] == s;
  }

  lemma LineBegins(words: seq<Bytes>, gaps: seq<nat>)
    requires Spaced(words, gaps) && (words == [] || gaps[0] > 0)
    ensures var s := Line(words, gaps); s == [] || s[0] == 32
  {
  }

  /** The words of a line are the words that were put in it, whatever the gaps. */
  lemma {:induction false} WordsOfLine(words: seq<Bytes>, gaps: seq<nat>)
    requires Spaced(words, gaps)
    ensures Words(Line(words, gaps)) == words
    decreases |words|
  {
    if words == [] {
      WordsSkipSpaces(gaps[0], []);
      assert Spaces(gaps[0]) + [] == Spaces(gaps[0]);
    } else {
      var rest := Line(words[1..], gaps[1..]);
      SpacedRest(words, gaps);
      LineBegins(words[1..], gaps[1..]);
      hide Line, Words;
      WordsOfLine(words[1..], gaps[1..]);
      WordsSkipSpaces(gaps[0], words[0] + rest);
      WordsFirst(words[0], rest);
      LineFirst(words, gaps);
      assert words == [words[0]] + words[1..];
    }
  }

  lemma LineFirst(words: seq<Bytes>, gaps: seq<nat>)
    requires |gaps| == |words| + 1 && words != []
    ensures Line(words, gaps) == Spaces(gaps[0]) + (words[0] + Line(words[1..], gaps[1..]))
  {
  }

  lemma SpacedRest(words: seq<Bytes>, gaps: seq<nat>)
    requires Spaced(words, gaps) && words != []
    ensures Spaced(words[1..], gaps[1..]) && (|words| > 1 ==> gaps[1] > 0) && Word(words[0])
  {
  }

  /** Every line is made of its words and of gaps between them, so `Words` leaves nothing but spaces out. */
  lemma {:induction false} LineOfWords(line: Bytes) returns (gaps: seq<nat>)
    ensures Spaced(Words(line), gaps) && Line(Words(line), gaps) == line
    decreases |line|
  {
    if line == [] {
      gaps := [0];
    } else if line[0] == SPACE {
      gaps := LineOfWords(line[1..]);
      OneSpaceMore(Words(line[1..]), gaps);
      gaps := [gaps[0] + 1] + gaps[1..];
      assert line == [32] + line[1..];
    } else {
      var n := WordLength(line);
      var w, rest := line[..n], line[n..];
      WordEnds(line);
      gaps := LineOfWords(rest);
      if Words(rest) != [] {
        FirstGap(Words(rest), gaps);
      }
      var all := [0] + gaps;
      assert all[1..] == gaps && Words(line)[1..] == Words(rest) && Words(line)[0] == w;
      assert Spaces(0) + (w + rest) == line;
      gaps := all;
    }
  }

  lemma OneSpaceMore(words: seq<Bytes>, gaps: seq<nat>)
    requires Spaced(words, gaps)
    ensures var more := [gaps[0] + 1] + gaps[1..];
      Spaced(words, more) && Line(words, more) == [32] + Line(words, gaps)
  {
    var more := [gaps[0] + 1] + gaps[1..];
    assert more[1..] == gaps[1..];
  }

  lemma {:induction false} WordEnds(line: Bytes)
    requires line != [] && line[0] != SPACE
    ensures var n := WordLength(line); n > 0 && 32 !in line[..n] && (n < |line| ==> line[n] == 32)
  {
    if |line| > 1 && line[1] != SPACE {
      WordEnds(line[1..]);
      var n := WordLength(line);
      assert line[..n] == [line[0]] + line[1..][..n - 1];
    } else {
      assert WordLength(line) == 1 + WordLength(line[1..]) == 1;
    }
  }

  lemma FirstGap(words: seq<Bytes>, gaps: seq<nat>)
    requires Spaced(words, gaps) && words != []
    ensures gaps[0] == 0 ==> Line(words, gaps) != [] && Line(words, gaps)[0] != 32
  {
    assert Word(words[0]);
  }

  // ---------- inline commands ----------

  /** A line of words without a line end inside and not beginning with `*` is parsed to these words, whatever
      follows, and up to its line end. */
  lemma InlineRoundTrip(words: seq<Bytes>, gaps: seq<nat>, t: Bytes)
    requires words != [] && Spaced(words, gaps)
    requires var line := Line(words, gaps); line != [] && line[0] != 42 && forall k: nat :: !CrlfAt(line + [13], k)
    ensures var line := Line(words, gaps); Parse(line + CRLF + t) == Result(Ok, words, |line| + 2)
  {
    var line := Line(words, gaps);
    WordsOfLine(words, gaps);
    LineEnds(line, t);
    assert (line + CRLF + t)[..|line|] == line;
    assert line != [];
  }

  /** A line of nothing but spaces is an error. */
  lemma InlineBlank(n: nat, t: Bytes)
    ensures Parse(Spaces(n) + CRLF + t) == Result(Error, [], 0)
  {
    var line := Spaces(n);
    SpacesOnly(n);
    LineEnds(line, t);
    assert (line + CRLF + t)[..n] == line;
    WordsSkipSpaces(n, []);
    assert line + [] == line;
  }

  lemma {:induction false} SpacesOnly(n: nat)
    ensures |Spaces(n)| == n && forall i :: 0 <= i < n ==> Spaces(n)[i] == 32
  {
    if n > 0 {
      SpacesOnly(n - 1);
    }
  }

  lemma LineEnds(line: Bytes, t: Bytes)
    requires forall k: nat :: !CrlfAt(line + [13], k)
    ensures FindCrlf(line + CRLF + t) == |line|
  {
    var s := line + CRLF + t;
    FindCrlfFirst(s);
    assert CrlfAt(s, |line|);
    forall k: nat | k < |line|
      ensures !CrlfAt(s, k)
    {
      assert !CrlfAt(line + [13], k);
    }
  }

  // ---------- numbers ----------

  /** A decimal numeral, read from its last digit. */
  function Numeral(d: Bytes): nat
    requires AllDigits(d)
  {
    if d == [] then 0 else 10 * Numeral(d[..|d| - 1]) + (d[|d| - 1] - 48)
  }

  lemma {:induction false} DigitsNumeral(d: Bytes, t: Bytes)
    requires AllDigits(d) && (t == [] || !(48 <= t[0] <= 57))
    ensures Digits(d + t, 0) == Numeral(d)
  {
    if d == [] {
      assert d + t == t;
    } else {
      var front, last := d[..|d| - 1], d[|d| - 1];
      assert d + t == front + ([last] + t);
      DigitsJoin(front, [last] + t, 0);
      DigitsNumeral(front, []);
      assert front + [] == front;
      assert ([last] + t)[1..] == t;
    }
  }

  lemma {:induction false} SkipBlank(w: Bytes, s: Bytes)
    requires Blank(w) && (s == [] || !IsSpace(s[0]))
    ensures SkipSpace(w + s) == s
  {
    if w == [] {
      assert w + s == s;
    } else {
      assert (w + s)[1..] == w[1..] + s;
      SkipBlank(w[1..], s);
    }
  }

  /** The white space of C. */
  predicate White(w: Bytes) {
    forall i :: 0 <= i < |w| ==> w[i] == 32 || 9 <= w[i] <= 13
  }

  /** White space, digits, and something else: the digits are the number. */
  lemma StrtolPlain(w: Bytes, d: Bytes, t: Bytes)
    requires White(w) && AllDigits(d) && d != [] && (t == [] || !(48 <= t[0] <= 57))
    ensures Strtol(w + d + t) == Numeral(d)
  {
    assert w + d + t == w + (d + t);
    SkipBlank(w, d + t);
    DigitsNumeral(d, t);
  }

  /** With `-` before the digits the number is less than zero, with `+` it is the same. */
  lemma StrtolSigned(w: Bytes, d: Bytes, t: Bytes)
    requires White(w) && AllDigits(d) && (t == [] || !(48 <= t[0] <= 57))
    ensures Strtol(w + [45] + d + t) == 0 - Numeral(d) as int && Strtol(w + [43] + d + t) == Numeral(d)
  {
    forall sign: byte | sign == 45 || sign == 43
      ensures Strtol(w + [sign] + d + t) == if sign == 45 then 0 - Numeral(d) as int else Numeral(d)
    {
      var s := [sign] + (d + t);
      assert w + [sign] + d + t == w + s;
      SkipBlank(w, s);
      assert s[1..] == d + t;
      DigitsNumeral(d, t);
    }
  }

  /** Where neither digit nor sign stands, the number is zero. */
  lemma StrtolNone(w: Bytes, t: Bytes)
    requires White(w) && (t == [] || !(t[0] == 32 || 9 <= t[0] <= 13 || t[0] == 43 || t[0] == 45 || 48 <= t[0] <= 57))
    ensures Strtol(w + t) == 0
  {
    SkipBlank(w, t);
  }

  /** A size is printed as its decimal numeral, without zeros in front. */
  lemma {:induction false} DecimalMeans(n: nat)
    ensures AllDigits(Decimal(n)) && Numeral(Decimal(n)) == n && (n > 0 ==> Decimal(n)[0] != 48)
  {
    var d := Decimal(n);
    if n < 10 {
      assert d[..0] == [] && Numeral(d[..0]) == 0;
    } else {
      DecimalMeans(n / 10);
      assert d[..|d| - 1] == Decimal(n / 10);
    }
  }
}
