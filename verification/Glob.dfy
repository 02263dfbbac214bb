/** src/commands.cpp: `glob_match`, and what `*` and `?` are meant to mean. */
module Glob {
  import opened Bytes

  const STAR: byte := 42
  const QUERY: byte := 63

  /** The meaning of a pattern: `*` stands for any bytes, `?` for any one byte, all else for itself. */
  predicate Matches(p: Bytes, s: Bytes)
    decreases |p| + |s|
  {
    if p == [] then s == []
    else if p[0] == STAR then Matches(p[1..], s) || (s != [] && Matches(p, s[1..]))
    else s != [] && (p[0] == QUERY || p[0] == s[0]) && Matches(p[1..], s[1..])
  }

  /** What the code decides: behind a star it tries only the nonempty rests of the string. */
  predicate Decides(p: Bytes, s: Bytes)
    decreases |p|, 1, |s|
  {
    if p == [] then s == []
    else if p[0] == STAR then p[1..] == [] || DecidesSome(p[1..], s)
    else s != [] && (p[0] == QUERY || p[0] == s[0]) && Decides(p[1..], s[1..])
  }

  predicate DecidesSome(p: Bytes, s: Bytes)
    decreases |p|, 2, |s|
  {
    s != [] && (Decides(p, s) || DecidesSome(p, s[1..]))
  }

  /** `glob_match` on the visible parts of its C strings. */
  method GlobMatch(pattern: Bytes, str: Bytes) returns (matched: bool)
    ensures matched == Decides(pattern, str)
    decreases |pattern|
  {
    var p, s := pattern, str;
    while p != []
      invariant |p| <= |pattern| && Decides(pattern, str) == Decides(p, s)
      decreases |p|
    {
      if p[0] == STAR {
        p := p[1..];
        if p == [] {
          return true;
        }
        while s != []
          invariant Decides(pattern, str) == DecidesSome(p, s)
          decreases |s|
        {
          var rest := GlobMatch(p, s);
          if rest {
            return true;
          }
          s := s[1..];
        }
        return false;
      }
      if s == [] || (p[0] != QUERY && p[0] != s[0]) {
        return false;
      }
      p, s := p[1..], s[1..];
    }
    return s == [];
  }

  // ---------- stars ----------

  predicate AllStars(p: Bytes) {
    forall i :: 0 <= i < |p| ==> p[i] == STAR
  }

  predicate EndsInTwoStars(p: Bytes) {
    |p| >= 2 && p[|p| - 1] == STAR && p[|p| - 2] == STAR
  }

  /** The pattern the code really matches: a run of two or more stars at the end counts as `?*`. */
  function Corrected(p: Bytes): Bytes {
    if |p| >= 2 && AllStars(p) then [QUERY, STAR]
    else if p == [] then []
    else [p[0]] + Corrected(p[1..])
  }

  lemma {:induction false} StarMatchesAll(p: Bytes, s: Bytes)
    requires AllStars(p) && p != []
    ensures Matches(p, s)
    decreases |p|, |s|
  {
    if s != [] {
      StarMatchesAll(p, s[1..]);
    } else if |p| > 1 {
      StarMatchesAll(p[1..], s);
    } else {
      assert p[1..] == [];
    }
  }

  lemma {:induction false} MatchesNothing(p: Bytes)
    ensures Matches(p, []) <==> AllStars(p)
  {
    if p != [] {
      MatchesNothing(p[1..]);
      if p[0] == STAR {
        assert AllStars(p) <==> AllStars(p[1..]) by {
          assert forall i :: 1 <= i < |p| ==> p[i] == p[1..][i - 1];
        }
      }
    }
  }

  /** A star's meaning, one suffix at a time. */
  predicate MatchesSome(p: Bytes, s: Bytes)
    decreases |s|
  {
    s != [] && (Matches(p, s) || MatchesSome(p, s[1..]))
  }

  lemma {:induction false} StarMeans(p: Bytes, s: Bytes)
    requires p != [] && p[0] == STAR
    ensures Matches(p, s) <==> MatchesSome(p[1..], s) || Matches(p[1..], [])
    decreases |s|
  {
    if s != [] {
      StarMeans(p, s[1..]);
    }
  }

  lemma {:induction false} StarsDecide(p: Bytes, s: Bytes)
    requires AllStars(p) && p != []
    ensures Decides(p, s) <==> |p| == 1 || s != []
    ensures DecidesSome(p, s) <==> s != []
    decreases |p|
  {
    if |p| > 1 {
      StarsDecide(p[1..], s);
    } else {
      assert p[1..] == [];
    }
  }

  lemma {:induction false} SomeAgree(p: Bytes, c: Bytes, s: Bytes)
    requires forall t :: Decides(p, t) <==> Matches(c, t)
    ensures DecidesSome(p, s) <==> MatchesSome(c, s)
    decreases |s|
  {
    if s != [] {
      SomeAgree(p, c, s[1..]);
    }
  }

  lemma {:induction false} CorrectedStars(p: Bytes)
    requires !AllStars(p)
    ensures !AllStars(Corrected(p))
  {
    var c := Corrected(p);
    if p[0] == STAR {
      assert !AllStars(p[1..]) by {
        var i :| 0 <= i < |p| && p[i] != STAR;
        assert p[1..][i - 1] == p[i];
      }
      CorrectedStars(p[1..]);
      var j :| 0 <= j < |c[1..]| && c[1..][j] != STAR;
      assert c[j + 1] != STAR;
    } else {
      assert c[0] == p[0];
    }
  }

  /** `glob_match` decides the meaning of the corrected pattern, for every pattern and string. */
  lemma {:induction false} DecidesCorrected(p: Bytes, s: Bytes)
    ensures Decides(p, s) <==> Matches(Corrected(p), s)
    decreases |p|
  {
    if p == [] {
    } else if |p| >= 2 && AllStars(p) {
      StarsDecide(p, s);
      if s != [] {
        StarMatchesAll([STAR], s[1..]);
        assert [QUERY, STAR][1..] == [STAR];
      }
    } else {
      var rest := Corrected(p[1..]);
      assert ([p[0]] + rest)[1..] == rest;
      if p[0] != STAR {
        if s != [] {
          DecidesCorrected(p[1..], s[1..]);
        }
      } else if p[1..] == [] {
        assert p == [STAR] && rest == [] && Corrected(p) == [STAR] + rest == [STAR];
        StarMatchesAll([STAR], s);
      } else {
        forall t
          ensures Decides(p[1..], t) <==> Matches(rest, t)
        {
          DecidesCorrected(p[1..], t);
        }
        SomeAgree(p[1..], rest, s);
        StarMeans([STAR] + rest, s);
        TailNotStars(p);
        CorrectedStars(p[1..]);
        MatchesNothing(rest);
      }
    }
  }

  lemma TailNotStars(p: Bytes)
    requires p != [] && p[0] == STAR && !AllStars(p)
    ensures !AllStars(p[1..])
  {
    var i :| 0 <= i < |p| && p[i] != STAR;
    assert p[1..][i - 1] == p[i];
  }

  /** Putting `?` for one star only narrows a pattern. */
  lemma {:induction false} CorrectedNarrows(p: Bytes, s: Bytes)
    requires Matches(Corrected(p), s)
    ensures Matches(p, s)
    decreases |p|, |s|
  {
    if p != [] {
      if |p| >= 2 && AllStars(p) {
        StarMatchesAll(p, s);
      } else {
        var rest := Corrected(p[1..]);
        assert ([p[0]] + rest)[1..] == rest;
        if p[0] == STAR {
          if Matches(rest, s) {
            CorrectedNarrows(p[1..], s);
          } else {
            CorrectedNarrows(p, s[1..]);
          }
        } else {
          CorrectedNarrows(p[1..], s[1..]);
        }
      }
    }
  }

  /** What the code accepts does match. */
  lemma GlobSound(p: Bytes, s: Bytes)
    requires Decides(p, s)
    ensures Matches(p, s)
  {
    DecidesCorrected(p, s);
    CorrectedNarrows(p, s);
  }

  /** How many bytes a pattern needs. */
  function Need(p: Bytes): nat {
    if p == [] then 0 else (if p[0] == STAR then 0 else 1) + Need(p[1..])
  }

  /** A shortest string of a pattern. */
  function Shortest(p: Bytes): (s: Bytes)
    ensures |s| == Need(p)
  {
    if p == [] then [] else (if p[0] == STAR then [] else [p[0]]) + Shortest(p[1..])
  }

  lemma {:induction false} ShortestMatches(p: Bytes)
    ensures Matches(p, Shortest(p))
  {
    if p != [] {
      ShortestMatches(p[1..]);
      if p[0] == STAR {
        assert [] + Shortest(p[1..]) == Shortest(p[1..]);
      } else {
        assert Shortest(p)[1..] == Shortest(p[1..]);
      }
    }
  }

  lemma {:induction false} MatchesNeeds(p: Bytes, s: Bytes)
    requires Matches(p, s)
    ensures |s| >= Need(p)
    decreases |p|, |s|
  {
    if p != [] {
      if p[0] == STAR {
        if Matches(p[1..], s) {
          MatchesNeeds(p[1..], s);
        } else {
          MatchesNeeds(p, s[1..]);
        }
      } else {
        MatchesNeeds(p[1..], s[1..]);
      }
    }
  }

  lemma {:induction false} StarsNeedNothing(p: Bytes)
    requires AllStars(p)
    ensures Need(p) == 0
  {
    if p != [] {
      StarsNeedNothing(p[1..]);
    }
  }

  /** The correction asks for one byte more, and only for patterns that end in two stars. */
  lemma {:induction false} CorrectedNeeds(p: Bytes)
    ensures if EndsInTwoStars(p) then Need(Corrected(p)) == Need(p) + 1 else Corrected(p) == p
  {
    if |p| >= 2 && AllStars(p) {
      StarsNeedNothing(p);
      assert [QUERY, STAR][1..] == [STAR] && [STAR][1..] == [];
      assert Need([STAR]) == 0 && Need([QUERY, STAR]) == 1;
      assert EndsInTwoStars(p);
    } else if p != [] {
      CorrectedNeeds(p[1..]);
      assert ([p[0]] + Corrected(p[1..]))[1..] == Corrected(p[1..]);
      assert p == [p[0]] + p[1..];
      if |p| >= 3 {
        assert p[1..][|p| - 2] == p[|p| - 1] && p[1..][|p| - 3] == p[|p| - 2];
      }
    }
  }

  /** The code decides the meaning of a pattern on all strings exactly when the pattern does not end
      in two stars. */
  lemma GlobExact(p: Bytes)
    ensures (forall s :: Decides(p, s) <==> Matches(p, s)) <==> !EndsInTwoStars(p)
  {
    CorrectedNeeds(p);
    if EndsInTwoStars(p) {
      var s := Shortest(p);
      ShortestMatches(p);
      DecidesCorrected(p, s);
      if Decides(p, s) {
        MatchesNeeds(Corrected(p), s);
      }
    } else {
      forall s
        ensures Decides(p, s) <==> Matches(p, s)
      {
        DecidesCorrected(p, s);
      }
    }
  }

  // ---------- what a pattern means ----------

  /** A pattern of two parts matches what the parts match, one behind the other. */
  lemma {:induction false} MatchesParts(p: Bytes, q: Bytes, s: Bytes)
    ensures Matches(p + q, s) <==> exists k: nat :: k <= |s| && Matches(p, s[..k]) && Matches(q, s[k..])
    decreases |p|, |s|
  {
    if Matches(p + q, s) {
      var k := SplitOf(p, q, s);
    }
    if k: nat :| k <= |s| && Matches(p, s[..k]) && Matches(q, s[k..]) {
      PartsMatch(p, q, s[..k], s[k..]);
      assert s[..k] + s[k..] == s;
    }
  }

  lemma {:induction false} PartsMatch(p: Bytes, q: Bytes, a: Bytes, b: Bytes)
    requires Matches(p, a) && Matches(q, b)
    ensures Matches(p + q, a + b)
    decreases |p|, |a|
  {
    if p == [] {
      assert p + q == q && a + b == b;
    } else {
      assert (p + q)[1..] == p[1..] + q;
      assert a != [] ==> (a + b)[1..] == a[1..] + b;
      if p[0] != STAR {
        PartsMatch(p[1..], q, a[1..], b);
      } else if Matches(p[1..], a) {
        PartsMatch(p[1..], q, a, b);
      } else {
        PartsMatch(p, q, a[1..], b);
      }
    }
  }

  lemma {:induction false} SplitOf(p: Bytes, q: Bytes, s: Bytes) returns (k: nat)
    requires Matches(p + q, s)
    ensures k <= |s| && Matches(p, s[..k]) && Matches(q, s[k..])
    decreases |p|, |s|
  {
    if p == [] {
      k := 0;
      assert p + q == q && s[0..] == s && s[..0] == [];
    } else {
      assert (p + q)[1..] == p[1..] + q;
      if p[0] == STAR && Matches(p[1..] + q, s) {
        k := SplitOf(p[1..], q, s);
      } else {
        k := SplitOf(if p[0] == STAR then p else p[1..], q, s[1..]);
        assert s[..k + 1][1..] == s[1..][..k] && s[k + 1..] == s[1..][k..];
        k := k + 1;
      }
    }
  }

  /** `*` matches everything, `?` every single byte, any other byte itself, and no pattern only nothing. With
      `MatchesParts` that is all. */
  lemma MatchesOne(c: byte, s: Bytes)
    ensures Matches([], s) <==> s == []
    ensures Matches([42], s)
    ensures Matches([63], s) <==> |s| == 1
    ensures c != 42 && c != 63 ==> (Matches([c], s) <==> s == [c])
  {
    StarMatchesAll([STAR], s);
    assert [c][1..] == [] && [63][1..] == [];
    assert |s| == 1 <==> s != [] && s[1..] == [];
  }

  function Stars(n: nat): Bytes {
    if n == 0 then [] else [42] + Stars(n - 1)
  }

  lemma {:induction false} StarsAre(n: nat)
    ensures |Stars(n)| == n && AllStars(Stars(n))
  {
    if n > 0 {
      StarsAre(n - 1);
    }
  }

  lemma CorrectedStep(p: Bytes)
    requires p != [] && !AllStars(p)
    ensures Corrected(p) == [p[0]] + Corrected(p[1..])
  {
  }

  lemma CorrectedRun(n: nat)
    ensures Corrected(Stars(n)) == if n >= 2 then [63, 42] else Stars(n)
  {
    StarsAre(n);
    if n == 1 {
      assert Stars(1) == [42] + Stars(0) == [42] && [42][1..] == [];
      assert Corrected([42]) == [42] + Corrected([]);
    }
  }

  /** The corrected pattern is the pattern with a run of two or more stars at its end made `?*`. */
  lemma {:induction false} CorrectedIs(q: Bytes, n: nat)
    requires q != [] ==> q[|q| - 1] != 42
    ensures Corrected(q + Stars(n)) == q + if n >= 2 then [63, 42] else Stars(n)
  {
    var end := if n >= 2 then [63, 42] else Stars(n);
    CorrectedRun(n);
    if q == [] {
      assert q + Stars(n) == Stars(n) && q + end == end;
    } else {
      var p := q + Stars(n);
      assert p[|q| - 1] != STAR;
      assert p[0] == q[0] && p[1..] == q[1..] + Stars(n);
      CorrectedStep(p);
      hide Corrected, Stars;
      CorrectedIs(q[1..], n);
      assert [q[0]] + (q[1..] + end) == q + end;
    }
  }
}
