/** Byte strings, and the C strings that `strcmp` sees inside them. */
module Bytes {
  type byte = x: int | 0 <= x < 256
  type Bytes = seq<byte>

  /** A byte string without a NUL: what a C string function can see of a buffer. */
  type CString = s: Bytes | NulFree(s)

  predicate NulFree(s: Bytes) {
    0 !in s
  }

  /** The bytes before the first NUL of a NUL-terminated buffer. */
  function Visible(s: Bytes): (c: CString)
    ensures NulFree(s) ==> c == s
    ensures |c| <= |s|
  {
    if s == [] || s[0] == 0 then [] else [s[0]] + Visible(s[1..])
  }

  /** The first byte of a NUL-terminated buffer. */
  function Head(s: Bytes): byte {
    if s == [] then 0 else s[0]
  }

  /** `strcmp` on NUL-terminated buffers. */
  function StrCmp(a: Bytes, b: Bytes): int {
    if Head(a) != Head(b) then Head(a) - Head(b)
    else if Head(a) == 0 then 0
    else StrCmp(a[1..], b[1..])
  }

  /** `strcmp` cannot look behind the first NUL. */
  lemma {:induction false} StrCmpVisible(a: Bytes, b: Bytes)
    ensures StrCmp(a, b) == StrCmp(a, Visible(b)) == StrCmp(Visible(a), Visible(b))
  {
    if Head(a) == Head(b) && Head(a) != 0 {
      StrCmpVisible(a[1..], b[1..]);
      assert Visible(a)[1..] == Visible(a[1..]) && Visible(b)[1..] == Visible(b[1..]);
    }
  }

  /** On what it can see, `strcmp` tells equal from different. */
  lemma {:induction false} StrCmpZero(a: CString, b: CString)
    ensures StrCmp(a, b) == 0 <==> a == b
  {
    if Head(a) == Head(b) && Head(a) != 0 {
      StrCmpZero(a[1..], b[1..]);
      assert a == [a[0]] + a[1..] && b == [b[0]] + b[1..];
    }
  }

  lemma {:induction false} StrCmpFlip(a: Bytes, b: Bytes)
    ensures StrCmp(a, b) == -StrCmp(b, a)
  {
    if Head(a) == Head(b) && Head(a) != 0 {
      StrCmpFlip(a[1..], b[1..]);
    }
  }

  lemma {:induction false} StrCmpTransitive(a: Bytes, b: Bytes, c: Bytes)
    requires StrCmp(a, b) <= 0 && StrCmp(b, c) <= 0
    ensures StrCmp(a, c) <= 0
    ensures StrCmp(a, b) < 0 || StrCmp(b, c) < 0 ==> StrCmp(a, c) < 0
  {
    if Head(a) == Head(b) == Head(c) && Head(a) != 0 {
      StrCmpTransitive(a[1..], b[1..], c[1..]);
    }
  }

  // ---------- what the order is ----------

  /** The visible part is all of the bytes before the first NUL. */
  lemma {:induction false} VisibleMeans(s: Bytes)
    ensures var n := |Visible(s)|; n <= |s| && Visible(s) == s[..n] && (n < |s| ==> s[n] == 0)
  {
    if s != [] && s[0] != 0 {
      VisibleMeans(s[1..]);
      var n := |Visible(s[1..])|;
      assert s[..n + 1] == [s[0]] + s[1..][..n];
    }
  }

  /** `a` and `b` agree in their first `k` bytes, and there `a` ends or has the smaller byte. */
  predicate SmallerAt(a: Bytes, b: Bytes, k: nat) {
    && k <= |a| && k < |b| && a[..k] == b[..k]
    && (k == |a| || a[k] < b[k])
  }

  /** `strcmp` is negative exactly when, at the first byte in which the visible parts differ, the first
      string ends or has the smaller byte, bytes taken without a sign. */
  lemma StrCmpMeans(a: Bytes, b: Bytes)
    ensures StrCmp(a, b) < 0 <==> exists k: nat :: SmallerAt(Visible(a), Visible(b), k)
  {
    StrCmpVisible(a, b);
    if StrCmp(a, b) < 0 {
      var k := FirstDifference(Visible(a), Visible(b));
    }
    if k: nat :| SmallerAt(Visible(a), Visible(b), k) {
      DifferenceDecides(Visible(a), Visible(b), k);
    }
  }

  lemma {:induction false} FirstDifference(a: CString, b: CString) returns (k: nat)
    requires StrCmp(a, b) < 0
    ensures SmallerAt(a, b, k)
  {
    if a != [] && b != [] && a[0] == b[0] {
      k := FirstDifference(a[1..], b[1..]);
      assert a[..k + 1] == [a[0]] + a[1..][..k] && b[..k + 1] == [b[0]] + b[1..][..k];
      k := k + 1;
    } else {
      k := 0;
    }
  }

  lemma {:induction false} DifferenceDecides(a: CString, b: CString, k: nat)
    requires SmallerAt(a, b, k)
    ensures StrCmp(a, b) < 0
  {
    if k > 0 {
      assert a[0] == a[..k][0] == b[..k][0] == b[0];
      assert a[1..][..k - 1] == a[..k][1..] && b[1..][..k - 1] == b[..k][1..];
      DifferenceDecides(a[1..], b[1..], k - 1);
    }
  }
}
