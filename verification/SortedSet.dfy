/** The value a skip list stands for: elements in (score, member) order, no member twice. */
module SortedSet {
  import opened Bytes
  import opened Sequences

  /** The place of a double in the numeric order: all the code does with scores is compare them. */
  type Score = x: int | -0x8000_0000_0000_0000 < x < 0x8000_0000_0000_0000

  datatype Elem = Elem(score: Score, member: CString)

  /** The comparison of the search loops: by score, ties by `strcmp`. */
  predicate Before(score: Score, member: Bytes, score': Score, member': Bytes) {
    score < score' || (score == score' && StrCmp(member, member') < 0)
  }

  predicate Less(a: Elem, b: Elem) {
    Before(a.score, a.member, b.score, b.member)
  }

  ghost predicate Sorted(s: seq<Elem>) {
    forall i, j :: 0 <= i < j < |s| ==> Less(s[i], s[j])
  }

  ghost predicate Unique(s: seq<Elem>) {
    forall i, j :: 0 <= i < j < |s| ==> s[i].member != s[j].member
  }

  ghost predicate Ordered(s: seq<Elem>) {
    Sorted(s) && Unique(s)
  }

  /** How many leading elements come before `key`: where a search for `key` stops. */
  function LowerBound(s: seq<Elem>, key: Elem): (p: nat)
    ensures p <= |s|
    ensures forall k :: 0 <= k < p ==> Less(s[k], key)
    ensures p < |s| ==> !Less(s[p], key)
  {
    if s == [] || !Less(s[0], key) then 0 else 1 + LowerBound(s[1..], key)
  }

  /** The position of a member, or the length when it is absent. */
  function IndexOf(s: seq<Elem>, member: CString): (p: nat)
    ensures p <= |s|
    ensures p < |s| ==> s[p].member == member
    ensures forall k :: 0 <= k < p ==> s[k].member != member
  {
    if s == [] || s[0].member == member then 0 else 1 + IndexOf(s[1..], member)
  }

  /** What deleting does for any score: only the first element at or after the key is looked at. */
  predicate Deletes(s: seq<Elem>, key: Elem) {
    var p := LowerBound(s, key);
    p < |s| && s[p].member == key.member
  }

  function Delete(s: seq<Elem>, key: Elem): seq<Elem> {
    if Deletes(s, key) then RemoveAt(s, LowerBound(s, key)) else s
  }

  function InsertNew(s: seq<Elem>, e: Elem): seq<Elem> {
    InsertAt(s, LowerBound(s, e), e)
  }

  /** What inserting does: take the member's old element out, put the new one in its place. */
  function Insert(s: seq<Elem>, e: Elem): seq<Elem> {
    var p := IndexOf(s, e.member);
    InsertNew(if p < |s| then RemoveAt(s, p) else s, e)
  }

  function Lookup(s: seq<Elem>, member: CString): Option<Score> {
    var p := IndexOf(s, member);
    if p < |s| then Some(s[p].score) else None
  }

  function Rank(s: seq<Elem>, member: CString): int {
    var p := IndexOf(s, member);
    if p < |s| then p else -1
  }

  /** The finite map from members to scores. */
  ghost function Scores(s: seq<Elem>): map<CString, Score> {
    map x | x in (set k | 0 <= k < |s| :: s[k].member) && Lookup(s, x).Some? :: Lookup(s, x).value
  }

  // ---------- the order ----------

  lemma LessIrreflexive(a: Elem)
    ensures !Less(a, a)
  {
    StrCmpZero(a.member, a.member);
  }

  lemma LessTransitive(a: Elem, b: Elem, c: Elem)
    requires Less(a, b) && Less(b, c)
    ensures Less(a, c)
  {
    if a.score == b.score == c.score {
      StrCmpTransitive(a.member, b.member, c.member);
    }
  }

  /** Any two elements with different members compare one way or the other. */
  lemma LessTotal(a: Elem, b: Elem)
    ensures a == b || Less(a, b) || Less(b, a)
    ensures !(Less(a, b) && Less(b, a))
  {
    StrCmpFlip(a.member, b.member);
    StrCmpZero(a.member, b.member);
  }

  /** In a sorted sequence the search splits the elements exactly. */
  lemma LowerBoundSplits(s: seq<Elem>, key: Elem)
    requires Sorted(s)
    ensures forall k :: 0 <= k < |s| ==> (k < LowerBound(s, key) <==> Less(s[k], key))
  {
    var p := LowerBound(s, key);
    forall k | p <= k < |s|
      ensures !Less(s[k], key)
    {
      if p < k && Less(s[k], key) {
        LessTransitive(s[p], s[k], key);
      }
    }
  }

  /** Searching with the stored score finds the element itself. */
  lemma LowerBoundFinds(s: seq<Elem>, p: nat)
    requires Ordered(s) && p < |s|
    ensures LowerBound(s, s[p]) == p
  {
    LowerBoundSplits(s, s[p]);
    LessIrreflexive(s[p]);
  }

  // ---------- the operations ----------

  lemma RemoveAtOrdered(s: seq<Elem>, p: nat)
    requires Ordered(s) && p < |s|
    ensures Ordered(RemoveAt(s, p))
  {
    var t := RemoveAt(s, p);
    forall i, j | 0 <= i < j < |t|
      ensures Less(t[i], t[j]) && t[i].member != t[j].member
    {
      RemoveAtIndex(s, p, i);
      RemoveAtIndex(s, p, j);
    }
  }

  lemma IndexOfRemoveAt(s: seq<Elem>, p: nat, x: CString)
    requires Unique(s) && p < |s|
    ensures var i := IndexOf(s, x);
      IndexOf(RemoveAt(s, p), x) == if i < p then i else if i == p then |s| - 1 else i - 1
  {
    var t := RemoveAt(s, p);
    var i, j := IndexOf(s, x), IndexOf(t, x);
    if j < |t| {
      RemoveAtIndex(s, p, j);
    }
    if i < |s| && i != p {
      RemoveAtIndex(s, p, if i < p then i else i - 1);
    }
  }

  lemma RemoveAtLookup(s: seq<Elem>, p: nat, x: CString)
    requires Unique(s) && p < |s|
    ensures Lookup(RemoveAt(s, p), x) == if x == s[p].member then None else Lookup(s, x)
  {
    IndexOfRemoveAt(s, p, x);
    var i := IndexOf(s, x);
    if i < |s| && i != p {
      RemoveAtIndex(s, p, if i < p then i else i - 1);
    }
  }

  lemma InsertNewOrdered(s: seq<Elem>, e: Elem)
    requires Ordered(s) && IndexOf(s, e.member) == |s|
    ensures Ordered(InsertNew(s, e))
  {
    var p := LowerBound(s, e);
    var t := InsertNew(s, e);
    LowerBoundSplits(s, e);
    forall i, j | 0 <= i < j < |t|
      ensures Less(t[i], t[j]) && t[i].member != t[j].member
    {
      InsertAtIndex(s, p, e, i);
      InsertAtIndex(s, p, e, j);
      if i == p {
        LessTotal(e, s[j - 1]);
      }
    }
  }

  lemma IndexOfInsertNew(s: seq<Elem>, e: Elem, x: CString)
    requires IndexOf(s, e.member) == |s|
    ensures var p, i := LowerBound(s, e), IndexOf(s, x);
      IndexOf(InsertNew(s, e), x) == if x == e.member then p else if i < p then i else i + 1
  {
    hide InsertAt, LowerBound, IndexOf;
    var t := InsertNew(s, e);
    var p, i, j := LowerBound(s, e), IndexOf(s, x), IndexOf(t, x);
    InsertAtIndex(s, p, e, p);
    if j < |t| {
      InsertAtIndex(s, p, e, j);
    }
    if i < |s| {
      InsertAtIndex(s, p, e, if i < p then i else i + 1);
    }
  }

  lemma InsertNewLookup(s: seq<Elem>, e: Elem, x: CString)
    requires IndexOf(s, e.member) == |s|
    ensures Lookup(InsertNew(s, e), x) == if x == e.member then Some(e.score) else Lookup(s, x)
  {
    hide InsertAt, LowerBound, IndexOf;
    IndexOfInsertNew(s, e, x);
    var p, i := LowerBound(s, e), IndexOf(s, x);
    if x == e.member {
      InsertAtIndex(s, p, e, p);
    } else if i < |s| {
      InsertAtIndex(s, p, e, if i < p then i else i + 1);
    }
  }

  // ---------- the map ----------

  lemma ScoresAreLookups(s: seq<Elem>, x: CString)
    ensures Lookup(s, x) == if x in Scores(s) then Some(Scores(s)[x]) else None
  {
    if Lookup(s, x).Some? {
      assert s[IndexOf(s, x)].member == x;
    }
  }

  lemma ScoresUnique(m: map<CString, Score>, s: seq<Elem>)
    requires forall x :: Lookup(s, x) == if x in m then Some(m[x]) else None
    ensures m == Scores(s)
  {
    forall x: CString
      ensures x in m <==> x in Scores(s)
      ensures x in m ==> m[x] == Scores(s)[x]
    {
      ScoresAreLookups(s, x);
    }
  }

  lemma InsertLookup(s: seq<Elem>, e: Elem, x: CString)
    requires Ordered(s)
    ensures Lookup(Insert(s, e), x) == if x == e.member then Some(e.score) else Lookup(s, x)
  {
    hide Less, IndexOf, Lookup, InsertNew, Sequences.RemoveAt;
    var p := IndexOf(s, e.member);
    var t := if p < |s| then RemoveAt(s, p) else s;
    if p < |s| {
      IndexOfRemoveAt(s, p, e.member);
      RemoveAtLookup(s, p, x);
    }
    InsertNewLookup(t, e, x);
  }

  lemma InsertOrdered(s: seq<Elem>, e: Elem)
    requires Ordered(s)
    ensures Ordered(Insert(s, e))
    ensures |Insert(s, e)| == if IndexOf(s, e.member) < |s| then |s| else |s| + 1
  {
    hide Ordered, IndexOf, Sequences.RemoveAt;
    var p := IndexOf(s, e.member);
    var t := if p < |s| then RemoveAt(s, p) else s;
    if p < |s| {
      OrderedUnique(s);
      RemoveAtOrdered(s, p);
      IndexOfRemoveAt(s, p, e.member);
    }
    InsertNewOrdered(t, e);
  }

  lemma OrderedUnique(s: seq<Elem>)
    requires Ordered(s)
    ensures Unique(s)
  {
  }

  /** Inserting keeps the order and updates the map at one member. */
  lemma InsertRefines(s: seq<Elem>, e: Elem)
    requires Ordered(s)
    ensures Ordered(Insert(s, e))
    ensures Scores(Insert(s, e)) == Scores(s)[e.member := e.score]
    ensures |Insert(s, e)| == if e.member in Scores(s) then |s| else |s| + 1
  {
    ScoresAreLookups(s, e.member);
    InsertOrdered(s, e);
    hide Ordered, Insert, Scores;
    var m := Scores(s)[e.member := e.score];
    forall x
      ensures Lookup(Insert(s, e), x) == if x in m then Some(m[x]) else None
    {
      ScoresAreLookups(s, x);
      InsertLookup(s, e, x);
    }
    ScoresUnique(m, Insert(s, e));
  }

  /** Deleting with the stored score removes exactly the member. */
  lemma DeleteStored(s: seq<Elem>, member: CString)
    requires Ordered(s) && member in Scores(s)
    ensures var key := Elem(Scores(s)[member], member);
      && Deletes(s, key)
      && Ordered(Delete(s, key))
      && Scores(Delete(s, key)) == Scores(s) - {member}
      && |Delete(s, key)| == |s| - 1
  {
    var p := IndexOf(s, member);
    ScoresAreLookups(s, member);
    LowerBoundFinds(s, p);
    RemoveAtOrdered(s, p);
    var m := Scores(s) - {member};
    forall x
      ensures Lookup(RemoveAt(s, p), x) == if x in m then Some(m[x]) else None
    {
      ScoresAreLookups(s, x);
      RemoveAtLookup(s, p, x);
    }
    ScoresUnique(m, RemoveAt(s, p));
  }

  /** Deleting the element found takes its member out. */
  lemma DeleteFound(s: seq<Elem>, p: nat)
    requires Ordered(s) && p < |s|
    ensures Deletes(s, s[p]) && Delete(s, s[p]) == RemoveAt(s, p)
    ensures IndexOf(RemoveAt(s, p), s[p].member) == |s| - 1
    ensures IndexOf(s, s[p].member) == p
  {
    LowerBoundFinds(s, p);
    IndexOfRemoveAt(s, p, s[p].member);
  }

  /** Deleting an absent member changes nothing, whatever the score. */
  lemma DeleteAbsent(s: seq<Elem>, key: Elem)
    requires key.member !in Scores(s)
    ensures !Deletes(s, key) && Delete(s, key) == s
  {
    ScoresAreLookups(s, key.member);
  }

  /** With any score: the delete succeeds exactly when that score is at most the stored one
      and no other element lies between the two. */
  lemma DeletesExactly(s: seq<Elem>, key: Elem)
    requires Ordered(s)
    ensures Deletes(s, key) <==>
            && key.member in Scores(s)
            && key.score <= Scores(s)[key.member]
            && forall k :: 0 <= k < |s| && !Less(s[k], key) && s[k].member != key.member
                 ==> Less(Elem(Scores(s)[key.member], key.member), s[k])
    ensures Ordered(Delete(s, key))
  {
    LowerBoundSplits(s, key);
    ScoresAreLookups(s, key.member);
    var p, q := LowerBound(s, key), IndexOf(s, key.member);
    if q < |s| {
      StrCmpZero(key.member, key.member);
      assert s[q].score < key.score <==> Less(s[q], key);
      if p < q {
        assert !Less(s[p], key) && Less(s[p], s[q]);
        LessTotal(s[p], s[q]);
      }
    }
    if Deletes(s, key) {
      assert p == q;
      RemoveAtOrdered(s, p);
    }
  }

  /** A member's rank is the number of elements strictly below it. */
  lemma RankCountsSmaller(s: seq<Elem>, member: CString)
    requires Ordered(s)
    ensures Rank(s, member) == -1 <==> member !in Scores(s)
    ensures var r := Rank(s, member);
      r >= 0 ==> r < |s| && s[r] == Elem(Scores(s)[member], member)
                 && forall k :: 0 <= k < |s| ==> (Less(s[k], s[r]) <==> k < r)
  {
    ScoresAreLookups(s, member);
    var r := IndexOf(s, member);
    if r < |s| {
      LowerBoundFinds(s, r);
      LowerBoundSplits(s, s[r]);
    }
  }

  /** Ranges and ranks undo each other: the element delivered at place `k` of a range has the rank
      it was asked for by, and asking for a member's rank delivers the member. */
  lemma SliceAt(s: seq<Elem>, start: int, end: int, max: nat, k: nat)
    requires k < |Slice(s, start, end, max)|
    ensures var p := FirstIndex(|s|, start) + k; p < |s| && Slice(s, start, end, max)[k] == s[p]
  {
    hide FirstIndex, LastIndex;
  }

  lemma RangeGivesRanks(s: seq<Elem>, start: int, end: int, max: nat, k: nat)
    requires Ordered(s) && k < |Slice(s, start, end, max)|
    ensures Rank(s, Slice(s, start, end, max)[k].member) == FirstIndex(|s|, start) + k
  {
    SliceAt(s, start, end, max, k);
    hide Slice, FirstIndex;
    DeleteFound(s, FirstIndex(|s|, start) + k);
  }

  lemma RankGivesRange(s: seq<Elem>, member: CString, max: nat)
    requires Ordered(s) && member in Scores(s) && max > 0
    ensures var r := Rank(s, member);
      r >= 0 && Slice(s, r, r, max) == [Elem(Scores(s)[member], member)]
  {
    RankCountsSmaller(s, member);
  }

  /** One element stands before another: it has the smaller score, or the same score and, at the first byte
      in which the members differ, its member ends or has the smaller byte. */
  ghost predicate StandsBefore(a: Elem, b: Elem) {
    a.score < b.score || (a.score == b.score && exists k: nat :: SmallerAt(a.member, b.member, k))
  }

  lemma LessMeans(a: Elem, b: Elem)
    ensures Less(a, b) <==> StandsBefore(a, b)
  {
    assert Visible(a.member) == a.member && Visible(b.member) == b.member;
    StrCmpMeans(a.member, b.member);
  }

  /** A range comes out by ascending score, and by ascending member bytes among equal scores. */
  lemma RangeAscends(s: seq<Elem>, start: int, end: int, max: nat, k: nat, l: nat)
    requires Ordered(s) && k < l < |Slice(s, start, end, max)|
    ensures StandsBefore(Slice(s, start, end, max)[k], Slice(s, start, end, max)[l])
  {
    var r := Slice(s, start, end, max);
    SliceAt(s, start, end, max, k);
    SliceAt(s, start, end, max, l);
    LessMeans(r[k], r[l]);
  }
}
