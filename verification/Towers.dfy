/** Which node follows which at each level, as a matter of tower heights alone. */
module Towers {
  import opened Sequences
  import opened Bytes
  import opened SortedSet

  const MAX_LEVEL: nat := 32

  class Node {
    const member: CString
    const score: Score
    const level: nat
    const forward: array<Node?>

    /** The node keeps what `strcmp` can see of the member, and starts out linked to nothing. */
    constructor (member: Bytes, score: Score, level: nat)
      ensures this.member == Visible(member) && this.score == score && this.level == level
      ensures fresh(forward) && forward.Length == level
      ensures forall i :: 0 <= i < level ==> forward[i] == null
    {
      this.member, this.score, this.level := Visible(member), score, level;
      forward := new Node?[level](_ => null);
    }
  }

  /** The first index at or after `k` whose tower rises above level `i`, or the length. */
  function NextTall(ns: seq<Node>, k: nat, i: nat): (j: nat)
    requires k <= |ns|
    ensures k <= j <= |ns|
    decreases |ns| - k
  {
    if k == |ns| || ns[k].level > i then k else NextTall(ns, k + 1, i)
  }

  /** The last index before `p` whose tower rises above level `i`. */
  function PrevTall(ns: seq<Node>, p: nat, i: nat): (j: nat)
    requires 0 < p <= |ns| && ns[0].level > i
    ensures j < p && ns[j].level > i
  {
    if ns[p - 1].level > i then p - 1 else PrevTall(ns, p - 1, i)
  }

  lemma NextTallSpec(ns: seq<Node>, k: nat, i: nat)
    requires k <= |ns|
    ensures var j := NextTall(ns, k, i); j < |ns| ==> ns[j].level > i
    ensures forall m :: k <= m < NextTall(ns, k, i) ==> ns[m].level <= i
    decreases |ns| - k
  {
    if k < |ns| && ns[k].level <= i {
      NextTallSpec(ns, k + 1, i);
    }
  }

  lemma PrevTallSpec(ns: seq<Node>, p: nat, i: nat)
    requires 0 < p <= |ns| && ns[0].level > i
    ensures forall m :: PrevTall(ns, p, i) < m < p ==> ns[m].level <= i
  {
  }

  lemma NextTallIs(ns: seq<Node>, k: nat, i: nat, j: nat)
    requires k <= j <= |ns| && (j < |ns| ==> ns[j].level > i)
    requires forall m :: k <= m < j ==> ns[m].level <= i
    ensures NextTall(ns, k, i) == j
  {
    NextTallSpec(ns, k, i);
  }

  /** The successor of the new tower `p`, and of every old tower, once `n` stands at `p`. */
  lemma NextTallInsert(ns: seq<Node>, p: nat, n: Node, k: nat, i: nat)
    requires p <= |ns| && k <= |ns| + 1
    ensures var ns' := InsertAt(ns, p, n);
      NextTall(ns', k, i) ==
        if k > p then NextTall(ns, k - 1, i) + 1
        else if NextTall(ns, k, i) < p then NextTall(ns, k, i)
        else if n.level > i then p
        else NextTall(ns, k, i) + 1
  {
    var ns' := InsertAt(ns, p, n);
    var j := if k > p then NextTall(ns, k - 1, i) + 1
        else if NextTall(ns, k, i) < p then NextTall(ns, k, i)
        else if n.level > i then p
        else NextTall(ns, k, i) + 1;
    NextTallSpec(ns, if k > p then k - 1 else k, i);
    if j <= |ns| {
      InsertAtIndex(ns, p, n, j);
    }
    forall m | k <= m < j
      ensures ns'[m].level <= i
    {
      InsertAtIndex(ns, p, n, m);
    }
    NextTallIs(ns', k, i, j);
  }

  lemma NextTallRemove(ns: seq<Node>, p: nat, k: nat, i: nat)
    requires p < |ns| && k < |ns|
    ensures var ns' := RemoveAt(ns, p);
      NextTall(ns', k, i) ==
        if k > p then NextTall(ns, k + 1, i) - 1
        else if NextTall(ns, k, i) < p then NextTall(ns, k, i)
        else NextTall(ns, p + 1, i) - 1
  {
    var ns' := RemoveAt(ns, p);
    var j := if k > p then NextTall(ns, k + 1, i) - 1
        else if NextTall(ns, k, i) < p then NextTall(ns, k, i)
        else NextTall(ns, p + 1, i) - 1;
    NextTallSpec(ns, if k > p then k + 1 else k, i);
    NextTallSpec(ns, p + 1, i);
    if j < |ns'| {
      RemoveAtIndex(ns, p, j);
    }
    forall m | k <= m < j
      ensures ns'[m].level <= i
    {
      RemoveAtIndex(ns, p, m);
    }
    NextTallIs(ns', k, i, j);
  }

  lemma PrevIsOnly(ns: seq<Node>, p: nat, i: nat, k: nat)
    requires k < p <= |ns| && ns[0].level > i && ns[k].level > i
    ensures NextTall(ns, k + 1, i) < p <==> k != PrevTall(ns, p, i)
    ensures k == PrevTall(ns, p, i) ==> NextTall(ns, k + 1, i) == NextTall(ns, p, i)
  {
    PrevTallSpec(ns, p, i);
    NextTallSpec(ns, k + 1, i);
    NextTallSpec(ns, p, i);
    if k == PrevTall(ns, p, i) {
      NextTallIs(ns, k + 1, i, NextTall(ns, p, i));
    }
  }

  /** Who follows tower `k` of the longer sequence. */
  lemma NextTallAfterInsert(ns: seq<Node>, p: nat, n: Node, k: nat, i: nat)
    requires 0 < p <= |ns| && ns[0].level > i && k <= |ns|
    requires InsertAt(ns, p, n)[k].level > i
    ensures var o := NextTall(ns, if k == p then PrevTall(ns, p, i) + 1 else if k < p then k + 1 else k, i);
      NextTall(InsertAt(ns, p, n), k + 1, i) ==
        if k == PrevTall(ns, p, i) && n.level > i then p
        else if o < p then o else o + 1
  {
    hide InsertAt, PrevTall, NextTall;
    InsertAtIndex(ns, p, n, k);
    var next := NextTall(InsertAt(ns, p, n), k + 1, i);
    NextTallInsert(ns, p, n, k + 1, i);
    if k < p {
      var o := NextTall(ns, k + 1, i);
      PrevIsOnly(ns, p, i, k);
      assert next == if k == PrevTall(ns, p, i) && n.level > i then p else if o < p then o else o + 1;
    } else if k == p {
      PrevIsOnly(ns, p, i, PrevTall(ns, p, i));
      assert next == NextTall(ns, PrevTall(ns, p, i) + 1, i) + 1;
    } else {
      assert next == NextTall(ns, k, i) + 1;
    }
  }

  lemma NextTallAfterRemove(ns: seq<Node>, p: nat, k: nat, i: nat)
    requires 0 < p < |ns| && ns[0].level > i && k < |ns| - 1
    requires RemoveAt(ns, p)[k].level > i
    ensures var o := NextTall(ns,
        if k == PrevTall(ns, p, i) && ns[p].level > i then p + 1 else if k < p then k + 1 else k + 2, i);
      o != p && NextTall(RemoveAt(ns, p), k + 1, i) == if o < p then o else o - 1
  {
    RemoveAtIndex(ns, p, k);
    NextTallRemove(ns, p, k + 1, i);
    if k < p {
      PrevIsOnly(ns, p, i, k);
      NextTallSpec(ns, k + 1, i);
    }
  }
}
