/** src/skiplist.cpp: the skip list, its nodes linked in place at every level. */
module SkipLists {
  import opened Sequences
  import opened Bytes
  import opened SortedSet
  import opened Towers

  // ---------- sequences of nodes, header first ----------

  ghost function ElemsOf(ns: seq<Node>): (es: seq<Elem>)
    ensures |ns| > 0 ==> |es| == |ns| - 1
  {
    if ns == [] then [] else seq(|ns| - 1, k requires 0 <= k < |ns| - 1 => Elem(ns[k + 1].score, ns[k + 1].member))
  }

  lemma ElemAt(ns: seq<Node>, k: nat)
    requires 0 < k < |ns|
    ensures ElemsOf(ns)[k - 1] == Elem(ns[k].score, ns[k].member)
  {
  }

  ghost function NodeAt(ns: seq<Node>, k: nat): Node? {
    if k < |ns| then ns[k] else null
  }

  /** The arrays of forward pointers: all that ever changes in the nodes. */
  ghost function ArraysOf(ns: seq<Node>): set<array<Node?>> {
    set n | n in ns :: n.forward
  }

  lemma ArraysInsert(ns: seq<Node>, p: nat, n: Node)
    requires p <= |ns|
    ensures ArraysOf(InsertAt(ns, p, n)) == ArraysOf(ns) + {n.forward}
  {
    var ns' := InsertAt(ns, p, n);
    forall m
      ensures m in ns' <==> m in ns || m == n
    {
      if m in ns {
        var k :| 0 <= k < |ns| && ns[k] == m;
        InsertAtIndex(ns, p, n, if k < p then k else k + 1);
      }
      InsertAtIndex(ns, p, n, p);
    }
  }

  lemma ArraysRemove(ns: seq<Node>, p: nat)
    requires p < |ns|
    ensures ArraysOf(RemoveAt(ns, p)) <= ArraysOf(ns)
  {
  }

  /** A full-height header, towers of 1 to 32 levels, and no two nodes sharing anything. */
  ghost predicate Shape(ns: seq<Node>): (shaped: bool)
    ensures shaped ==> |ns| > 0 && ns[0].level == MAX_LEVEL
  {
    && |ns| > 0 && ns[0].level == MAX_LEVEL
    && (forall k :: 0 <= k < |ns| ==> 1 <= ns[k].level <= MAX_LEVEL && ns[k].forward.Length == ns[k].level)
    && (forall j, k :: 0 <= j < k < |ns| ==> ns[j] != ns[k] && ns[j].forward != ns[k].forward)
  }

  /** The level-`i` chain runs through exactly the nodes that reach level `i`, in order. */
  ghost predicate Linked(ns: seq<Node>, i: nat)
    requires Shape(ns)
    reads ArraysOf(ns)
  {
    forall k :: 0 <= k < |ns| && i < ns[k].level ==>
      ns[k].forward[i] == NodeAt(ns, NextTall(ns, k + 1, i))
  }

  lemma NodeAtInsert(ns: seq<Node>, p: nat, n: Node, j: nat)
    requires p <= |ns|
    ensures NodeAt(InsertAt(ns, p, n), j) ==
            if j < p then NodeAt(ns, j) else if j == p then n else NodeAt(ns, j - 1)
  {
    if j <= |ns| {
      InsertAtIndex(ns, p, n, j);
    }
  }

  lemma NodeAtRemove(ns: seq<Node>, p: nat, j: nat)
    requires p < |ns|
    ensures NodeAt(RemoveAt(ns, p), j) == if j < p then NodeAt(ns, j) else NodeAt(ns, j + 1)
  {
    if j < |ns| - 1 {
      RemoveAtIndex(ns, p, j);
    }
  }

  /** Who follows whom at level `i` once `n` stands at `p`. */
  lemma FollowerInsert(ns: seq<Node>, i: nat, p: nat, n: Node, k: nat)
    requires 0 < p <= |ns| && ns[0].level > i && k <= |ns|
    requires InsertAt(ns, p, n)[k].level > i
    ensures NodeAt(InsertAt(ns, p, n), NextTall(InsertAt(ns, p, n), k + 1, i)) ==
        if k == p then NodeAt(ns, NextTall(ns, PrevTall(ns, p, i) + 1, i))
        else if k == PrevTall(ns, p, i) && n.level > i then n
        else NodeAt(ns, NextTall(ns, if k < p then k + 1 else k, i))
  {
    hide NextTall, PrevTall, InsertAt;
    NextTallAfterInsert(ns, p, n, k, i);
    NodeAtInsert(ns, p, n, NextTall(InsertAt(ns, p, n), k + 1, i));
  }

  lemma FollowerRemove(ns: seq<Node>, i: nat, p: nat, k: nat)
    requires 0 < p < |ns| && ns[0].level > i && k < |ns| - 1
    requires RemoveAt(ns, p)[k].level > i
    ensures NodeAt(RemoveAt(ns, p), NextTall(RemoveAt(ns, p), k + 1, i)) ==
        if k == PrevTall(ns, p, i) && ns[p].level > i then NodeAt(ns, NextTall(ns, p + 1, i))
        else NodeAt(ns, NextTall(ns, if k < p then k + 1 else k + 2, i))
  {
    hide NextTall, PrevTall, RemoveAt;
    NextTallAfterRemove(ns, p, k, i);
    NodeAtRemove(ns, p, NextTall(RemoveAt(ns, p), k + 1, i));
  }

  lemma FollowBottom(ns: seq<Node>, q: nat)
    requires Shape(ns) && Linked(ns, 0) && q < |ns|
    ensures ns[q].forward.Length == ns[q].level > 0 && ns[q].forward[0] == NodeAt(ns, q + 1)
  {
    NextTallIs(ns, q + 1, 0, q + 1);
  }

  lemma ElemsInsert(ns: seq<Node>, p: nat, n: Node)
    requires 0 < p <= |ns|
    ensures ElemsOf(InsertAt(ns, p, n)) == InsertAt(ElemsOf(ns), p - 1, Elem(n.score, n.member))
  {
    var es := ElemsOf(InsertAt(ns, p, n));
    forall k | 0 <= k < |es|
      ensures es[k] == InsertAt(ElemsOf(ns), p - 1, Elem(n.score, n.member))[k]
    {
      InsertAtIndex(ns, p, n, k + 1);
      InsertAtIndex(ElemsOf(ns), p - 1, Elem(n.score, n.member), k);
    }
  }

  lemma ElemsRemove(ns: seq<Node>, p: nat)
    requires 0 < p < |ns|
    ensures ElemsOf(RemoveAt(ns, p)) == RemoveAt(ElemsOf(ns), p - 1)
  {
    var es := ElemsOf(RemoveAt(ns, p));
    forall k | 0 <= k < |es|
      ensures es[k] == RemoveAt(ElemsOf(ns), p - 1)[k]
    {
      RemoveAtIndex(ns, p, k + 1);
      RemoveAtIndex(ElemsOf(ns), p - 1, k);
    }
  }

  // ---------- the list ----------

  /** The search for a key stops before `p`: the nodes before `p` and only they come before the key. */
  ghost predicate SplitsAt(ns: seq<Node>, p: nat, score: Score, member: Bytes) {
    && 0 < p <= |ns|
    && forall k :: 1 <= k < |ns| ==> (k < p <==> Before(ns[k].score, ns[k].member, score, member))
  }

  /** `level` is the height of the tallest tower, or 1. */
  ghost predicate IsTop(ns: seq<Node>, level: nat) {
    && 1 <= level <= MAX_LEVEL
    && (forall k :: 1 <= k < |ns| ==> ns[k].level <= level)
    && (level > 1 ==> exists k :: 1 <= k < |ns| && ns[k].level == level)
  }

  ghost function SearchPosition(ns: seq<Node>, score: Score, member: Bytes): (p: nat)
    requires |ns| > 0 && Ordered(ElemsOf(ns))
    ensures SplitsAt(ns, p, score, member)
  {
    var key := Elem(score, Visible(member));
    var p := LowerBound(ElemsOf(ns), key) + 1;
    LowerBoundSplits(ElemsOf(ns), key);
    assert SplitsAt(ns, p, score, member) by {
      forall k | 1 <= k < |ns|
        ensures k < p <==> Before(ns[k].score, ns[k].member, score, member)
      {
        StrCmpVisible(ns[k].member, member);
        assert ElemsOf(ns)[k - 1] == Elem(ns[k].score, ns[k].member);
      }
    }
    p
  }

  /** Reading a forward pointer. */
  lemma FollowLink(ns: seq<Node>, i: nat, q: nat)
    requires Shape(ns) && Linked(ns, i) && q < |ns| && i < ns[q].level
    ensures ns[q].forward[i] == NodeAt(ns, NextTall(ns, q + 1, i))
  {
  }

  lemma ShapeInsert(ns: seq<Node>, p: nat, n: Node)
    requires Shape(ns) && 0 < p <= |ns|
    requires 1 <= n.level <= MAX_LEVEL && n.forward.Length == n.level
    requires forall m :: m in ns ==> m != n && m.forward != n.forward
    ensures Shape(InsertAt(ns, p, n))
  {
    var ns' := InsertAt(ns, p, n);
    forall k | 0 <= k < |ns'|
      ensures ns'[k] == n || ns'[k] in ns
      ensures 1 <= ns'[k].level <= MAX_LEVEL && ns'[k].forward.Length == ns'[k].level
    {
      InsertAtIndex(ns, p, n, k);
    }
    forall j, k | 0 <= j < k < |ns'|
      ensures ns'[j] != ns'[k] && ns'[j].forward != ns'[k].forward
    {
      InsertAtIndex(ns, p, n, j);
      InsertAtIndex(ns, p, n, k);
    }
  }

  lemma ShapeRemove(ns: seq<Node>, p: nat)
    requires Shape(ns) && 0 < p < |ns|
    ensures Shape(RemoveAt(ns, p))
  {
    var ns' := RemoveAt(ns, p);
    forall j, k | 0 <= j < k < |ns'|
      ensures ns'[j] != ns'[k] && ns'[j].forward != ns'[k].forward
    {
      RemoveAtIndex(ns, p, j);
      RemoveAtIndex(ns, p, k);
    }
  }

  /** Threading the new node behind its predecessor links the longer list. */
  lemma LinkedInsert(ns: seq<Node>, i: nat, p: nat, n: Node)
    requires Shape(ns) && 0 < p <= |ns| && i < MAX_LEVEL
    requires Shape(InsertAt(ns, p, n)) && i < n.level == n.forward.Length
    requires n.forward[i] == NodeAt(ns, NextTall(ns, PrevTall(ns, p, i) + 1, i))
    requires forall k :: 0 <= k < |ns| && i < ns[k].level ==>
               ns[k].forward[i] == if k == PrevTall(ns, p, i) then n else NodeAt(ns, NextTall(ns, k + 1, i))
    ensures Linked(InsertAt(ns, p, n), i)
  {
    var ns' := InsertAt(ns, p, n);
    forall k | 0 <= k < |ns'| && i < ns'[k].level
      ensures ns'[k].forward[i] == NodeAt(ns', NextTall(ns', k + 1, i))
    {
      InsertAtIndex(ns, p, n, k);
      FollowerInsert(ns, i, p, n, k);
    }
  }

  /** A node too short for a level is not threaded there. */
  lemma LinkedInsertShort(ns: seq<Node>, i: nat, p: nat, n: Node)
    requires Shape(ns) && Linked(ns, i) && 0 < p <= |ns| && i < MAX_LEVEL
    requires Shape(InsertAt(ns, p, n)) && n.level <= i
    ensures Linked(InsertAt(ns, p, n), i)
  {
    var ns' := InsertAt(ns, p, n);
    forall k | 0 <= k < |ns'| && i < ns'[k].level
      ensures ns'[k].forward[i] == NodeAt(ns', NextTall(ns', k + 1, i))
    {
      InsertAtIndex(ns, p, n, k);
      FollowerInsert(ns, i, p, n, k);
    }
  }

  /** Pointing the predecessor past a node, where the node reaches, links the shorter list. */
  lemma LinkedRemove(ns: seq<Node>, i: nat, p: nat)
    requires Shape(ns) && 0 < p < |ns| && i < MAX_LEVEL
    requires Shape(RemoveAt(ns, p))
    requires forall k :: 0 <= k < |ns| && k != p && i < ns[k].level ==>
               ns[k].forward[i] ==
               NodeAt(ns, NextTall(ns, if k == PrevTall(ns, p, i) && i < ns[p].level then p + 1 else k + 1, i))
    ensures Linked(RemoveAt(ns, p), i)
  {
    var ns' := RemoveAt(ns, p);
    forall k | 0 <= k < |ns'| && i < ns'[k].level
      ensures ns'[k].forward[i] == NodeAt(ns', NextTall(ns', k + 1, i))
    {
      RemoveAtIndex(ns, p, k);
      FollowerRemove(ns, i, p, k);
    }
  }

  lemma LinkedRemoveShort(ns: seq<Node>, i: nat, p: nat)
    requires 0 < p < |ns| && Shape(ns) && Shape(RemoveAt(ns, p)) && Linked(ns, i)
    requires ns[p].level <= i < MAX_LEVEL
    ensures Linked(RemoveAt(ns, p), i)
  {
    LinkedRemove(ns, i, p);
  }

  /** The node at `p` follows its level-`i` predecessor exactly when it reaches level `i`. */
  lemma ReachesLevel(ns: seq<Node>, p: nat, i: nat)
    requires Shape(ns) && 0 < p < |ns| && i < MAX_LEVEL
    ensures NodeAt(ns, NextTall(ns, PrevTall(ns, p, i) + 1, i)) == ns[p] <==> i < ns[p].level
  {
    PrevIsOnly(ns, p, i, PrevTall(ns, p, i));
    NextTallSpec(ns, p, i);
  }

  /** One turn of the linking loop: thread `n` behind `u` at level `i` and touch no other level. */
  method LinkLevel(n: Node, u: Node, i: nat, ghost ns: seq<Node>, ghost p: nat)
    requires Shape(ns) && 0 < p <= |ns| && Shape(InsertAt(ns, p, n))
    requires i < n.level && i < MAX_LEVEL && Linked(ns, i)
    requires n.forward.Length == n.level && u == ns[PrevTall(ns, p, i)]
    modifies u.forward, n.forward
    ensures Linked(InsertAt(ns, p, n), i)
    ensures forall j :: 0 <= j < MAX_LEVEL && j != i && old(Linked(ns, j)) ==> Linked(ns, j)
    ensures forall j :: 0 <= j < MAX_LEVEL && j != i && old(Linked(InsertAt(ns, p, n), j)) ==>
        Linked(InsertAt(ns, p, n), j)
  {
    hide NextTall, PrevTall, InsertAt;
    ghost var q := PrevTall(ns, p, i);
    InsertAtIndex(ns, p, n, p);
    forall k | 0 <= k < |ns|
      ensures ns[k].forward != n.forward
    {
      InsertAtIndex(ns, p, n, if k < p then k else k + 1);
    }
    n.forward[i] := u.forward[i];
    u.forward[i] := n;
    LinkedInsert(ns, i, p, n);
  }

  /** One turn of the unlinking loop: point `u` past the node `p` at level `i` and touch no other level. */
  method UnlinkLevel(x: Node, u: Node, i: nat, ghost ns: seq<Node>, ghost p: nat)
    requires Shape(ns) && 0 < p < |ns| && x == ns[p] && Shape(RemoveAt(ns, p))
    requires i < x.level && Linked(ns, i)
    requires u == ns[PrevTall(ns, p, i)]
    modifies u.forward
    ensures Linked(RemoveAt(ns, p), i)
    ensures forall j :: 0 <= j < MAX_LEVEL && j != i && old(Linked(ns, j)) ==> Linked(ns, j)
    ensures forall j :: 0 <= j < MAX_LEVEL && j != i && old(Linked(RemoveAt(ns, p), j)) ==> Linked(RemoveAt(ns, p), j)
  {
    hide NextTall, PrevTall, RemoveAt;
    u.forward[i] := x.forward[i];
    LinkedRemove(ns, i, p);
  }

  /** The inner search loop: along level `i` to the last node before the key. */
  method Advance(from: Node, i: nat, member: Bytes, score: Score, ghost ns: seq<Node>, ghost p: nat, ghost start: nat)
    returns (x: Node)
    requires Shape(ns) && Linked(ns, i) && SplitsAt(ns, p, score, member)
    requires start < p && from == ns[start] && i < from.level
    ensures x == ns[PrevTall(ns, p, i)]
  {
    hide NextTall, PrevTall, StrCmp;
    ghost var q := start;
    x := from;
    FollowLink(ns, i, q);
    while x.forward[i] != null && Before(x.forward[i].score, x.forward[i].member, score, member)
      invariant q < p && x == ns[q] && i < x.level
      invariant x.forward[i] == NodeAt(ns, NextTall(ns, q + 1, i))
      decreases |ns| - q
    {
      NextTallSpec(ns, q + 1, i);
      q := NextTall(ns, q + 1, i);
      x := x.forward[i];
      FollowLink(ns, i, q);
    }
    PrevIsOnly(ns, p, i, q);
  }

  /** The search loop: `update[i]` becomes the last node before the key that reaches level `i`. */
  method FillUpdate(update: array<Node?>, header: Node, level: nat, member: Bytes, score: Score, ghost ns: seq<Node>,
    ghost p: nat)
    returns (x: Node)
    requires Shape(ns) && ns[0] == header && SplitsAt(ns, p, score, member)
    requires 1 <= level <= MAX_LEVEL && forall i :: 0 <= i < level ==> Linked(ns, i)
    requires update.Length == MAX_LEVEL && update !in ArraysOf(ns)
    modifies update
    ensures x == ns[p - 1]
    ensures forall i :: 0 <= i < level ==> update[i] == ns[PrevTall(ns, p, i)]
    ensures forall i :: level <= i < MAX_LEVEL ==> update[i] == old(update[i])
  {
    hide Linked;
    ghost var q: nat := 0;
    x := header;
    var i := level;
    while i > 0
      invariant 0 <= i <= level && forall j :: 0 <= j < level ==> Linked(ns, j)
      invariant q < p && x == ns[q] && i <= x.level
      invariant i < level ==> q == PrevTall(ns, p, i)
      invariant forall j :: i <= j < level ==> update[j] == ns[PrevTall(ns, p, j)]
      invariant forall j :: level <= j < MAX_LEVEL ==> update[j] == old(update[j])
    {
      i := i - 1;
      x := Advance(x, i, member, score, ns, p, q);
      q := PrevTall(ns, p, i);
      update[i] := x;
    }
  }

  /** The linking loop of insertion: every level the new tower reaches, through the saved predecessors. */
  method LinkTower(n: Node, update: array<Node?>, ghost ns: seq<Node>, ghost p: nat)
    requires Shape(ns) && 0 < p <= |ns| && Shape(InsertAt(ns, p, n))
    requires n.forward.Length == n.level <= MAX_LEVEL == update.Length
    requires update !in ArraysOf(InsertAt(ns, p, n))
    requires forall i :: 0 <= i < MAX_LEVEL ==> Linked(ns, i)
    requires forall i :: 0 <= i < n.level ==> update[i] == ns[PrevTall(ns, p, i)]
    modifies ArraysOf(InsertAt(ns, p, n))
    ensures forall i :: 0 <= i < MAX_LEVEL ==> Linked(InsertAt(ns, p, n), i)
  {
    hide Linked;
    ghost var ns' := InsertAt(ns, p, n);
    InsertAtIndex(ns, p, n, p);
    ArraysInsert(ns, p, n);
    var i := 0;
    while i < n.level
      invariant 0 <= i <= n.level
      invariant forall j :: 0 <= j < n.level ==> update[j] == ns[PrevTall(ns, p, j)]
      invariant forall j :: 0 <= j < i ==> Linked(ns', j)
      invariant forall j :: i <= j < MAX_LEVEL ==> Linked(ns, j)
    {
      LinkLevel(n, update[i], i, ns, p);
      i := i + 1;
    }
    forall j | n.level <= j < MAX_LEVEL
      ensures Linked(ns', j)
    {
      LinkedInsertShort(ns, j, p, n);
    }
  }

  /** The unlinking loop of deletion: it stops at the first level the node does not reach. */
  method UnlinkTower(x: Node, update: array<Node?>, level: nat, ghost ns: seq<Node>, ghost p: nat)
    requires Shape(ns) && 0 < p < |ns| && x == ns[p] && x.level <= level
    requires level <= MAX_LEVEL == update.Length
    requires update !in ArraysOf(ns)
    requires forall i :: 0 <= i < MAX_LEVEL ==> Linked(ns, i)
    requires forall i :: 0 <= i < level ==> update[i] == ns[PrevTall(ns, p, i)]
    modifies ArraysOf(ns)
    ensures Shape(RemoveAt(ns, p)) && forall i :: 0 <= i < MAX_LEVEL ==> Linked(RemoveAt(ns, p), i)
  {
    hide Linked, NextTall, PrevTall;
    ghost var ns' := RemoveAt(ns, p);
    ShapeRemove(ns, p);
    hide RemoveAt;
    var i := 0;
    while i < level
      invariant 0 <= i <= x.level
      invariant forall j :: 0 <= j < level ==> update[j] == ns[PrevTall(ns, p, j)]
      invariant forall j :: 0 <= j < i ==> Linked(ns', j)
      invariant forall j :: i <= j < MAX_LEVEL ==> Linked(ns, j)
    {
      ReachesLevel(ns, p, i);
      FollowLink(ns, i, PrevTall(ns, p, i));
      if update[i].forward[i] != x {
        assert x.level <= i;
        break;
      }
      assert i < x.level;
      UnlinkLevel(x, update[i], i, ns, p);
      i := i + 1;
    }
    forall j | i <= j < MAX_LEVEL
      ensures Linked(ns', j)
    {
      LinkedRemoveShort(ns, j, p);
    }
  }

  /** The levels above every tower are empty, and only those. */
  lemma HeaderPointer(ns: seq<Node>, i: nat)
    requires Shape(ns) && i < MAX_LEVEL && Linked(ns, i)
    ensures ns[0].forward[i] == null <==> forall k :: 1 <= k < |ns| ==> ns[k].level <= i
  {
    NextTallSpec(ns, 1, i);
  }

  /** The shrinking loop of deletion. */
  method ShrinkLevel(header: Node, level: nat, ghost ns: seq<Node>) returns (top: nat)
    requires Shape(ns) && ns[0] == header && forall i :: 0 <= i < MAX_LEVEL ==> Linked(ns, i)
    requires 1 <= level <= MAX_LEVEL && forall k :: 1 <= k < |ns| ==> ns[k].level <= level
    ensures IsTop(ns, top)
  {
    hide Linked;
    top := level;
    if top > 1 {
      HeaderPointer(ns, top - 1);
    }
    while top > 1 && header.forward[top - 1] == null
      invariant 1 <= top <= level && forall k :: 1 <= k < |ns| ==> ns[k].level <= top
      invariant forall i :: 0 <= i < MAX_LEVEL ==> Linked(ns, i)
      invariant top > 1 ==> (ns[0].forward[top - 1] == null <==> forall k :: 1 <= k < |ns| ==> ns[k].level <= top - 1)
    {
      top := top - 1;
      if top > 1 {
        HeaderPointer(ns, top - 1);
      }
    }
  }

  /** `random_level`: any height from 1 to 32. */
  method RandomLevel() returns (level: nat)
    ensures 1 <= level <= 32
  {
    level := 1;
    while level < MAX_LEVEL
      invariant 1 <= level <= MAX_LEVEL
    {
      var heads: bool := *;
      if !heads {
        break;
      }
      level := level + 1;
    }
  }

  /** Above the top level every predecessor is the header. */
  lemma PrevAboveTop(ns: seq<Node>, p: nat, i: nat)
    requires 0 < p <= |ns| && ns[0].level > i
    requires forall k :: 1 <= k < |ns| ==> ns[k].level <= i
    ensures PrevTall(ns, p, i) == 0
  {
  }

  /** The loop that fills `update` from the old top level up to the new tower's height. */
  method FillAboveTop(update: array<Node?>, header: Node, level: nat, lvl: nat, ghost ns: seq<Node>, ghost p: nat)
    requires 0 < p <= |ns| && ns[0] == header && ns[0].level == MAX_LEVEL == update.Length
    requires level <= lvl <= MAX_LEVEL && forall k :: 1 <= k < |ns| ==> ns[k].level <= level
    requires forall i :: 0 <= i < level ==> update[i] == ns[PrevTall(ns, p, i)]
    modifies update
    ensures forall i :: 0 <= i < lvl ==> update[i] == ns[PrevTall(ns, p, i)]
  {
    for i := level to lvl
      invariant forall j :: 0 <= j < i ==> update[j] == ns[PrevTall(ns, p, j)]
    {
      PrevAboveTop(ns, p, i);
      update[i] := header;
    }
  }

  lemma TopAfterInsert(ns: seq<Node>, p: nat, n: Node, level: nat)
    requires 0 < p <= |ns| && IsTop(ns, level) && 1 <= n.level <= MAX_LEVEL
    ensures IsTop(InsertAt(ns, p, n), if n.level > level then n.level else level)
  {
    var ns' := InsertAt(ns, p, n);
    var top := if n.level > level then n.level else level;
    forall k | 1 <= k < |ns'|
      ensures ns'[k].level <= top
    {
      InsertAtIndex(ns, p, n, k);
    }
    if n.level >= level {
      InsertAtIndex(ns, p, n, p);
      assert ns'[p].level == top;
    } else {
      var k :| 1 <= k < |ns| && ns[k].level == level;
      var k' := if k < p then k else k + 1;
      InsertAtIndex(ns, p, n, k');
      assert ns'[k'].level == top;
    }
  }

  class SkipList {
    const header: Node
    var level: nat
    var length: nat
    /** The header and the live nodes in level-0 order. */
    ghost var nodes: seq<Node>

    /** The nodes' forward arrays. */
    ghost var Arrays: set<array<Node?>>

    ghost predicate Valid()
      reads this, Arrays
    {
      && Shape(nodes) && nodes[0] == header && Arrays == ArraysOf(nodes)
      && Ordered(ElemsOf(nodes))
      && IsTop(nodes, level)
      && length == |nodes| - 1
      && forall i :: 0 <= i < MAX_LEVEL ==> Linked(nodes, i)
    }

    ghost function Elems(): seq<Elem>
      reads this
    {
      ElemsOf(nodes)
    }

    constructor ()
      ensures Valid() && Elems() == [] && fresh(Arrays)
    {
      var h := new Node([], 0, MAX_LEVEL);
      header := h;
      level, length := 1, 0;
      nodes, Arrays := [h], {h.forward};
    }

    /** What the links say: at each level a node points at the next node that reaches the level, and at nothing
        when there is none; in the header nothing is linked from `level` up. */
    lemma Links(k: nat, i: nat)
      requires Valid() && k < |nodes| && i < nodes[k].level
      ensures (exists j :: k < j < |nodes| && nodes[j].level > i && nodes[k].forward[i] == nodes[j]
                 && forall l :: k < l < j ==> nodes[l].level <= i)
           || (nodes[k].forward[i] == null && forall l :: k < l < |nodes| ==> nodes[l].level <= i)
      ensures k == 0 && i >= level ==> nodes[k].forward[i] == null
    {
      var j := NextTall(nodes, k + 1, i);
      NextTallSpec(nodes, k + 1, i);
      FollowLink(nodes, i, k);
    }

    /** Walk level 0 to the member. */
    method Find(member: Bytes) returns (cur: Node?)
      requires Valid()
      ensures var k := IndexOf(Elems(), Visible(member));
        cur == if k < |Elems()| then nodes[k + 1] else null
    {
      hide Linked, Ordered, StrCmp, NextTall, PrevTall, Shape, IsTop, ElemsOf, ArraysOf, IndexOf, Visible, NulFree;
      ghost var q: nat := 1;
      FollowBottom(nodes, 0);
      cur := header.forward[0];
      while cur != null
        invariant 0 < q <= |nodes| && cur == NodeAt(nodes, q)
        invariant q - 1 <= IndexOf(Elems(), Visible(member)) && Linked(nodes, 0)
        decreases |nodes| - q
      {
        ElemAt(nodes, q);
        StrCmpVisible(cur.member, member);
        StrCmpZero(cur.member, Visible(member));
        if StrCmp(cur.member, member) == 0 {
          break;
        }
        FollowBottom(nodes, q);
        cur := cur.forward[0];
        q := q + 1;
      }
    }

    /** The found branch of deletion: unlink the node everywhere, then lower the level. */
    method Discard(x: Node, update: array<Node?>, ghost p: nat)
      requires Valid() && 0 < p < |nodes| && x == nodes[p] && update.Length == MAX_LEVEL && update !in Arrays
      requires forall i :: 0 <= i < level ==> update[i] == nodes[PrevTall(nodes, p, i)]
      modifies this, Arrays
      ensures Valid() && Arrays <= old(Arrays)
      ensures Elems() == RemoveAt(old(Elems()), p - 1)
    {
      hide Linked, Ordered, StrCmp, NextTall, PrevTall, Shape;
      ghost var ns := nodes;
      ArraysRemove(ns, p);
      ElemsRemove(ns, p);
      SortedSet.RemoveAtOrdered(ElemsOf(ns), p - 1);
      UnlinkTower(x, update, level, ns, p);
      RemoveAtIndex(ns, p, 0);
      nodes, Arrays := RemoveAt(ns, p), ArraysOf(RemoveAt(ns, p));
      length := length - 1;
      assert forall k :: 0 <= k < |nodes| ==> nodes[k] in ns;
      level := ShrinkLevel(header, level, nodes);
    }

    method Delete(member: Bytes, score: Score) returns (found: bool)
      requires Valid()
      modifies this, Arrays
      ensures Valid() && Arrays <= old(Arrays)
      ensures found == Deletes(old(Elems()), Elem(score, Visible(member)))
      ensures Elems() == SortedSet.Delete(old(Elems()), Elem(score, Visible(member)))
    {
      hide Linked, Ordered, StrCmp, NextTall, PrevTall, Shape;
      ghost var p := SearchPosition(nodes, score, member);
      var update := new Node?[MAX_LEVEL];
      var pred := FillUpdate(update, header, level, member, score, nodes, p);
      FollowBottom(nodes, p - 1);
      var x := pred.forward[0];
      if x == null {
        return false;
      }
      StrCmpVisible(x.member, member);
      StrCmpZero(x.member, Visible(member));
      if StrCmp(x.member, member) != 0 {
        return false;
      }
      Discard(x, update, p);
      return true;
    }

    /** The second half of insertion, for a member that is not in the list: raise the level if the
        new tower is taller, then link it. Only entries of `update` below the tower's height are read,
        and each is the true predecessor by then. */
    method LinkNew(member: Bytes, score: Score, lvl: nat, update: array<Node?>)
      requires Valid() && 1 <= lvl <= MAX_LEVEL == update.Length && update !in Arrays
      requires IndexOf(Elems(), Visible(member)) == |Elems()|
      requires forall i :: 0 <= i < level ==>
          update[i] == nodes[PrevTall(nodes, SearchPosition(nodes, score, member), i)]
      modifies this, Arrays, update
      ensures Valid() && fresh(Arrays - old(Arrays))
      ensures Elems() == InsertNew(old(Elems()), Elem(score, Visible(member)))
    {
      hide Linked, Ordered, StrCmp, NextTall, PrevTall, Shape, IndexOf, LowerBound, ElemsOf, Sequences.InsertAt;
      ghost var ns, p, top := nodes, SearchPosition(nodes, score, member), level;
      if lvl > level {
        FillAboveTop(update, header, level, lvl, ns, p);
        level := lvl;
      }
      var n := new Node(member, score, lvl);
      ShapeInsert(ns, p, n);
      ArraysInsert(ns, p, n);
      LinkTower(n, update, ns, p);
      length := length + 1;
      nodes, Arrays := InsertAt(ns, p, n), Arrays + {n.forward};
      InsertAtIndex(ns, p, n, 0);
      TopAfterInsert(ns, p, n, top);
      ElemsInsert(ns, p, n);
      InsertNewOrdered(ElemsOf(ns), Elem(score, n.member));
    }

    /** The replace path: if the member is in the list, delete it and search again. The delete may
        lower `level`, and then the entries of `update` from there up are those of the first search. */
    method RemoveOld(member: Bytes, score: Score, update: array<Node?>)
      requires Valid() && update.Length == MAX_LEVEL && update !in Arrays
      requires forall i :: 0 <= i < level ==>
          update[i] == nodes[PrevTall(nodes, SearchPosition(nodes, score, member), i)]
      modifies this, Arrays, update
      ensures Valid() && Arrays <= old(Arrays)
      ensures forall i :: 0 <= i < level ==>
          update[i] == nodes[PrevTall(nodes, SearchPosition(nodes, score, member), i)]
      ensures IndexOf(Elems(), Visible(member)) == |Elems()|
      ensures var es, k := old(Elems()), IndexOf(old(Elems()), Visible(member));
        Elems() == if k < |es| then Sequences.RemoveAt(es, k) else es
    {
      hide Linked, Ordered, StrCmp, NextTall, PrevTall, Shape, LowerBound, IndexOf, Deletes, SortedSet.Delete, SplitsAt;
      var cur := Find(member);
      if cur != null {
        ghost var es, k := Elems(), IndexOf(Elems(), Visible(member));
        DeleteFound(es, k);
        var deleted := Delete(member, cur.score);
        assert deleted;
        var x := FillUpdate(update, header, level, member, score, nodes, SearchPosition(nodes, score, member));
      }
    }

    method Insert(member: Bytes, score: Score)
      requires Valid()
      modifies this, Arrays
      ensures Valid() && fresh(Arrays - old(Arrays))
      ensures Elems() == SortedSet.Insert(old(Elems()), Elem(score, Visible(member)))
    {
      hide Linked, Ordered, StrCmp, NextTall, PrevTall, Shape, SplitsAt, LowerBound;
      var update := new Node?[MAX_LEVEL];
      var x := FillUpdate(update, header, level, member, score, nodes, SearchPosition(nodes, score, member));
      RemoveOld(member, score, update);
      var lvl := RandomLevel();
      LinkNew(member, score, lvl, update);
    }

    method GetScore(member: Bytes) returns (score: Option<Score>)
      requires Valid()
      ensures score == Lookup(Elems(), Visible(member))
    {
      var x := Find(member);
      score := if x == null then None else Some(x.score);
    }

    method GetRank(member: Bytes) returns (rank: int)
      requires Valid()
      ensures rank == Rank(Elems(), Visible(member))
    {
      hide Linked, Ordered, StrCmp, NextTall, PrevTall, Shape, IsTop, ElemsOf, ArraysOf, IndexOf, Visible, NulFree;
      FollowBottom(nodes, 0);
      var x := header.forward[0];
      rank := 0;
      while x != null
        invariant 0 <= rank < |nodes| && x == NodeAt(nodes, rank + 1)
        invariant rank <= IndexOf(Elems(), Visible(member)) && Linked(nodes, 0)
        decreases |nodes| - rank
      {
        ElemAt(nodes, rank + 1);
        StrCmpVisible(x.member, member);
        StrCmpZero(x.member, Visible(member));
        if StrCmp(x.member, member) == 0 {
          return rank;
        }
        FollowBottom(nodes, rank + 1);
        x := x.forward[0];
        rank := rank + 1;
      }
      return -1;
    }

    /** The skipping loop of a range: to the node at position `start`. */
    method Walk(start: nat) returns (x: Node?)
      requires Valid() && start <= |Elems()|
      ensures Valid() && x == NodeAt(nodes, start + 1)
    {
      hide Linked, Ordered, Shape, IsTop, ArraysOf, NextTall;
      FollowBottom(nodes, 0);
      x := header.forward[0];
      for i := 0 to start
        invariant x == NodeAt(nodes, i + 1) && Valid()
      {
        FollowBottom(nodes, i + 1);
        x := x.forward[0];
      }
    }

    /** The collecting loop of a range: from position `start` on, while `max` allows. */
    method Collect(from: Node?, start: nat, end: nat, max: nat) returns (out: seq<Elem>)
      requires Valid() && start <= end < |Elems()| && from == NodeAt(nodes, start + 1)
      ensures out == if end + 1 - start <= max then Elems()[start..end + 1] else Elems()[start..start + max]
    {
      hide Linked, Ordered, Shape, IsTop, ElemsOf, ArraysOf, NextTall;
      ghost var es := Elems();
      var x, i := from, start;
      out := [];
      while i <= end && x != null && |out| < max
        invariant start <= i <= end + 1 && x == NodeAt(nodes, i + 1) && Linked(nodes, 0)
        invariant |out| == i - start <= max && out == es[start..i]
      {
        ElemAt(nodes, i + 1);
        assert es[start..i] + [es[i]] == es[start..i + 1];
        out := out + [Elem(x.score, x.member)];
        FollowBottom(nodes, i + 1);
        x := x.forward[0];
        i := i + 1;
      }
    }

    /** Walk to `start`, then collect up to `max` elements: the slice of the sorted elements. */
    method RangeByRank(start: int, end: int, max: nat) returns (out: seq<Elem>)
      requires Valid()
      ensures out == Slice(Elems(), start, end, max)
    {
      hide Linked, Ordered, Shape, IsTop, ElemsOf, NodeAt;
      SliceIs(Elems(), start, end, max);
      hide FirstIndex, LastIndex, Slice;
      var a, b := ClampRange(length, start, end);
      if a > b { return []; }
      var x := Walk(a);
      out := Collect(x, a, b, max);
    }

    method Length() returns (n: nat)
      requires Valid()
      ensures n == |Elems()|
    {
      n := length;
    }
  }
}
