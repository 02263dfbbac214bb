/** src/list.cpp: a doubly linked list, proved against a sequence. */
module LinkedLists {
  import opened Sequences
  import opened Bytes

  class ListNode {
    const value: Bytes
    var prev: ListNode?
    var next: ListNode?

    constructor (value: Bytes)
      ensures this.value == value && prev == null && next == null
    {
      this.value := value;
      prev, next := null, null;
    }
  }

  ghost function Values(ns: seq<ListNode>): (vs: seq<Bytes>)
    ensures |vs| == |ns|
  {
    if ns == [] then [] else [ns[0].value] + Values(ns[1..])
  }

  lemma {:induction false} ValueAt(ns: seq<ListNode>, i: nat)
    requires i < |ns|
    ensures Values(ns)[i] == ns[i].value
  {
    if i > 0 {
      ValueAt(ns[1..], i - 1);
    }
  }

  lemma ValuesFirst(n: ListNode, ns: seq<ListNode>)
    ensures Values([n] + ns) == [n.value] + Values(ns)
  {
    assert ([n] + ns)[1..] == ns;
  }

  lemma {:induction false} ValuesLast(ns: seq<ListNode>, n: ListNode)
    ensures Values(ns + [n]) == Values(ns) + [n.value]
  {
    if ns != [] {
      ValuesLast(ns[1..], n);
      assert (ns + [n])[1..] == ns[1..] + [n];
    }
  }

  /** Position `i` points back and on as it should, when `before` comes before the nodes and `after` behind. */
  ghost predicate Placed(ns: seq<ListNode>, i: nat, before: ListNode?, after: ListNode?)
    requires i < |ns|
    reads ns[i]
  {
    && ns[i].prev == (if i == 0 then before else ns[i - 1])
    && ns[i].next == (if i == |ns| - 1 then after else ns[i + 1])
  }

  /** The nodes point at each other in both directions, and at `before` and `after` at the ends. */
  ghost predicate Linked(ns: seq<ListNode>, before: ListNode?, after: ListNode?)
    reads ns
  {
    && (forall i :: 0 <= i < |ns| ==> Placed(ns, i, before, after))
    && (forall i, j :: 0 <= i < j < |ns| ==> ns[i] != ns[j])
  }

  ghost function First(ns: seq<ListNode>, after: ListNode?): ListNode? {
    if ns == [] then after else ns[0]
  }

  ghost function Last(ns: seq<ListNode>, before: ListNode?): ListNode? {
    if ns == [] then before else ns[|ns| - 1]
  }

  ghost predicate Parts(ns: seq<ListNode>, a: seq<ListNode>, b: seq<ListNode>) {
    ns == a + b
  }

  /** A chain can be cut anywhere, and two chains that share no node can be joined. */
  lemma LinkedCut(ns: seq<ListNode>, a: seq<ListNode>, b: seq<ListNode>, before: ListNode?, after: ListNode?)
    requires Parts(ns, a, b) && Linked(ns, before, after)
    ensures Linked(a, before, First(b, after)) && Linked(b, Last(a, before), after)
  {
    forall i | 0 <= i < |a|
      ensures Placed(a, i, before, First(b, after))
    {
      assert Placed(ns, i, before, after);
    }
    forall i | 0 <= i < |b|
      ensures Placed(b, i, Last(a, before), after)
    {
      assert Placed(ns, |a| + i, before, after);
    }
    assert forall i :: 0 <= i < |a| ==> a[i] == ns[i];
    assert forall i :: 0 <= i < |b| ==> b[i] == ns[|a| + i];
  }

  lemma LinkedJoin(a: seq<ListNode>, b: seq<ListNode>, before: ListNode?, after: ListNode?)
    requires Linked(a, before, First(b, after)) && Linked(b, Last(a, before), after)
    requires forall i, j :: 0 <= i < |a| && 0 <= j < |b| ==> a[i] != b[j]
    ensures Linked(a + b, before, after)
  {
    var ns := a + b;
    forall i | 0 <= i < |ns|
      ensures Placed(ns, i, before, after)
    {
      if i < |a| {
        assert Placed(a, i, before, First(b, after));
      } else {
        assert Placed(b, i - |a|, Last(a, before), after);
      }
    }
    assert forall i :: 0 <= i < |ns| ==> ns[i] == if i < |a| then a[i] else b[i - |a|];
  }

  lemma LinkedNone(ns: seq<ListNode>)
    requires ns == []
    ensures Linked(ns, null, null)
  {
  }

  lemma LinkedEnds(ns: seq<ListNode>, before: ListNode?, after: ListNode?)
    requires ns != [] && Linked(ns, before, after)
    ensures ns[0].prev == before && ns[|ns| - 1].next == after
  {
    assert Placed(ns, 0, before, after) && Placed(ns, |ns| - 1, before, after);
  }

  /** A node before a chain that points back at it, and one behind a chain that points on at it. */
  lemma LinkedFront(n: ListNode, ns: seq<ListNode>)
    requires Linked(ns, n, null) && n !in ns && n.prev == null && n.next == First(ns, null)
    ensures Linked([n] + ns, null, null)
    ensures First([n] + ns, null) == n && Last([n] + ns, null) == Last(ns, n)
    ensures forall x :: x in [n] + ns ==> x == n || x in ns
  {
    LinkedJoin([n], ns, null, null);
  }

  lemma LinkedBack(ns: seq<ListNode>, n: ListNode)
    requires Linked(ns, null, n) && n !in ns && n.prev == Last(ns, null) && n.next == null
    ensures Linked(ns + [n], null, null)
    ensures First(ns + [n], null) == First(ns, n) && Last(ns + [n], null) == n
    ensures forall x :: x in ns + [n] ==> x == n || x in ns
  {
    LinkedJoin(ns, [n], null, null);
  }

  /** A nonempty chain without its first, or its last, node. */
  lemma Beheaded(ns: seq<ListNode>) returns (n: ListNode, rest: seq<ListNode>)
    requires ns != []
    ensures Parts(ns, [n], rest) && Values(ns) == [n.value] + Values(rest)
    ensures forall x :: x in rest ==> x in ns
    ensures |rest| == |ns| - 1 && n == First(ns, null) && (rest != [] ==> Last(rest, null) == Last(ns, null))
  {
    n, rest := ns[0], ns[1..];
    ValuesFirst(n, rest);
    assert ns == [n] + rest;
  }

  lemma Curtailed(ns: seq<ListNode>) returns (n: ListNode, rest: seq<ListNode>)
    requires ns != []
    ensures Parts(ns, rest, [n]) && Values(ns) == Values(rest) + [n.value]
    ensures forall x :: x in rest ==> x in ns
    ensures |rest| == |ns| - 1 && n == Last(ns, null) && (rest != [] ==> First(rest, null) == First(ns, null))
  {
    n, rest := ns[|ns| - 1], ns[..|ns| - 1];
    ValuesLast(rest, n);
    assert ns == rest + [n];
  }

  /** Turning the first node's `prev`, or the last one's `next`, elsewhere. */
  method PointBack(n: ListNode, before: ListNode?, ghost ns: seq<ListNode>, ghost after: ListNode?)
    requires ns != [] && n == ns[0] && Linked(ns, n.prev, after)
    modifies n`prev
    ensures n.prev == before && Linked(ns, before, after)
  {
    n.prev := before;
    forall i | 0 <= i < |ns|
      ensures Placed(ns, i, before, after)
    {
      assert old(Placed(ns, i, n.prev, after));
    }
  }

  method PointOn(n: ListNode, after: ListNode?, ghost ns: seq<ListNode>, ghost before: ListNode?)
    requires ns != [] && n == ns[|ns| - 1] && Linked(ns, before, n.next)
    modifies n`next
    ensures n.next == after && Linked(ns, before, after)
  {
    n.next := after;
    forall i | 0 <= i < |ns|
      ensures Placed(ns, i, before, after)
    {
      assert old(Placed(ns, i, before, n.next));
    }
  }

  class List {
    var head: ListNode?
    var tail: ListNode?
    var len: nat
    ghost var nodes: seq<ListNode>
    ghost var Repr: set<ListNode>

    ghost predicate Valid()
      reads this, Repr
    {
      && (forall n :: n in nodes ==> n in Repr)
      && len == |nodes|
      && head == First(nodes, null)
      && tail == Last(nodes, null)
      && Linked(nodes, null, null)
    }

    ghost function Items(): seq<Bytes>
      reads this
    {
      Values(nodes)
    }

    constructor ()
      ensures Valid() && Items() == [] && Repr == {}
    {
      head, tail, len, nodes, Repr := null, null, 0, [], {};
    }

    method LPush(value: Bytes)
      requires Valid()
      modifies this, Repr
      ensures Valid() && Items() == [value] + old(Items())
      ensures fresh(Repr - old(Repr))
    {
      hide Values, Linked;
      ghost var ns := nodes;
      var n := new ListNode(value);
      if head == null {
        head, tail := n, n;
      } else {
        n.next := head;
        LinkedEnds(ns, null, null);
        PointBack(head, n, ns, null);
        head := n;
      }
      len, nodes, Repr := len + 1, [n] + ns, Repr + {n};
      ValuesFirst(n, ns);
      LinkedFront(n, ns);
    }

    method RPush(value: Bytes)
      requires Valid()
      modifies this, Repr
      ensures Valid() && Items() == old(Items()) + [value]
      ensures fresh(Repr - old(Repr))
    {
      hide Values, Linked;
      ghost var ns := nodes;
      var n := new ListNode(value);
      if tail == null {
        head, tail := n, n;
      } else {
        n.prev := tail;
        LinkedEnds(ns, null, null);
        PointOn(tail, n, ns, null);
        tail := n;
      }
      len, nodes, Repr := len + 1, ns + [n], Repr + {n};
      ValuesLast(ns, n);
      LinkedBack(ns, n);
    }

    method LPop() returns (value: Option<Bytes>)
      requires Valid()
      modifies this, Repr
      ensures Valid() && Repr == old(Repr)
      ensures match value
        case Some(v) => old(Items()) == [v] + Items()
        case None => old(Items()) == Items() == []
    {
      if head == null {
        return None;
      }
      hide Values, Parts;
      ghost var ns := nodes;
      ghost var n, rest := Beheaded(ns);
      assert Placed(ns, 0, null, null);
      value := Some(head.value);
      head, len, nodes := head.next, len - 1, rest;
      LinkedCut(ns, [n], rest, null, null);
      if head != null {
        assert Placed(rest, 0, n, null);
        PointBack(head, null, rest, null);
      } else {
        tail := null;
      }
    }

    method RPop() returns (value: Option<Bytes>)
      requires Valid()
      modifies this, Repr
      ensures Valid() && Repr == old(Repr)
      ensures match value
        case Some(v) => old(Items()) == Items() + [v]
        case None => old(Items()) == Items() == []
    {
      if tail == null {
        return None;
      }
      hide Values, Linked, Parts;
      ghost var ns := nodes;
      ghost var n, rest := Curtailed(ns);
      value := Some(tail.value);
      LinkedCut(ns, rest, [n], null, null);
      LinkedEnds([n], Last(rest, null), null);
      tail, len, nodes := tail.prev, len - 1, rest;
      LinkedCut(ns, rest, [n], null, null);
      if tail != null {
        LinkedEnds(rest, null, n);
        PointOn(tail, null, rest, null);
      } else {
        LinkedNone(rest);
        head := null;
      }
    }

    method Length() returns (n: nat)
      requires Valid()
      ensures n == |Items()|
    {
      n := len;
    }

    /** `list_index` walks from the nearer end. */
    method Index(index: int) returns (value: Option<Bytes>)
      requires Valid()
      ensures value == ItemAt(Items(), index)
    {
      var at := if index < 0 then len + index else index;
      if at < 0 || at >= len {
        return None;
      }
      var n: ListNode?;
      if at < len / 2 {
        n := head;
        for i := 0 to at
          invariant n == nodes[i]
        {
          assert Placed(nodes, i, null, null);
          n := n.next;
        }
      } else {
        n := tail;
        for i := len - 1 downto at
          invariant n == nodes[i]
        {
          assert Placed(nodes, i + 1, null, null);
          n := n.prev;
        }
      }
      ValueAt(nodes, at);
      return Some(n.value);
    }

    /** The node some steps from the head. */
    method Walk(steps: nat) returns (n: ListNode)
      requires Valid() && steps < len
      ensures n == nodes[steps]
    {
      n := head;
      for i := 0 to steps
        invariant n == nodes[i]
      {
        assert Placed(nodes, i, null, null);
        n := n.next;
      }
    }

    /** The values from position `a` to `b`, at most `max`. */
    method Collect(a: nat, b: nat, max: nat) returns (values: seq<Bytes>)
      requires Valid() && a <= b < len
      ensures values == Items()[a..if b + 1 - a <= max then b + 1 else a + max]
    {
      hide Values;
      ghost var items := Items();
      values := [];
      var n: ListNode? := Walk(a);
      var i := a;
      while i <= b && |values| < max
        invariant a <= i <= b + 1 && |values| == i - a <= max
        invariant i <= b ==> n == nodes[i]
        invariant values == items[a..i]
      {
        assert Placed(nodes, i, null, null);
        ValueAt(nodes, i);
        assert items[a..i] + [items[i]] == items[a..i + 1];
        values := values + [n.value];
        n := n.next;
        i := i + 1;
      }
    }

    /** `list_range`: at most `max` values, from `start` to `end` inclusive. */
    method Range(start: int, end: int, max: nat) returns (values: seq<Bytes>)
      requires Valid()
      ensures values == Slice(Items(), start, end, max)
    {
      hide Values;
      SliceIs(Items(), start, end, max);
      hide FirstIndex, LastIndex, Slice;
      var a, b := ClampRange(len, start, end);
      if a > b {
        return [];
      }
      values := Collect(a, b, max);
    }
  }

  // ---------- the handlers' loops over their arguments ----------

  lemma PushedNone(values: seq<Bytes>, items: seq<Bytes>)
    ensures Pushed(values[..0], items) == items
  {
  }

  lemma PushedNext(values: seq<Bytes>, i: nat, items: seq<Bytes>)
    requires i < |values|
    ensures Pushed(values[..i + 1], items) == [values[i]] + Pushed(values[..i], items)
  {
    assert values[..i + 1] == values[..i] + [values[i]];
    ReverseLast(values[..i], values[i]);
  }

  /** LPUSH: the values end up in front, the last one first. */
  method PushLeft(l: List, values: seq<Bytes>)
    requires l.Valid()
    modifies l, l.Repr
    ensures l.Valid() && fresh(l.Repr - old(l.Repr)) && l.Items() == Pushed(values, old(l.Items()))
  {
    hide Pushed, Values;
    ghost var before := l.Items();
    PushedNone(values, before);
    for i := 0 to |values|
      invariant l.Valid() && l.Items() == Pushed(values[..i], before)
      invariant fresh(l.Repr - old(l.Repr))
    {
      PushedNext(values, i, before);
      l.LPush(values[i]);
    }
    assert values[..|values|] == values;
  }

  /** RPUSH: the values end up behind, in their order. */
  method PushRight(l: List, values: seq<Bytes>)
    requires l.Valid()
    modifies l, l.Repr
    ensures l.Valid() && fresh(l.Repr - old(l.Repr)) && l.Items() == old(l.Items()) + values
  {
    hide Values;
    ghost var before := l.Items();
    for i := 0 to |values|
      invariant l.Valid() && l.Items() == before + values[..i]
      invariant fresh(l.Repr - old(l.Repr))
    {
      assert values[..i + 1] == values[..i] + [values[i]];
      l.RPush(values[i]);
    }
    assert values[..|values|] == values;
  }

  lemma {:induction false} ReverseLast(values: seq<Bytes>, last: Bytes)
    ensures Reverse(values + [last]) == [last] + Reverse(values)
  {
    if values != [] {
      ReverseLast(values[1..], last);
      assert (values + [last])[1..] == values[1..] + [last];
    }
  }
}
