/** src/zset.cpp: a skip list by rank and a table by member, updated one after the other. */
module ZSets {
  import opened Sequences
  import opened Bytes
  import opened SortedSet
  import opened ZSetModel
  import opened SkipLists
  import opened Chains
  import opened Dicts

  class ZSet {
    const sl: SkipList
    const ht: Dict<Score>

    ghost predicate Valid()
      reads this, sl, sl.Arrays, ht, ht.buckets, ht.Repr
    {
      sl.Valid() && ht.Valid()
    }

    ghost function Value(): State
      reads sl, ht
    {
      State(sl.Elems(), ht.M)
    }

    constructor (hash: Hash)
      ensures Valid() && Value() == EMPTY
      ensures fresh(sl) && fresh(sl.Arrays) && fresh(ht) && fresh(ht.buckets) && fresh(ht.Repr)
    {
      sl := new SkipList();
      ht := new Dict(hash);
    }

    method ZAdd(member: Bytes, score: Score) returns (added: bool)
      requires Valid()
      modifies sl, sl.Arrays, ht, ht.buckets, ht.Repr
      ensures Valid() && added
      ensures Value() == Add(old(Value()), member, score)
      ensures fresh(sl.Arrays - old(sl.Arrays))
      ensures (ht.buckets == old(ht.buckets) || fresh(ht.buckets)) && fresh(ht.Repr - old(ht.Repr))
    {
      hide SkipList.Valid, SkipList.Elems, Dict.Valid, Insert, Visible, NulFree;
      var stored := ht.Get(member);
      if stored.Some? {
        var found := sl.Delete(member, stored.value);
      }
      sl.Insert(member, score);
      ht.Set(member, score);
      added := true;
    }

    method ZRem(member: Bytes) returns (removed: bool)
      requires Valid()
      modifies sl, sl.Arrays, ht, ht.buckets, ht.Repr
      ensures Valid() && removed == (member in old(Value()).scores)
      ensures Value() == Rem(old(Value()), member)
      ensures sl.Arrays <= old(sl.Arrays) && ht.buckets == old(ht.buckets) && ht.Repr == old(ht.Repr)
    {
      hide SkipList.Valid, SkipList.Elems, Dict.Valid, Insert, Visible, NulFree;
      var stored := ht.Get(member);
      if stored.None? {
        return false;
      }
      var found := sl.Delete(member, stored.value);
      var deleted := ht.Del(member);
      return true;
    }

    method ZScore(member: Bytes) returns (score: Option<Score>)
      requires Valid()
      ensures score == if member in Value().scores then Some(Value().scores[member]) else None
    {
      score := ht.Get(member);
    }

    method ZRank(member: Bytes) returns (rank: int)
      requires Valid()
      ensures rank == Rank(Value().elems, Visible(member))
    {
      rank := sl.GetRank(member);
    }

    method ZCard() returns (n: nat)
      requires Valid()
      ensures n == |Value().elems|
    {
      n := sl.Length();
    }

    method ZRange(start: int, end: int, max: nat) returns (out: seq<Elem>)
      requires Valid()
      ensures out == Slice(Value().elems, start, end, max)
    {
      out := sl.RangeByRank(start, end, max);
    }
  }
}
