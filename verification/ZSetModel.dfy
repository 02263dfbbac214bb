/** What the two indexes of src/zset.cpp stand for, and when they agree. */
module ZSetModel {
  import opened Bytes
  import opened SortedSet

  /** What the two indexes stand for. */
  datatype State = State(elems: seq<Elem>, scores: map<Bytes, Score>)

  const EMPTY := State([], map[])

  function Add(z: State, member: Bytes, score: Score): State {
    var without := if member in z.scores then Delete(z.elems, Elem(z.scores[member], Visible(member))) else z.elems;
    State(Insert(without, Elem(score, Visible(member))), z.scores[member := score])
  }

  function Rem(z: State, member: Bytes): State {
    if member in z.scores
    then State(Delete(z.elems, Elem(z.scores[member], Visible(member))), z.scores - {member})
    else z
  }

  /** Adding pairs of score and member one by one. */
  function AddAll(pairs: seq<(Score, Bytes)>, z: State): State
    decreases |pairs|
  {
    if pairs == [] then z else AddAll(pairs[1..], Add(z, pairs[0].1, pairs[0].0))
  }

  /** The table's keys are the list's members and carry the nodes' scores. */
  ghost predicate Agree(z: State) {
    Ordered(z.elems) && z.scores == Scores(z.elems)
  }

  /** A run of updates on an empty sorted set. */
  datatype Op = DoAdd(member: Bytes, score: Score) | DoRem(member: Bytes)

  function Apply(z: State, op: Op): State {
    match op
    case DoAdd(member, score) => Add(z, member, score)
    case DoRem(member) => Rem(z, member)
  }

  function Run(ops: seq<Op>): State {
    if ops == [] then EMPTY else Apply(Run(ops[..|ops| - 1]), ops[|ops| - 1])
  }

  /** Adding a member without NULs keeps the two indexes in agreement and updates the map they
      share; the delete whose result the code ignores always finds the member. */
  lemma AddKeepsAgreement(z: State, member: Bytes, score: Score)
    requires Agree(z) && NulFree(member)
    ensures Agree(Add(z, member, score))
    ensures member in z.scores ==> Deletes(z.elems, Elem(z.scores[member], member))
  {
    hide Insert, Delete, Deletes, Ordered, Scores;
    var without := if member in z.scores then Delete(z.elems, Elem(z.scores[member], member)) else z.elems;
    if member in z.scores {
      DeleteStored(z.elems, member);
      assert (z.scores - {member})[member := score] == z.scores[member := score];
    }
    InsertRefines(without, Elem(score, member));
  }

  lemma RemKeepsAgreement(z: State, member: Bytes)
    requires Agree(z)
    ensures Agree(Rem(z, member))
    ensures member in z.scores ==> Deletes(z.elems, Elem(z.scores[member], member))
  {
    if member in z.scores {
      DeleteStored(z.elems, member);
    }
  }

  lemma AgreementCounts(z: State)
    requires Agree(z)
    ensures |z.elems| == |z.scores|
    decreases |z.elems|
  {
    var s := z.elems;
    if s != [] {
      ScoresAreLookups(s, s[0].member);
      DeleteStored(s, s[0].member);
      var t := Delete(s, Elem(Scores(s)[s[0].member], s[0].member));
      AgreementCounts(State(t, Scores(t)));
      assert Scores(t).Keys == Scores(s).Keys - {s[0].member};
      assert |Scores(s)| == |Scores(s).Keys| && |Scores(t)| == |Scores(t).Keys|;
    } else {
      assert Scores(s).Keys == {};
    }
  }

  /** A member with a NUL breaks the agreement at once: the table keys it whole, the list cannot. */
  lemma AddBreaksAgreement(z: State, member: Bytes, score: Score)
    requires !NulFree(member)
    ensures !Agree(Add(z, member, score))
  {
    var z' := Add(z, member, score);
    assert member in z'.scores;
    assert member !in Scores(z'.elems);
  }

  ghost predicate AgreesThroughout(ops: seq<Op>) {
    forall n :: 0 <= n <= |ops| ==> Agree(Run(ops[..n]))
  }

  /** Over any run the two indexes agree after every step exactly when no added member has a NUL. */
  lemma RunsAgree(ops: seq<Op>)
    ensures AgreesThroughout(ops) <==> forall op :: op in ops && op.DoAdd? ==> NulFree(op.member)
  {
    if forall op :: op in ops && op.DoAdd? ==> NulFree(op.member) {
      forall n | 0 <= n <= |ops|
        ensures Agree(Run(ops[..n]))
      {
        RunAgrees(ops[..n]);
      }
    } else {
      var i :| 0 <= i < |ops| && ops[i].DoAdd? && !NulFree(ops[i].member);
      assert ops[..i + 1][..i] == ops[..i];
      AddBreaksAgreement(Run(ops[..i]), ops[i].member, ops[i].score);
      assert !Agree(Run(ops[..i + 1]));
    }
  }

  lemma {:induction false} RunAgrees(ops: seq<Op>)
    requires forall op :: op in ops && op.DoAdd? ==> NulFree(op.member)
    ensures Agree(Run(ops))
  {
    if ops != [] {
      var was, op := Run(ops[..|ops| - 1]), ops[|ops| - 1];
      RunAgrees(ops[..|ops| - 1]);
      match op
      case DoAdd(member, score) => AddKeepsAgreement(was, member, score);
      case DoRem(member) => RemKeepsAgreement(was, member);
    } else {
      assert Scores([]) == map[];
    }
  }
}
