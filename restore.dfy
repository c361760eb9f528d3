/** restore(*learners): a context manager that snapshots every learner's
    state on entry and, when the block is left either normally or by an
    exception, writes each snapshot back into the learner it came from. */
module Restore {

  /** A learner as restore sees it: an object with __getstate__ and
      __setstate__ over a state value. */
  class Learner<S> {
    var state: S

    constructor (s: S)
      ensures state == s
    {
      state := s;
    }

    /** __getstate__ */
    method GetState() returns (s: S)
      ensures s == state
    {
      s := state;
    }

    /** __setstate__ */
    method SetState(s: S)
      modifies this
      ensures state == s
    {
      state := s;
    }
  }

  /** The position of the last occurrence of x in s. */
  function LastIndex<T(==)>(s: seq<T>, x: T): (i: nat)
    requires x in s
    ensures i < |s| && s[i] == x
    ensures forall j :: i < j < |s| ==> s[j] != x
  {
    if s[|s| - 1] == x then |s| - 1 else LastIndex(s[..|s| - 1], x)
  }

  /** The state of each learner, in order, as `__getstate__` returns it. */
  method Snapshot<S>(learners: seq<Learner<S>>) returns (states: seq<S>)
    ensures |states| == |learners|
    ensures forall i :: 0 <= i < |learners| ==> states[i] == learners[i].state
  {
    states := [];
    for i := 0 to |learners|
      invariant |states| == i
      invariant forall j :: 0 <= j < i ==> states[j] == learners[j].state
    {
      var s := learners[i].GetState();
      states := states + [s];
    }
  }

  /** The finally clause: set each learner, in order, to the snapshot at its
      own position with `__setstate__`. A learner passed twice ends with the
      state paired with its last occurrence. */
  method Rollback<S>(learners: seq<Learner<S>>, states: seq<S>)
    requires |states| == |learners|
    modifies set l | l in learners
    ensures forall i :: 0 <= i < |learners| ==>
      learners[i].state == states[LastIndex(learners, learners[i])]
  {
    for i := 0 to |learners|
      invariant forall j :: 0 <= j < i ==>
        learners[j].state == states[LastIndex(learners[..i], learners[j])]
      invariant forall l :: l in learners && l !in learners[..i] ==> l.state == old(l.state)
    {
      learners[i].SetState(states[i]);
      assert learners[..i + 1][..i] == learners[..i];
      forall j | 0 <= j < i + 1
        ensures learners[j].state == states[LastIndex(learners[..i + 1], learners[j])]
      {
        if learners[j] != learners[i] {
          assert learners[j] in learners[..i];
        }
      }
    }
    assert learners[..|learners|] == learners;
  }

  /** The body of the with-block: arbitrary code that may change any of the
      learners' states and may raise. */
  method Body<S>(learners: seq<Learner<S>>) returns (raised: bool)
    modifies set l | l in learners
  {
    for i := 0 to |learners| {
      learners[i].state := *;
    }
    raised := *;
  }

  /** with restore(*learners): body. Whether the body finished or raised
      (raised is then propagated to the caller), every learner is left in
      the state it had on entry. */
  method WithRestore<S>(learners: seq<Learner<S>>) returns (raised: bool)
    modifies set l | l in learners
    ensures forall i :: 0 <= i < |learners| ==> learners[i].state == old(learners[i].state)
  {
    var states := Snapshot(learners);
    raised := Body(learners);
    Rollback(learners, states);
  }
}
