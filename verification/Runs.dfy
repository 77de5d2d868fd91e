/** Finite runs of a step relation and the states they reach. */
module Runs {
  ghost predicate StepAt<S(!new)>(next: (S, S) -> bool, trace: seq<S>, i: nat)
    requires i + 1 < |trace|
  {
    next(trace[i], trace[i + 1])
  }

  ghost predicate Steps<S(!new)>(next: (S, S) -> bool, trace: seq<S>) {
    trace != [] && forall i: nat :: i + 1 < |trace| ==> StepAt(next, trace, i)
  }

  ghost predicate Path<S(!new)>(next: (S, S) -> bool, trace: seq<S>, s: S, s': S) {
    Steps(next, trace) && trace[0] == s && trace[|trace| - 1] == s'
  }

  /** `s'` is reached from `s` by some steps. */
  ghost predicate Reaches<S(!new)>(next: (S, S) -> bool, s: S, s': S) {
    exists trace: seq<S> :: Path(next, trace, s, s')
  }

  lemma Extend<S(!new)>(next: (S, S) -> bool, trace: seq<S>, s': S)
    requires Steps(next, trace) && next(trace[|trace| - 1], s')
    ensures Steps(next, trace + [s'])
  {
    var more := trace + [s'];
    forall i: nat | i + 1 < |more|
      ensures StepAt(next, more, i)
    {
      if i + 1 < |trace| {
        assert StepAt(next, trace, i);
      }
    }
  }

  lemma Self<S(!new)>(next: (S, S) -> bool, s: S)
    ensures Reaches(next, s, s)
  {
    assert Path(next, [s], s, s);
  }

  lemma Step<S(!new)>(next: (S, S) -> bool, s: S, m: S, s': S)
    requires Reaches(next, s, m) && next(m, s')
    ensures Reaches(next, s, s')
  {
    var trace :| Path(next, trace, s, m);
    Extend(next, trace, s');
    assert Path(next, trace + [s'], s, s');
  }

  lemma {:induction false} Along<S(!new)>(next: (S, S) -> bool, s: S, trace: seq<S>, i: nat)
    requires Steps(next, trace) && Reaches(next, s, trace[0]) && i < |trace|
    ensures Reaches(next, s, trace[i])
  {
    if i > 0 {
      Along(next, s, trace, i - 1);
      assert StepAt(next, trace, i - 1);
      Step(next, s, trace[i - 1], trace[i]);
    }
  }

  lemma From<S(!new)>(next: (S, S) -> bool, s: S, m: S, s': S)
    requires Reaches(next, s, m) && Reaches(next, m, s')
    ensures Reaches(next, s, s')
  {
    var trace :| Path(next, trace, m, s');
    Along(next, s, trace, |trace| - 1);
  }

  /** What every step keeps holds along every run. */
  ghost predicate Kept<S(!new)>(next: (S, S) -> bool, inv: S -> bool) {
    forall s, s' :: inv(s) && next(s, s') ==> inv(s')
  }

  lemma {:induction false} KeptAlong<S(!new)>(next: (S, S) -> bool, inv: S -> bool, trace: seq<S>, i: nat, j: nat)
    requires Kept(next, inv) && Steps(next, trace) && i <= j < |trace| && inv(trace[i])
    ensures inv(trace[j])
    decreases j
  {
    if i < j {
      KeptAlong(next, inv, trace, i, j - 1);
      assert StepAt(next, trace, j - 1);
    }
  }

  lemma KeptByReaching<S(!new)>(next: (S, S) -> bool, inv: S -> bool, s: S, s': S)
    requires Kept(next, inv) && Reaches(next, s, s') && inv(s)
    ensures inv(s')
  {
    var trace :| Path(next, trace, s, s');
    KeptAlong(next, inv, trace, 0, |trace| - 1);
  }
}
