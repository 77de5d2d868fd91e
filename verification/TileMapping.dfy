/** The tile mapping of a slider candidate: the identity with a list of swaps
    applied, two entries of the list to a swap. */
module TileMapping {
  import opened Options

  predicate InRange(steps: seq<int>, n: int) {
    forall k :: 0 <= k < |steps| ==> 0 <= steps[k] < n
  }

  predicate IsStepList(steps: seq<int>, n: int) {
    |steps| % 2 == 0 && InRange(steps, n)
  }

  function Swap(m: seq<int>, left: int, right: int): seq<int>
    requires 0 <= left < |m| && 0 <= right < |m|
  {
    m[left := m[right]][right := m[left]]
  }

  function Apply(m: seq<int>, steps: seq<int>): (r: seq<int>)
    requires IsStepList(steps, |m|)
    ensures |r| == |m|
  {
    if steps == [] then m
    else
      var n := |steps| - 2;
      Swap(Apply(m, steps[..n]), steps[n], steps[n + 1])
  }

  /** One more pair of a list is one more swap. */
  lemma {:induction false} ApplyPair(m: seq<int>, steps: seq<int>, k: nat)
    requires k + 2 <= |steps| && IsStepList(steps[..k + 2], |m|)
    ensures IsStepList(steps[..k], |m|)
    ensures 0 <= steps[k] < |m| && 0 <= steps[k + 1] < |m|
    ensures Apply(m, steps[..k + 2]) == Swap(Apply(m, steps[..k]), steps[k], steps[k + 1])
  {
    hide Apply, InRange;
    var more := steps[..k + 2];
    assert more[..k] == steps[..k] && more[k] == steps[k] && more[k + 1] == steps[k + 1];
    InRangePrefix(more, k, |m|);
    LastPair(m, more);
  }

  lemma InRangeConcat(a: seq<int>, b: seq<int>, n: int)
    requires InRange(a, n) && InRange(b, n)
    ensures InRange(a + b, n)
  {
  }

  lemma {:induction false} ApplyNone(m: seq<int>)
    ensures Apply(m, []) == m
  {
  }

  lemma {:induction false} LastPair(m: seq<int>, steps: seq<int>)
    requires IsStepList(steps, |m|) && steps != []
    ensures
      var n := |steps| - 2;
      && 0 <= steps[n] < |m| && 0 <= steps[n + 1] < |m| && IsStepList(steps[..n], |m|)
      && Apply(m, steps) == Swap(Apply(m, steps[..n]), steps[n], steps[n + 1])
  {
  }

  lemma InRangePrefix(steps: seq<int>, k: nat, n: int)
    requires k <= |steps| && InRange(steps, n)
    ensures InRange(steps[..k], n)
  {
  }

  lemma InRangeExtends(steps: seq<int>, k: nat, n: int)
    requires k % 2 == 0 && k + 2 <= |steps| && InRange(steps[..k], n)
    ensures InRange(steps[..k + 2], n) <==> 0 <= steps[k] < n && 0 <= steps[k + 1] < n
  {
    var more := steps[..k + 2];
    assert more[k] == steps[k] && more[k + 1] == steps[k + 1];
    assert forall j :: 0 <= j < k ==> more[j] == steps[..k][j];
  }

  function Identity(n: nat): (m: seq<int>)
    ensures |m| == n && forall i :: 0 <= i < n ==> m[i] == i
  {
    seq(n, i => i)
  }

  function Reverse(s: seq<int>): (r: seq<int>)
    ensures |r| == |s| && forall i :: 0 <= i < |s| ==> r[i] == s[|s| - 1 - i]
  {
    seq(|s|, i requires 0 <= i < |s| => s[|s| - 1 - i])
  }

  /** Fails exactly when there is no tile, an entry has no partner or an entry
      is not a tile. */
  predicate Buildable(gridSize: int, steps: seq<int>) {
    gridSize * gridSize > 0 && IsStepList(steps, gridSize * gridSize)
  }

  method BuildSliderTileMapping(gridSize: int, activeSteps: seq<int>) returns (r: Option<array<int>>)
    ensures r.Some? <==> Buildable(gridSize, activeSteps)
    ensures r.Some? ==>
      fresh(r.value) && r.value[..] == Apply(Identity(gridSize * gridSize), activeSteps)
  {
    var tileCount := gridSize * gridSize;
    if tileCount <= 0 {
      return None;
    }
    if |activeSteps| % 2 != 0 {
      return None;
    }
    var mapping := new int[tileCount];
    for i := 0 to tileCount
      invariant forall k :: 0 <= k < i ==> mapping[k] == k
    {
      mapping[i] := i;
    }
    assert mapping[..] == Identity(tileCount);
    var ok := ApplySwaps(mapping, activeSteps);
    return if ok then Some(mapping) else None;
  }

  /** The swapping loop, which stops at the first pair out of range. */
  method ApplySwaps(mapping: array<int>, activeSteps: seq<int>) returns (ok: bool)
    requires |activeSteps| % 2 == 0
    modifies mapping
    ensures ok <==> InRange(activeSteps, mapping.Length)
    ensures ok ==> mapping[..] == Apply(old(mapping[..]), activeSteps)
  {
    ghost var was := mapping[..];
    assert Apply(was, activeSteps[..0]) == was;
    hide Apply;
    var idx := 0;
    while idx < |activeSteps|
      invariant 0 <= idx <= |activeSteps| && idx % 2 == 0
      invariant InRange(activeSteps[..idx], mapping.Length)
      invariant mapping[..] == Apply(was, activeSteps[..idx])
    {
      var left, right := activeSteps[idx], activeSteps[idx + 1];
      InRangeExtends(activeSteps, idx, mapping.Length);
      if left < 0 || right < 0 || left >= mapping.Length || right >= mapping.Length {
        return false;
      }
      ApplyPair(was, activeSteps, idx);
      mapping[left], mapping[right] := mapping[right], mapping[left];
      idx := idx + 2;
    }
    assert activeSteps[..idx] == activeSteps;
    return true;
  }

  /** The swaps of the first candidateIndex pairs, as far as there are any. */
  function ActiveSteps(swaps: seq<int>, candidateIndex: int): seq<int> {
    if candidateIndex <= 0 then [] else swaps[..if candidateIndex * 2 > |swaps| then |swaps| else candidateIndex * 2]
  }

  lemma ActiveStepsPrefix(swaps: seq<int>, n: int, c: nat)
    requires IsStepList(swaps, n) && 2 * c <= |swaps|
    ensures ActiveSteps(swaps, c) == swaps[..2 * c]
    ensures IsStepList(swaps[..2 * c], n)
  {
    assert forall j :: 0 <= j < 2 * c ==> swaps[..2 * c][j] == swaps[j];
  }

  lemma {:induction false} NoSteps(m: seq<int>, swaps: seq<int>)
    ensures ActiveSteps(swaps, 0) == [] && IsStepList([], |m|) && Apply(m, []) == m
  {
  }

  /** Each candidate's mapping is its predecessor's with one more swap: the two
      entries named by the next pair change places and no other changes. */
  lemma CandidatesAccumulate(m: seq<int>, swaps: seq<int>, c: nat)
    requires IsStepList(swaps, |m|) && 2 * c + 2 <= |swaps|
    ensures IsStepList(ActiveSteps(swaps, c), |m|) && IsStepList(ActiveSteps(swaps, c + 1), |m|)
    ensures Apply(m, ActiveSteps(swaps, 0)) == m && 0 <= swaps[2 * c] < |m| && 0 <= swaps[2 * c + 1] < |m|
    ensures
      var l, r := swaps[2 * c], swaps[2 * c + 1];
      var before, after := Apply(m, ActiveSteps(swaps, c)), Apply(m, ActiveSteps(swaps, c + 1));
      && after == Swap(before, l, r) && after[l] == before[r] && after[r] == before[l]
      && forall i :: 0 <= i < |m| && i != l && i != r ==> after[i] == before[i]
  {
    hide Apply, ActiveSteps, IsStepList;
    NoSteps(m, swaps);
    ActiveStepsPrefix(swaps, |m|, c);
    ActiveStepsPrefix(swaps, |m|, c + 1);
    ApplyPair(m, swaps, 2 * c);
  }

  // ---------------------------------------------------------- algebra of swaps

  lemma {:induction false} ApplyConcat(m: seq<int>, a: seq<int>, b: seq<int>)
    requires IsStepList(a, |m|) && IsStepList(b, |m|)
    ensures Apply(m, a + b) == Apply(Apply(m, a), b)
  {
    hide Apply, InRange;
    InRangeConcat(a, b, |m|);
    if b == [] {
      assert a + b == a;
      ApplyNone(Apply(m, a));
    } else {
      var n := |b| - 2;
      LastPair(Apply(m, a), b);
      LastPair(m, a + b);
      ApplyConcat(m, a, b[..n]);
      assert (a + b)[..|a| + n] == a + b[..n] && (a + b)[|a| + n] == b[n] && (a + b)[|a| + n + 1] == b[n + 1];
    }
  }

  lemma SwapTwice(m: seq<int>, left: int, right: int)
    requires 0 <= left < |m| && 0 <= right < |m|
    ensures Apply(Swap(m, left, right), [right, left]) == m
  {
    assert [right, left][..0] == [];
  }

  /** The reversed list undoes the list. */
  lemma {:induction false} ReverseUndoes(m: seq<int>, steps: seq<int>)
    requires IsStepList(steps, |m|)
    ensures Apply(Apply(m, steps), Reverse(steps)) == m
  {
    if steps == [] {
    } else {
      var n := |steps| - 2;
      var last := [steps[n + 1], steps[n]];
      assert Reverse(steps) == last + Reverse(steps[..n]);
      ApplyConcat(Apply(m, steps), last, Reverse(steps[..n]));
      SwapTwice(Apply(m, steps[..n]), steps[n], steps[n + 1]);
      ReverseUndoes(m, steps[..n]);
    }
  }

  /** Swapping rearranges by position: every entry moves as the identity's does. */
  lemma {:induction false} ApplyActsByPosition(m: seq<int>, steps: seq<int>, i: nat)
    requires IsStepList(steps, |m|) && i < |m|
    ensures 0 <= Apply(Identity(|m|), steps)[i] < |m|
    ensures Apply(m, steps)[i] == m[Apply(Identity(|m|), steps)[i]]
  {
    if steps != [] {
      var n := |steps| - 2;
      var l, r := steps[n], steps[n + 1];
      ApplyActsByPosition(m, steps[..n], if i == r then l else if i == l then r else i);
    }
  }

  predicate Inverse(m: seq<int>, w: seq<int>) {
    |m| == |w| && InRange(m, |m|) && forall i :: 0 <= i < |m| ==> w[m[i]] == i
  }

  lemma MappingInRange(n: nat, steps: seq<int>)
    requires IsStepList(steps, n)
    ensures InRange(Apply(Identity(n), steps), n)
  {
    forall i | 0 <= i < n
      ensures 0 <= Apply(Identity(n), steps)[i] < n
    {
      ApplyActsByPosition(Identity(n), steps, i);
    }
  }

  lemma ReverseTwice(s: seq<int>)
    ensures Reverse(Reverse(s)) == s
  {
  }

  /** The mapping of any step list is a permutation, whose inverse on either
      side is the mapping of the reversed list. */
  lemma MappingIsPermutation(n: nat, steps: seq<int>)
    requires IsStepList(steps, n)
    ensures Inverse(Apply(Identity(n), steps), Apply(Identity(n), Reverse(steps)))
    ensures Inverse(Apply(Identity(n), Reverse(steps)), Apply(Identity(n), steps))
  {
    LeftInverse(n, Reverse(steps));
    ReverseTwice(steps);
    LeftInverse(n, steps);
  }

  lemma LeftInverse(n: nat, steps: seq<int>)
    requires IsStepList(steps, n)
    ensures Inverse(Apply(Identity(n), Reverse(steps)), Apply(Identity(n), steps))
  {
    var m, w := Apply(Identity(n), Reverse(steps)), Apply(Identity(n), steps);
    MappingInRange(n, Reverse(steps));
    ReverseUndoes(Identity(n), steps);
    forall i | 0 <= i < n
      ensures w[m[i]] == i
    {
      ApplyActsByPosition(w, Reverse(steps), i);
    }
  }
}
