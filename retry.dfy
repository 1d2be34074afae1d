/** The download rounds of one user: every resource of the list is
    downloaded, the ones whose download fails form the list of the next
    round, and the rounds stop when nothing has failed or when `retry`
    retries have been made. Whether the download of the `i`-th resource
    of round `r` succeeds is the input `outcome(r, i)`. */
module Retry {

  /** The indices of the failed downloads of a round, in increasing order
      (the keys of the `failed` dictionary). */
  function FailedIndices(ok: seq<bool>): (idx: seq<nat>)
    ensures forall k :: 0 <= k < |idx| ==> idx[k] < |ok| && !ok[idx[k]]
    ensures forall i :: 0 <= i < |ok| && !ok[i] ==> i in idx
    ensures forall a, b :: 0 <= a < b < |idx| ==> idx[a] < idx[b]
    ensures |idx| <= |ok|
  {
    if ok == [] then []
    else
      var n := |ok| - 1;
      var earlier := FailedIndices(ok[..n]);
      assert forall i :: 0 <= i < n ==> ok[..n][i] == ok[i];
      earlier + if ok[n] then [] else [n]
  }

  /** `[resources[index] for index in failed]`. */
  function NextRound<T>(resources: seq<T>, ok: seq<bool>): (next: seq<T>)
    requires |ok| == |resources|
    ensures |next| == |FailedIndices(ok)|
  {
    var idx := FailedIndices(ok);
    seq(|idx|, k requires 0 <= k < |idx| => resources[idx[k]])
  }

  /** The next round holds every failed resource once, in list order, and
      nothing else. */
  lemma NextRoundMeaning<T>(resources: seq<T>, ok: seq<bool>)
    requires |ok| == |resources|
    ensures |NextRound(resources, ok)| == |set i | 0 <= i < |ok| && !ok[i]|
    ensures forall x :: x in NextRound(resources, ok) <==>
      exists i :: 0 <= i < |resources| && !ok[i] && resources[i] == x
  {
    FailedCount(ok);
    forall x | exists i :: 0 <= i < |resources| && !ok[i] && resources[i] == x
      ensures x in NextRound(resources, ok)
    {
      var i :| 0 <= i < |resources| && !ok[i] && resources[i] == x;
      FailedMember(resources, ok, i);
    }
  }

  /** As many indices as failures. */
  lemma FailedCount(ok: seq<bool>)
    ensures |FailedIndices(ok)| == |set i | 0 <= i < |ok| && !ok[i]|
  {
    var idx := FailedIndices(ok);
    assert (set i | 0 <= i < |ok| && !ok[i]) == set k | 0 <= k < |idx| :: idx[k];
    DistinctCard(idx);
  }

  /** A failed resource is in the next round. */
  lemma FailedMember<T>(resources: seq<T>, ok: seq<bool>, i: nat)
    requires |ok| == |resources| && i < |ok| && !ok[i]
    ensures resources[i] in NextRound(resources, ok)
  {
    var idx := FailedIndices(ok);
    var k :| 0 <= k < |idx| && idx[k] == i;
    assert NextRound(resources, ok)[k] == resources[i];
  }

  /** A strictly increasing sequence has as many elements as values. */
  lemma {:induction false} DistinctCard(idx: seq<nat>)
    requires forall a, b :: 0 <= a < b < |idx| ==> idx[a] < idx[b]
    ensures |set k | 0 <= k < |idx| :: idx[k]| == |idx|
  {
    if idx != [] {
      var n := |idx| - 1;
      DistinctCard(idx[..n]);
      var before := set k | 0 <= k < n :: idx[..n][k];
      assert before == set k | 0 <= k < n :: idx[k];
      assert idx[n] !in before;
      assert (set k | 0 <= k < |idx| :: idx[k]) == before + {idx[n]};
    }
  }

  /** A round in which every download succeeds leaves nothing to retry. */
  lemma AllSucceed<T>(resources: seq<T>, ok: seq<bool>)
    requires |ok| == |resources| && forall i :: 0 <= i < |ok| ==> ok[i]
    ensures NextRound(resources, ok) == []
  {
    NoFailures(ok);
  }

  lemma {:induction false} NoFailures(ok: seq<bool>)
    requires forall i :: 0 <= i < |ok| ==> ok[i]
    ensures FailedIndices(ok) == []
  {
    if ok != [] {
      NoFailures(ok[..|ok| - 1]);
    }
  }

  /** Extending the list by one resource extends the next round by it
      exactly when its download fails. */
  lemma NextRoundSnoc<T>(resources: seq<T>, ok: seq<bool>)
    requires |ok| == |resources| > 0
    ensures var n := |resources| - 1;
      NextRound(resources, ok) == NextRound(resources[..n], ok[..n]) + if ok[n] then [] else [resources[n]]
  {
    var n := |resources| - 1;
    var idx, earlier := FailedIndices(ok), FailedIndices(ok[..n]);
    assert idx == earlier + if ok[n] then [] else [n];
    var next, prev := NextRound(resources, ok), NextRound(resources[..n], ok[..n]);
    var tail := if ok[n] then [] else [resources[n]];
    assert |next| == |prev + tail|;
    forall k | 0 <= k < |next|
      ensures next[k] == (prev + tail)[k]
    {
      if k < |earlier| {
        assert idx[k] == earlier[k] && earlier[k] < n;
        assert resources[..n][earlier[k]] == resources[idx[k]];
      }
    }
  }

  /** The next round never holds more of a resource than this one. */
  lemma {:induction false} NextRoundSub<T>(resources: seq<T>, ok: seq<bool>)
    requires |ok| == |resources|
    ensures multiset(NextRound(resources, ok)) <= multiset(resources)
  {
    if resources != [] {
      var n := |resources| - 1;
      var prev := NextRound(resources[..n], ok[..n]);
      var tail := if ok[n] then [] else [resources[n]];
      NextRoundSub(resources[..n], ok[..n]);
      NextRoundSnoc(resources, ok);
      MultisetSnoc(resources);
      assert multiset(prev + tail) == multiset(prev) + multiset(tail);
      assert multiset(tail) <= multiset([resources[n]]);
      SumBelow(multiset(prev), multiset(resources[..n]), multiset(tail), multiset([resources[n]]));
    }
  }

  lemma MultisetSnoc<T>(s: seq<T>)
    requires s != []
    ensures multiset(s) == multiset(s[..|s| - 1]) + multiset([s[|s| - 1]])
  {
    assert s == s[..|s| - 1] + [s[|s| - 1]];
  }

  lemma SumBelow<T>(a: multiset<T>, b: multiset<T>, c: multiset<T>, d: multiset<T>)
    requires a <= b && c <= d
    ensures a + c <= b + d
  {
  }

  /** The outcomes of round `r`. */
  function Outcomes(outcome: (nat, nat) -> bool, r: nat, size: nat): (ok: seq<bool>)
    ensures |ok| == size
  {
    seq(size, i requires 0 <= i < size => outcome(r, i))
  }

  /** What is left to download after the rounds from `r` on. */
  function Remaining<T>(resources: seq<T>, retry: int, r: nat, outcome: (nat, nat) -> bool): (rest: seq<T>)
    ensures |rest| <= |resources|
    decreases if r <= retry then retry + 1 - r else 0
  {
    if resources == [] || r > retry then resources
    else
      Remaining(NextRound(resources, Outcomes(outcome, r, |resources|)), retry, r + 1, outcome)
  }

  /** How many rounds run from `r` on. */
  function RoundsRun<T>(resources: seq<T>, retry: int, r: nat, outcome: (nat, nat) -> bool): (n: nat)
    ensures n <= if r <= retry then retry + 1 - r else 0
    ensures resources == [] ==> n == 0
    decreases if r <= retry then retry + 1 - r else 0
  {
    if resources == [] || r > retry then 0
    else 1 + RoundsRun(NextRound(resources, Outcomes(outcome, r, |resources|)), retry, r + 1, outcome)
  }

  /** The retry loop of the main program. */
  method Rounds<T>(resources: seq<T>, retry: int, outcome: (nat, nat) -> bool) returns (remaining: seq<T>, rounds: nat)
    ensures remaining == Remaining(resources, retry, 0, outcome)
    ensures rounds == RoundsRun(resources, retry, 0, outcome)
  {
    remaining := resources;
    var r := 0;
    while remaining != [] && r <= retry
      invariant Remaining(remaining, retry, r, outcome) == Remaining(resources, retry, 0, outcome)
      invariant r + RoundsRun(remaining, retry, r, outcome) == RoundsRun(resources, retry, 0, outcome)
      decreases if r <= retry then retry + 1 - r else 0
    {
      var ok := Outcomes(outcome, r, |remaining|);
      RoundStep(remaining, retry, r, outcome);
      remaining := NextRound(remaining, ok);
      r := r + 1;
    }
    rounds := r;
  }

  /** One round from `r` on: the rest of the rounds run on what failed. */
  lemma RoundStep<T>(resources: seq<T>, retry: int, r: nat, outcome: (nat, nat) -> bool)
    requires resources != [] && r <= retry
    ensures var next := NextRound(resources, Outcomes(outcome, r, |resources|));
      Remaining(resources, retry, r, outcome) == Remaining(next, retry, r + 1, outcome)
      && RoundsRun(resources, retry, r, outcome) == 1 + RoundsRun(next, retry, r + 1, outcome)
  {
  }

  /** Failures left over mean every allowed round was used; what is left
      was part of the original list. */
  lemma {:induction false} RemainingMeaning<T>(resources: seq<T>, retry: int, r: nat, outcome: (nat, nat) -> bool)
    ensures multiset(Remaining(resources, retry, r, outcome)) <= multiset(resources)
    ensures Remaining(resources, retry, r, outcome) != [] && r <= retry ==>
      RoundsRun(resources, retry, r, outcome) == retry + 1 - r
    decreases if r <= retry then retry + 1 - r else 0
  {
    if resources != [] && r <= retry {
      var next := NextRound(resources, Outcomes(outcome, r, |resources|));
      NextRoundSub(resources, Outcomes(outcome, r, |resources|));
      RemainingMeaning(next, retry, r + 1, outcome);
      if Remaining(next, retry, r + 1, outcome) != [] && r + 1 > retry {
        assert RoundsRun(next, retry, r + 1, outcome) == 0;
      }
    }
  }

  /** When the first round succeeds completely, exactly one round runs and
      nothing is left. */
  lemma FirstRoundSucceeds<T>(resources: seq<T>, retry: int, outcome: (nat, nat) -> bool)
    requires resources != [] && retry >= 0
    requires forall i :: 0 <= i < |resources| ==> outcome(0, i)
    ensures Remaining(resources, retry, 0, outcome) == []
    ensures RoundsRun(resources, retry, 0, outcome) == 1
  {
    AllSucceed(resources, Outcomes(outcome, 0, |resources|));
  }
}
