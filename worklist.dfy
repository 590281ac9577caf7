/**
 The search loop that drives a bisection over a set of files: a stack of
 batches of file ids, each popped batch made exactly the set of present
 files, the external test run once, and the outcome handled by dropping the
 batch, recording its single id as bad, or pushing its two halves.
 The filesystem is reduced to one flag per id (is the file present), and the
 test to an oracle on the set of present ids.
 */
module Worklist {

  /** No id occurs twice. */
  ghost predicate Distinct<Id(!new)>(s: seq<Id>) {
    forall x :: multiset(s)[x] <= 1
  }

  /** The module's stated problem: a test fails exactly when the tested set holds a culprit. */
  ghost predicate FailsOnCulprit<Id(!new)>(passes: set<Id> -> bool, culprits: set<Id>) {
    forall s :: passes(s) <==> s * culprits == {}
  }

  lemma PassingBatchHasNoCulprit<Id(!new)>(passes: set<Id> -> bool, culprits: set<Id>, batch: seq<Id>)
    requires FailsOnCulprit(passes, culprits) && passes(Members(batch))
    ensures forall x :: x in batch ==> x !in culprits
  {
    forall x | x in batch
      ensures x !in culprits
    {
      assert Members(batch) * culprits == {};
      assert x in Members(batch) && x !in Members(batch) * culprits;
    }
  }

  /** How a tested batch is handled. */
  datatype Outcome<Id> = Drop | Blame(culprit: Id) | Halve(first: seq<Id>, second: seq<Id>)

  /**
   The result handling as written: a passing batch is dropped, a failing
   batch of one id blames that id, and any other failing batch is split at
   half its length, the second half taking the extra id.
   */
  function HandleAsWritten<Id>(next: seq<Id>, passed: bool): (o: Outcome<Id>)
    ensures o.Drop? <==> passed
    ensures o.Blame? <==> !passed && |next| == 1
    ensures o.Blame? ==> o.culprit == next[0]
    ensures o.Halve? ==> o.first + o.second == next && |o.first| == |next| / 2
  {
    if passed then Drop
    else if |next| == 1 then Blame(next[0])
    else Halve(next[..|next| / 2], next[|next| / 2..])
  }

  /**
   The result handling of the model: as written, except that a failing empty
   batch is dropped instead of being split into two empty batches. Every
   batch that is split yields two non-empty, strictly shorter halves.
   */
  function Handle<Id>(next: seq<Id>, passed: bool): (o: Outcome<Id>)
    ensures o.Drop? <==> passed || next == []
    ensures o.Blame? <==> !passed && |next| == 1
    ensures o.Blame? ==> o.culprit == next[0]
    ensures o.Halve? ==>
      && o.first + o.second == next
      && |o.first| == |next| / 2
      && 1 <= |o.first| <= |o.second| <= |o.first| + 1
  {
    if !passed && next == [] then Drop else HandleAsWritten(next, passed)
  }

  /**
   The two result handlings differ only on a failing empty batch, and a
   culprit-detecting test never fails on one: with such a test the loop of
   the model and the loop as written take the same steps.
   */
  lemma HandleDiffersOnlyOnEmptyFailure<Id(!new)>(next: seq<Id>, passes: set<Id> -> bool, culprits: set<Id>)
    ensures forall passed: bool ::
      Handle(next, passed) != HandleAsWritten(next, passed) <==> next == [] && !passed
    ensures FailsOnCulprit(passes, culprits) ==>
      Handle(next, passes(Members(next))) == HandleAsWritten(next, passes(Members(next)))
  {
    if FailsOnCulprit(passes, culprits) && next == [] {
      assert Members(next) * culprits == {};
    }
  }

  /** The ids still waiting in the batches of a stack, with their multiplicities. */
  ghost function Pending<Id>(stack: seq<seq<Id>>): multiset<Id> {
    if stack == [] then multiset{} else Pending(stack[..|stack| - 1]) + multiset(stack[|stack| - 1])
  }

  /** An upper bound on the tests a batch can still cause. */
  function Weight<Id>(batch: seq<Id>): nat {
    if batch == [] then 1 else 2 * |batch| - 1
  }

  ghost function Cost<Id>(stack: seq<seq<Id>>): nat {
    if stack == [] then 0 else Cost(stack[..|stack| - 1]) + Weight(stack[|stack| - 1])
  }

  lemma PendingPush<Id>(stack: seq<seq<Id>>, batch: seq<Id>)
    ensures Pending(stack + [batch]) == Pending(stack) + multiset(batch)
    ensures Cost(stack + [batch]) == Cost(stack) + Weight(batch)
  {
    assert (stack + [batch])[..|stack|] == stack;
  }

  /** The ids a batch holds. */
  ghost function Members<Id>(batch: seq<Id>): set<Id> {
    set x | x in batch
  }

  /** The ids whose files are present. */
  function PresentSet<Id>(present: map<Id, bool>): set<Id> {
    set x | x in present && present[x]
  }

  /**
   Makes the present files exactly those of `next`: a file of `next` that is
   missing is restored, a file outside `next` that exists is removed.
   */
  method Enable<Id>(ids: seq<Id>, present: map<Id, bool>, next: seq<Id>) returns (p: map<Id, bool>)
    requires forall x :: x in ids ==> x in present
    ensures p.Keys == present.Keys
    ensures forall x :: x in ids ==> p[x] == (x in next)
    ensures forall x :: x in present && x !in ids ==> p[x] == present[x]
  {
    p := present;
    for i := 0 to |ids|
      invariant p.Keys == present.Keys
      invariant forall j :: 0 <= j < i ==> p[ids[j]] == (ids[j] in next)
      invariant forall x :: x in present && x !in ids[..i] ==> p[x] == present[x]
    {
      var id := ids[i];
      if id in next {
        if !p[id] {
          p := p[id := true];
        }
      } else {
        if p[id] {
          p := p[id := false];
        }
      }
    }
  }

  /**
   What the search loop keeps: every id of the initial batch is, exactly
   once, either waiting on the stack, blamed, or cleared by a passing test;
   every blamed id failed on its own; and with a culprit-detecting test the
   blamed ids are culprits and the cleared ones are not.
   */
  ghost predicate Searching<Id(!new)>(
    ids: seq<Id>, stack: seq<seq<Id>>, bad: seq<Id>, cleared: seq<Id>,
    passes: set<Id> -> bool, culprits: set<Id>)
  {
    && Pending(stack) + multiset(bad) + multiset(cleared) == multiset(ids)
    && (forall x :: x in bad ==> !passes({x}))
    && (FailsOnCulprit(passes, culprits) ==>
         && (forall x :: x in bad ==> x in culprits)
         && (forall x :: x in cleared ==> x !in culprits))
  }

  /** A popped batch holds only ids of the initial batch. */
  lemma PoppedFromIds<Id(!new)>(
    ids: seq<Id>, rest: seq<seq<Id>>, next: seq<Id>, bad: seq<Id>, cleared: seq<Id>,
    passes: set<Id> -> bool, culprits: set<Id>)
    requires Searching(ids, rest + [next], bad, cleared, passes, culprits)
    ensures forall x :: x in next ==> x in ids
  {
    PendingPush(rest, next);
    forall x | x in next
      ensures x in ids
    {
      assert multiset(ids)[x] >= multiset(next)[x] > 0;
      assert x in multiset(ids);
    }
  }

  /** A dropped batch moves from the stack to the cleared ids. */
  lemma DropKeeps<Id(!new)>(
    ids: seq<Id>, rest: seq<seq<Id>>, next: seq<Id>, bad: seq<Id>, cleared: seq<Id>,
    passes: set<Id> -> bool, culprits: set<Id>)
    requires Searching(ids, rest + [next], bad, cleared, passes, culprits)
    requires Handle(next, passes(Members(next))).Drop?
    ensures Searching(ids, rest, bad, cleared + next, passes, culprits)
    ensures Cost(rest) < Cost(rest + [next])
  {
    PendingPush(rest, next);
    if FailsOnCulprit(passes, culprits) && next != [] {
      PassingBatchHasNoCulprit(passes, culprits, next);
    }
    assert multiset(cleared + next) == multiset(cleared) + multiset(next);
  }

  /** A blamed id moves from the stack to the bad ids. */
  lemma BlameKeeps<Id(!new)>(
    ids: seq<Id>, rest: seq<seq<Id>>, next: seq<Id>, bad: seq<Id>, cleared: seq<Id>,
    passes: set<Id> -> bool, culprits: set<Id>)
    requires Searching(ids, rest + [next], bad, cleared, passes, culprits)
    requires Handle(next, passes(Members(next))).Blame?
    ensures Searching(ids, rest, bad + [next[0]], cleared, passes, culprits)
    ensures Cost(rest) < Cost(rest + [next])
  {
    PendingPush(rest, next);
    var x := next[0];
    assert next == [x];
    assert Members(next) == {x};
    if FailsOnCulprit(passes, culprits) {
      assert {x} * culprits != {};
    }
    assert multiset(bad + [x]) == multiset(bad) + multiset(next);
  }

  /** The two halves of a split batch replace it on the stack, at a lower cost. */
  lemma HalveKeeps<Id(!new)>(
    ids: seq<Id>, rest: seq<seq<Id>>, next: seq<Id>, bad: seq<Id>, cleared: seq<Id>,
    passes: set<Id> -> bool, culprits: set<Id>)
    requires Searching(ids, rest + [next], bad, cleared, passes, culprits)
    requires Handle(next, passes(Members(next))).Halve?
    ensures var o := Handle(next, passes(Members(next)));
      && Searching(ids, rest + [o.first] + [o.second], bad, cleared, passes, culprits)
      && Cost(rest + [o.first] + [o.second]) < Cost(rest + [next])
  {
    var o := Handle(next, passes(Members(next)));
    var (a, b) := (o.first, o.second);
    PendingPush(rest, next);
    PendingPush(rest, a);
    PendingPush(rest + [a], b);
    assert multiset(a) + multiset(b) == multiset(next) by {
      assert a + b == next;
    }
  }

  /**
   The search. Starting from one batch holding every id, it returns the ids
   it blamed. Each blamed id failed the test on its own; with a test that
   fails exactly on batches holding a culprit, the result holds each culprit
   exactly once and nothing else.
   */
  method Bisect<Id(==, !new)>(ids: seq<Id>, passes: set<Id> -> bool, ghost culprits: set<Id>)
    returns (bad: seq<Id>)
    requires Distinct(ids)
    ensures Distinct(bad)
    ensures forall x :: x in bad ==> x in ids && !passes({x})
    ensures FailsOnCulprit(passes, culprits) ==> forall x :: x in bad <==> x in ids && x in culprits
  {
    var present := map x | x in ids :: true;
    var stack := [ids];
    bad := [];
    ghost var cleared: seq<Id> := [];
    PendingPush([], ids);
    assert [] + [ids] == stack;
    while stack != []
      invariant Searching(ids, stack, bad, cleared, passes, culprits)
      invariant forall x :: x in present <==> x in ids
      decreases Cost(stack)
    {
      ghost var whole := stack;
      var next := stack[|stack| - 1];
      stack := stack[..|stack| - 1];
      assert whole == stack + [next];
      PoppedFromIds(ids, stack, next, bad, cleared, passes, culprits);

      present := Enable(ids, present, next);
      assert PresentSet(present) == Members(next);
      var passed := passes(PresentSet(present));

      match Handle(next, passed) {
        case Drop =>
          DropKeeps(ids, stack, next, bad, cleared, passes, culprits);
          cleared := cleared + next;
        case Blame(x) =>
          BlameKeeps(ids, stack, next, bad, cleared, passes, culprits);
          bad := bad + [x];
        case Halve(a, b) =>
          HalveKeeps(ids, stack, next, bad, cleared, passes, culprits);
          stack := stack + [a];
          stack := stack + [b];
      }
    }
    forall x
      ensures multiset(bad)[x] + multiset(cleared)[x] == multiset(ids)[x]
      ensures x in bad ==> x in ids
      ensures x in ids ==> x in bad || x in cleared
    {
    }
  }

  /** One iteration of the loop as written; the tested set is the batch itself (see Enable). */
  ghost function StepAsWritten<Id>(stack: seq<seq<Id>>, bad: seq<Id>, passes: set<Id> -> bool)
    : (r: (seq<seq<Id>>, seq<Id>))
    requires stack != []
    ensures |r.0| >= |stack| - 1 && r.0[..|stack| - 1] == stack[..|stack| - 1]
    ensures r.1 == bad || (stack[|stack| - 1] != [] && r.1 == bad + [stack[|stack| - 1][0]])
  {
    var next := stack[|stack| - 1];
    var rest := stack[..|stack| - 1];
    match HandleAsWritten(next, passes(Members(next)))
    case Drop => (rest, bad)
    case Blame(x) => (rest, bad + [x])
    case Halve(a, b) =>
      assert (rest + [a] + [b])[..|rest|] == rest;
      (rest + [a] + [b], bad)
  }

  /** The stack and the blamed ids after at most `n` iterations of the loop as written. */
  ghost function RunAsWritten<Id>(stack: seq<seq<Id>>, bad: seq<Id>, passes: set<Id> -> bool, n: nat)
    : (r: (seq<seq<Id>>, seq<Id>))
    ensures bad <= r.1 && |r.1| <= |bad| + n
    decreases n
  {
    if n == 0 || stack == [] then (stack, bad)
    else
      var next := StepAsWritten(stack, bad, passes);
      RunAsWritten(next.0, next.1, passes, n - 1)
  }

  lemma {:induction false} EmptyBatchesMultiply<Id>(passes: set<Id> -> bool, k: nat, n: nat)
    requires !passes({}) && k >= 1
    ensures RunAsWritten(seq(k, _ => []), [], passes, n) == (seq(k + n, _ => []), [])
    decreases n
  {
    if n > 0 {
      var stack: seq<seq<Id>> := seq(k, _ => []);
      assert stack[k - 1] == [] && Members(stack[k - 1]) == {};
      assert HandleAsWritten(stack[k - 1], passes(Members(stack[k - 1]))) == Halve([], []);
      assert stack[..k - 1] + [[]] + [[]] == seq(k + 1, _ => []);
      EmptyBatchesMultiply(passes, k + 1, n - 1);
    }
  }

  /**
   With no ids at all and a test that fails, the loop as written never ends:
   after any number of iterations the stack holds one more empty batch than
   before, and nothing has been blamed.
   */
  lemma EmptyBatchNeverDrains<Id>(passes: set<Id> -> bool, n: nat)
    requires !passes({})
    ensures RunAsWritten([[]], [], passes, n).0 != []
    ensures |RunAsWritten([[]], [], passes, n).0| == n + 1
  {
    var one: seq<seq<Id>> := seq(1, _ => []);
    assert [[]] == one;
    EmptyBatchesMultiply<Id>(passes, 1, n);
  }

  /** Every batch on the stack holds at least one id. */
  predicate NonEmptyBatches<Id>(stack: seq<seq<Id>>) {
    forall i :: 0 <= i < |stack| ==> stack[i] != []
  }

  /**
   On a stack of non-empty batches, one step of the loop as written uses the
   corrected handling, keeps every batch non-empty and lowers the cost.
   */
  lemma AsWrittenStepShrinks<Id>(stack: seq<seq<Id>>, bad: seq<Id>, passes: set<Id> -> bool)
    requires stack != [] && NonEmptyBatches(stack)
    ensures var next := stack[|stack| - 1];
      HandleAsWritten(next, passes(Members(next))) == Handle(next, passes(Members(next)))
    ensures NonEmptyBatches(StepAsWritten(stack, bad, passes).0)
    ensures Cost(StepAsWritten(stack, bad, passes).0) < Cost(stack)
  {
    var next := stack[|stack| - 1];
    var rest := stack[..|stack| - 1];
    assert Cost(stack) == Cost(rest) + Weight(next);
    assert NonEmptyBatches(rest) by {
      forall i | 0 <= i < |rest| ensures rest[i] != [] { assert rest[i] == stack[i]; }
    }
    var passed := passes(Members(next));
    if passed || |next| == 1 {
      assert StepAsWritten(stack, bad, passes).0 == rest;
    } else {
      var a, b := next[..|next| / 2], next[|next| / 2..];
      assert HandleAsWritten(next, passed) == Halve(a, b);
      assert StepAsWritten(stack, bad, passes).0 == rest + [a] + [b];
      PushHalves(rest, a, b);
    }
  }

  /** Pushing two non-empty halves keeps every batch non-empty and adds their weights. */
  lemma PushHalves<Id>(rest: seq<seq<Id>>, a: seq<Id>, b: seq<Id>)
    requires NonEmptyBatches(rest) && a != [] && b != []
    ensures NonEmptyBatches(rest + [a] + [b])
    ensures Cost(rest + [a] + [b]) == Cost(rest) + Weight(a) + Weight(b)
  {
    PendingPush(rest, a);
    PendingPush(rest + [a], b);
    var after := rest + [a] + [b];
    forall i | 0 <= i < |after| ensures after[i] != [] {
      if i < |rest| { assert after[i] == rest[i]; }
    }
  }

  /**
   The loop as written drains any stack of non-empty batches within as many
   steps as the stack's cost.
   */
  lemma {:induction false} AsWrittenDrains<Id>(stack: seq<seq<Id>>, bad: seq<Id>, passes: set<Id> -> bool, n: nat)
    requires NonEmptyBatches(stack) && n >= Cost(stack)
    ensures RunAsWritten(stack, bad, passes, n).0 == []
    decreases n
  {
    if stack != [] {
      assert n >= 1;
      var next := StepAsWritten(stack, bad, passes);
      AsWrittenStepShrinks(stack, bad, passes);
      AsWrittenDrains(next.0, next.1, passes, n - 1);
      assert RunAsWritten(stack, bad, passes, n) == RunAsWritten(next.0, next.1, passes, n - 1);
    }
  }

  /**
   With at least one id, the loop as written ends for every test outcome,
   after at most `2 |ids| - 1` iterations; only an empty id list can make it
   run forever.
   */
  lemma AsWrittenTerminates<Id>(ids: seq<Id>, passes: set<Id> -> bool)
    requires ids != []
    ensures RunAsWritten([ids], [], passes, 2 * |ids| - 1).0 == []
  {
    PendingPush([], ids);
    assert [] + [ids] == [ids];
    AsWrittenDrains([ids], [], passes, 2 * |ids| - 1);
  }
}
