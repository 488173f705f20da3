/** Working through a list of transfers and stopping at the first that fails. */
module Issuing {

  /** What transfer number k returns: negative is an error. */
  function At(result: nat -> int, k: nat): int {
    result(k)
  }

  /** How many transfers were made, and the error of the last one or zero. */
  datatype Outcome = Outcome(done: nat, code: int)

  /** Working through the plan when transfer number `at` is the next one. */
  function Issue<T>(result: nat -> int, at: nat, plan: seq<T>): Outcome
    decreases |plan|
  {
    if plan == [] then Outcome(0, 0)
    else if At(result, at) < 0 then Outcome(1, At(result, at))
    else
      var rest := Issue(result, at + 1, plan[1..]);
      Outcome(1 + rest.done, rest.code)
  }

  /** Everything up to the first failure is issued and nothing behind it; without a failure, everything. */
  lemma {:induction false} IssuedIsPrefix<T>(result: nat -> int, at: nat, plan: seq<T>)
    ensures var o := Issue(result, at, plan);
      && o.done <= |plan| && o.code <= 0
      && (plan != [] ==> o.done > 0)
      && (forall k :: at <= k < at + o.done - 1 ==> At(result, k) >= 0)
      && (o.code < 0 ==> o.code == At(result, at + o.done - 1))
      && (o.code == 0 ==> o.done == |plan|)
      && (o.code == 0 <==> forall k :: at <= k < at + |plan| ==> At(result, k) >= 0)
    decreases |plan|
  {
    if plan != [] && At(result, at) >= 0 {
      IssuedIsPrefix(result, at + 1, plan[1..]);
    }
  }

  /** One plan after the other: the second is begun only if the first went through. */
  lemma {:induction false} IssueConcat<T>(result: nat -> int, at: nat, a: seq<T>, b: seq<T>)
    ensures var o, p := Issue(result, at, a), Issue(result, at + |a|, b);
      && o.code <= 0 && o.done <= |a| && (o.code == 0 ==> o.done == |a|)
      && Issue(result, at, a + b) == if o.code < 0 then o else Outcome(|a| + p.done, p.code)
    decreases |a|
  {
    if a == [] {
      assert a + b == b;
    } else {
      assert (a + b)[1..] == a[1..] + b;
      IssueConcat(result, at + 1, a[1..], b);
      assert at + |a| == at + 1 + |a[1..]|;
    }
  }

  lemma IssueNone<T>(result: nat -> int, at: nat)
    ensures Issue<T>(result, at, []) == Outcome(0, 0)
  {
  }

  lemma IssueOne<T>(result: nat -> int, at: nat, t: T)
    ensures Issue(result, at, [t]) == Outcome(1, if At(result, at) < 0 then At(result, at) else 0)
  {
  }
}
