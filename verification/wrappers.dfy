/** Option and Result: how the model writes the source's absent values and
    raised exceptions; and where a loop over a sequence of calls stops when
    the first of them raises. */
module Wrappers {

  datatype Option<+T> = None | Some(value: T)

  /** `Failure(e)` stands for a Python exception `e` raised out of the operation. */
  datatype Result<+T, +E> = Success(value: T) | Failure(error: E)

  /** No element occurs twice. */
  predicate Distinct<T(==)>(s: seq<T>)
  {
    forall i, j :: 0 <= i < j < |s| ==> s[i] != s[j]
  }

  /** The index of the first target in `failing` (the first call that
      raises), or `|targets|` when none is. */
  function FirstFailure<T>(targets: seq<T>, failing: set<T>): (i: nat)
    ensures i <= |targets|
    ensures forall j :: 0 <= j < i ==> targets[j] !in failing
    ensures i < |targets| ==> targets[i] in failing
  {
    if |targets| == 0 || targets[0] in failing then 0
    else 1 + FirstFailure(targets[1..], failing)
  }

  /** `FirstFailure` is pinned down by its two properties. */
  lemma FirstFailureAt<T>(targets: seq<T>, failing: set<T>, i: nat)
    requires i <= |targets|
    requires forall j :: 0 <= j < i ==> targets[j] !in failing
    requires i < |targets| ==> targets[i] in failing
    ensures FirstFailure(targets, failing) == i
  {
  }

  /** Running the calls of `a`, then those of `b`: the first raise is in `a`
      if any call of `a` raises, and otherwise it is the first raise in `b`. */
  lemma FirstFailureAppend<T>(a: seq<T>, b: seq<T>, failing: set<T>)
    ensures var ka := FirstFailure(a, failing);
      FirstFailure(a + b, failing) == if ka < |a| then ka else |a| + FirstFailure(b, failing)
  {
    var ka := FirstFailure(a, failing);
    if ka < |a| {
      FirstFailureAt(a + b, failing, ka);
    } else {
      var kb := FirstFailure(b, failing);
      forall j | 0 <= j < |a| + kb
        ensures (a + b)[j] !in failing
      {
        if j >= |a| {
          assert (a + b)[j] == b[j - |a|];
        }
      }
      FirstFailureAt(a + b, failing, |a| + kb);
    }
  }
}
