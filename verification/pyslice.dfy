/**
 Python slice semantics for the two slice forms the backup service uses,
 `s[i:]` and `s[:j]` (step 1): a negative bound counts from the end of the
 sequence, and the adjusted bound is then clamped into `[0, len(s)]`.
 In particular `-0 == 0`, so `s[:-0]` is `s[:0]`, the empty list.
 */
module PySlice {

  /** The position a slice bound `i` denotes in a sequence of length `n`. */
  function Bound(i: int, n: nat): (k: nat)
    ensures k <= n
  {
    if i < 0 then (if i + n < 0 then 0 else i + n)
    else if i > n then n
    else i
  }

  /** `s[i:]` */
  function From<T>(s: seq<T>, i: int): seq<T>
  {
    s[Bound(i, |s|)..]
  }

  /** `s[:j]` */
  function Upto<T>(s: seq<T>, j: int): seq<T>
  {
    s[..Bound(j, |s|)]
  }

  /** `s[:i] + s[i:] == s` for every integer `i`. */
  lemma UptoFrom<T>(s: seq<T>, i: int)
    ensures Upto(s, i) + From(s, i) == s
  {
  }

  /** The two halves hold the elements of `s`, each once. */
  lemma UptoFromMultiset<T>(s: seq<T>, i: int)
    ensures multiset(Upto(s, i)) + multiset(From(s, i)) == multiset(s)
    ensures multiset(From(s, i)) + multiset(Upto(s, i)) == multiset(s)
  {
    UptoFrom(s, i);
  }

  /** How many elements `s[i:]` holds, written without `Bound`. */
  lemma FromLength<T>(s: seq<T>, i: int)
    ensures 0 <= i ==> |From(s, i)| == if i <= |s| then |s| - i else 0
    ensures i < 0 ==> |From(s, i)| == if -i <= |s| then -i else |s|
  {
  }

  /** How many elements `s[:j]` holds, written without `Bound`. */
  lemma UptoLength<T>(s: seq<T>, j: int)
    ensures 0 <= j ==> |Upto(s, j)| == if j <= |s| then j else |s|
    ensures j < 0 ==> |Upto(s, j)| == if -j <= |s| then |s| + j else 0
  {
  }
}
