/**
 A stable sort by key, the model of Python's `list.sort(key=..., reverse=...)`.
 The comparator `le` is the order the keys are sorted by: `<=` for an
 ascending sort, `>=` for `reverse=True` (which keeps equal keys in their
 listing order, as the insertion below does).
 */
module Sorting {

  /** `le` relates every two keys one way or the other. */
  ghost predicate Total<K(!new)>(le: (K, K) -> bool)
  {
    forall a, b :: le(a, b) || le(b, a)
  }

  ghost predicate Transitive<K(!new)>(le: (K, K) -> bool)
  {
    forall a, b, c :: le(a, b) && le(b, c) ==> le(a, c)
  }

  ghost predicate TotalPreorder<K(!new)>(le: (K, K) -> bool)
  {
    Total(le) && Transitive(le)
  }

  /** Every element's key comes, by `le`, no later than the key of every element after it. */
  ghost predicate SortedBy<T, K>(s: seq<T>, key: T -> K, le: (K, K) -> bool)
  {
    forall i, j :: 0 <= i < j < |s| ==> le(key(s[i]), key(s[j]))
  }

  /** Inserts `x` before the first element whose key it does not follow. */
  function Insert<T, K>(x: T, s: seq<T>, key: T -> K, le: (K, K) -> bool): (r: seq<T>)
    ensures multiset(r) == multiset(s) + multiset{x}
  {
    if |s| == 0 then [x]
    else if le(key(x), key(s[0])) then [x] + s
    else
      assert s == [s[0]] + s[1..];
      [s[0]] + Insert(x, s[1..], key, le)
  }

  /** Insertion sort; the result is a permutation of `s`. */
  function Sort<T, K>(s: seq<T>, key: T -> K, le: (K, K) -> bool): (r: seq<T>)
    ensures multiset(r) == multiset(s)
    ensures |r| == |s|
  {
    if |s| == 0 then []
    else
      assert s == [s[0]] + s[1..];
      Insert(s[0], Sort(s[1..], key, le), key, le)
  }

  lemma {:induction false} InsertSorted<T, K(!new)>(x: T, s: seq<T>, key: T -> K, le: (K, K) -> bool)
    requires TotalPreorder(le)
    requires SortedBy(s, key, le)
    ensures SortedBy(Insert(x, s, key, le), key, le)
  {
    if |s| == 0 {
    } else if le(key(x), key(s[0])) {
      var r := [x] + s;
      forall i, j | 0 <= i < j < |r|
        ensures le(key(r[i]), key(r[j]))
      {
        if i == 0 && j > 1 {
          assert le(key(s[0]), key(s[j - 1]));
        }
      }
    } else {
      var t := Insert(x, s[1..], key, le);
      InsertSorted(x, s[1..], key, le);
      assert le(key(s[0]), key(x));
      forall k | 0 <= k < |t|
        ensures le(key(s[0]), key(t[k]))
      {
        assert t[k] in multiset(t);
        if t[k] != x {
          assert t[k] in multiset(s[1..]);
          var m :| 0 <= m < |s[1..]| && s[1..][m] == t[k];
          assert s[m + 1] == t[k];
        }
      }
      var r := [s[0]] + t;
      forall i, j | 0 <= i < j < |r|
        ensures le(key(r[i]), key(r[j]))
      {
        if i == 0 {
          assert r[j] == t[j - 1];
        } else {
          assert r[i] == t[i - 1] && r[j] == t[j - 1];
        }
      }
    }
  }

  lemma {:induction false} SortSorted<T, K(!new)>(s: seq<T>, key: T -> K, le: (K, K) -> bool)
    requires TotalPreorder(le)
    ensures SortedBy(Sort(s, key, le), key, le)
  {
    if |s| > 0 {
      SortSorted(s[1..], key, le);
      InsertSorted(s[0], Sort(s[1..], key, le), key, le);
    }
  }

  /** In a sorted sequence, everything before position `k` precedes everything from `k` on. */
  lemma SortedSplit<T, K>(s: seq<T>, k: nat, key: T -> K, le: (K, K) -> bool)
    requires SortedBy(s, key, le)
    requires k <= |s|
    ensures SortedBy(s[..k], key, le) && SortedBy(s[k..], key, le)
    ensures forall a, b :: a in s[..k] && b in s[k..] ==> le(key(a), key(b))
  {
    forall a, b | a in s[..k] && b in s[k..]
      ensures le(key(a), key(b))
    {
      var i :| 0 <= i < k && s[i] == a;
      var j :| 0 <= j < |s[k..]| && s[k..][j] == b;
      assert s[k + j] == b;
    }
  }
}
