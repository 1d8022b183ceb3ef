/** The ordering the listing queries ask the store for: `sort({ createdAt: -1 })`,
    newest first, modelled as an insertion sort on a key. */
module Ordering {

  /** `s` is ordered by `key`, largest key first. */
  predicate SortedDesc<T>(s: seq<T>, key: T -> int) {
    forall i, j :: 0 <= i < j < |s| ==> key(s[i]) >= key(s[j])
  }

  /** The head of a descending list carries the largest key. */
  lemma HeadIsLargest<T>(s: seq<T>, key: T -> int)
    requires SortedDesc(s, key)
    requires |s| > 0
    ensures forall y :: y in s ==> key(s[0]) >= key(y)
  {
    forall y | y in s
      ensures key(s[0]) >= key(y)
    {
      var k :| 0 <= k < |s| && s[k] == y;
      if k > 0 {
        assert key(s[0]) >= key(s[k]);
      }
    }
  }

  /** Putting an element no smaller than the rest in front keeps a list descending. */
  lemma PrependSorted<T>(x: T, s: seq<T>, key: T -> int)
    requires SortedDesc(s, key)
    requires forall y :: y in s ==> key(x) >= key(y)
    ensures SortedDesc([x] + s, key)
  {
    var t := [x] + s;
    forall i, j | 0 <= i < j < |t|
      ensures key(t[i]) >= key(t[j])
    {
      assert t[j] == s[j - 1];
      assert t[j] in s;
      if i > 0 {
        assert t[i] == s[i - 1];
      }
    }
  }

  /** `x` placed into a descending list before the first element with a smaller key. */
  function Insert<T>(x: T, s: seq<T>, key: T -> int): (r: seq<T>)
    requires SortedDesc(s, key)
    ensures SortedDesc(r, key)
    ensures multiset(r) == multiset(s) + multiset{x}
    ensures |r| == |s| + 1
  {
    if |s| == 0 || key(x) >= key(s[0]) then
      if |s| > 0 then HeadIsLargest(s, key); PrependSorted(x, s, key); [x] + s
      else [x]
    else
      assert s == [s[0]] + s[1..];
      var rest := Insert(x, s[1..], key);
      HeadIsLargest(s, key);
      assert forall y :: y in rest ==> y in multiset(s[1..]) + multiset{x};
      PrependSorted(s[0], rest, key);
      [s[0]] + rest
  }

  /** The elements of `s`, each with its multiplicity, ordered largest key first. */
  function SortDesc<T>(s: seq<T>, key: T -> int): (r: seq<T>)
    ensures SortedDesc(r, key)
    ensures multiset(r) == multiset(s)
    ensures |r| == |s|
  {
    if |s| == 0 then []
    else
      assert s == [s[0]] + s[1..];
      Insert(s[0], SortDesc(s[1..], key), key)
  }

  /** The first `n` elements of `s`, or all of them when there are fewer (`limit(n)`). */
  function Take<T>(s: seq<T>, n: nat): (r: seq<T>)
    ensures |r| == if |s| < n then |s| else n
    ensures forall i :: 0 <= i < |r| ==> r[i] == s[i]
  {
    if |s| < n then s else s[..n]
  }
}
