/** Operations on the id arrays the backend stores in its documents (`likes`,
    `connections`, `followers`): the `findIndex`, `splice`, `push` and `filter`
    the route handlers apply to them, and the enumeration of a collection as a
    list of (id, document) entries. */
module Lists {

  /** Each element of `s` occurs exactly once. */
  predicate NoDup<T(==)>(s: seq<T>) {
    forall x :: x in s ==> multiset(s)[x] == 1
  }

  /** Two positions of a duplicate-free list hold different elements. */
  lemma NoDupDistinct<T>(s: seq<T>, i: int, j: int)
    requires NoDup(s)
    requires 0 <= i < j < |s|
    ensures s[i] != s[j]
  {
    assert s == s[..j] + s[j..];
    assert s[i] == s[..j][i];
    assert s[j] == s[j..][0];
    assert multiset(s) == multiset(s[..j]) + multiset(s[j..]);
    assert s[i] in s && multiset(s)[s[i]] == 1;
    assert multiset(s[..j])[s[i]] >= 1;
    assert multiset(s[j..])[s[j]] >= 1;
  }

  /** `Array.prototype.findIndex` with an equality test: the first position
      holding `x`, or -1 when there is none. */
  function FindIndex<T(==)>(s: seq<T>, x: T): (i: int)
    ensures -1 <= i < |s|
    ensures i == -1 <==> x !in s
    ensures 0 <= i ==> s[i] == x && x !in s[..i]
  {
    if |s| == 0 then -1
    else if s[0] == x then 0
    else
      var j := FindIndex(s[1..], x);
      if j == -1 then -1
      else
        assert s[..j + 1] == [s[0]] + s[1..][..j];
        j + 1
  }

  /** `splice(i, 1)`: the list with the element at position `i` taken out. */
  function RemoveAt<T>(s: seq<T>, i: nat): (r: seq<T>)
    requires i < |s|
    ensures |r| == |s| - 1
    ensures forall k :: 0 <= k < i ==> r[k] == s[k]
    ensures forall k :: i <= k < |r| ==> r[k] == s[k + 1]
    ensures multiset(r) == multiset(s) - multiset{s[i]}
  {
    assert s == s[..i] + [s[i]] + s[i + 1..];
    s[..i] + s[i + 1..]
  }

  /** `Array.prototype.filter`: the elements satisfying `keep`, each with the
      multiplicity it had. */
  function Filter<T(!new)>(s: seq<T>, keep: T -> bool): (r: seq<T>)
    ensures |r| <= |s|
    ensures forall y :: multiset(r)[y] == if keep(y) then multiset(s)[y] else 0
    ensures forall y :: y in r <==> y in s && keep(y)
  {
    if |s| == 0 then []
    else
      assert s == [s[0]] + s[1..];
      (if keep(s[0]) then [s[0]] else []) + Filter(s[1..], keep)
  }

  /** Filtering a concatenation filters each part. */
  lemma {:induction false} FilterConcat<T(!new)>(a: seq<T>, b: seq<T>, keep: T -> bool)
    ensures Filter(a + b, keep) == Filter(a, keep) + Filter(b, keep)
  {
    if |a| > 0 {
      assert (a + b)[1..] == a[1..] + b;
      FilterConcat(a[1..], b, keep);
    } else {
      assert a + b == b;
    }
  }

  /** Filtering keeps a list whose elements all pass. */
  lemma {:induction false} FilterKeepsAll<T(!new)>(s: seq<T>, keep: T -> bool)
    requires forall y :: y in s ==> keep(y)
    ensures Filter(s, keep) == s
  {
    if |s| > 0 {
      assert s[0] in s;
      FilterKeepsAll(s[1..], keep);
      assert s == [s[0]] + s[1..];
    }
  }

  /** `filter(id => id !== x)`: every entry equal to `x` removed, the others
      kept in their order (`DropAllConcat`, `DropAllSingle`). */
  function DropAll<T(==,!new)>(s: seq<T>, x: T): (r: seq<T>)
    ensures multiset(r) == multiset(s)[x := 0]
    ensures forall y :: y in r <==> y in s && y != x
    ensures x !in s ==> r == s
  {
    var keep := (y: T) => y != x;
    var r := Filter(s, keep);
    assert multiset(r) == multiset(s)[x := 0];
    if x in s then r
    else
      FilterKeepsAll(s, keep);
      r
  }

  /** Dropping `x` from a concatenation drops it from each part and keeps
      the parts in order. */
  lemma DropAllConcat<T(!new)>(a: seq<T>, b: seq<T>, x: T)
    ensures DropAll(a + b, x) == DropAll(a, x) + DropAll(b, x)
  {
    FilterConcat(a, b, (y: T) => y != x);
  }

  /** A one-element list loses its element exactly when it is `x`. */
  lemma DropAllSingle<T(!new)>(y: T, x: T)
    ensures DropAll([y], x) == if y == x then [] else [y]
  {
    assert [y][1..] == [];
  }

  /** Dropping `x` from a list without `x` and then pushing `x` leaves only the list. */
  lemma DropAllAfterAppend<T(!new)>(s: seq<T>, x: T)
    requires x !in s
    ensures DropAll(s + [x], x) == s
  {
    var keep := (y: T) => y != x;
    FilterConcat(s, [x], keep);
    FilterKeepsAll(s, keep);
    assert Filter([x], keep) == [];
  }

  /** Filtering a duplicate-free list leaves it duplicate-free. */
  lemma FilterNoDup<T(!new)>(s: seq<T>, keep: T -> bool)
    requires NoDup(s)
    ensures NoDup(Filter(s, keep))
  {
  }

  /** `push(x)` onto a list that does not hold `x` keeps it duplicate-free. */
  lemma AppendNoDup<T>(s: seq<T>, x: T)
    requires NoDup(s)
    requires x !in s
    ensures NoDup(s + [x])
    ensures forall y :: y in s + [x] <==> y in s || y == x
  {
    assert multiset(s + [x]) == multiset(s) + multiset{x};
  }

  /** `k` is the smallest element of `s`. */
  ghost predicate IsLeast(k: nat, s: set<nat>) {
    k in s && forall j :: j in s ==> k <= j
  }

  /** The smallest key of a non-empty set of naturals exists. */
  lemma {:induction false} LeastExists(s: set<nat>)
    requires s != {}
    ensures exists k :: IsLeast(k, s)
  {
    var x :| x in s;
    if s == {x} {
      assert IsLeast(x, s);
    } else {
      var rest := s - {x};
      LeastExists(rest);
      var m :| IsLeast(m, rest);
      var least := if x < m then x else m;
      forall j | j in s
        ensures least <= j
      {
        if j != x {
          assert j in rest;
        }
      }
      assert IsLeast(least, s);
    }
  }

  /** The smallest key of a non-empty set of naturals. */
  function MinKey(s: set<nat>): (k: nat)
    requires s != {}
    ensures k in s
    ensures forall j :: j in s ==> k <= j
  {
    LeastExists(s);
    var k :| k in s && forall j :: j in s ==> k <= j;
    k
  }

  /** The documents of a collection as (id, document) entries in ascending
      id order: every stored entry occurs exactly once and nothing else does. */
  function Entries<V(==,!new)>(m: map<nat, V>): (r: seq<(nat, V)>)
    ensures forall e :: multiset(r)[e] == if e.0 in m && m[e.0] == e.1 then 1 else 0
    decreases m.Keys
  {
    if m.Keys == {} then []
    else
      var k := MinKey(m.Keys);
      var rest := Entries(m - {k});
      [(k, m[k])] + rest
  }

  /** The entry list of a collection has no repeated entry. */
  lemma EntriesNoDup<V(!new)>(m: map<nat, V>)
    ensures NoDup(Entries(m))
  {
  }

  /** The entry list of a collection holds exactly the stored entries. */
  lemma EntriesMembers<V(!new)>(m: map<nat, V>)
    ensures forall e :: e in Entries(m) <==> e.0 in m && m[e.0] == e.1
  {
    forall e
      ensures e in Entries(m) <==> e.0 in m && m[e.0] == e.1
    {
      assert e in Entries(m) <==> e in multiset(Entries(m));
    }
  }

  /** Two arrangements of the same elements have the same members, and one
      is duplicate-free exactly when the other is. */
  lemma PermutationMembers<T>(a: seq<T>, b: seq<T>)
    requires multiset(a) == multiset(b)
    ensures forall x :: x in a <==> x in b
    ensures NoDup(a) <==> NoDup(b)
  {
    assert forall x :: x in a <==> x in multiset(a);
    assert forall x :: x in b <==> x in multiset(b);
  }
}
