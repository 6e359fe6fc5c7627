// Facts about sequences and their multisets.
module Sequences {

  lemma SameMultisetSameLength<T>(a: seq<T>, b: seq<T>)
    requires multiset(a) == multiset(b)
    ensures |a| == |b|
  {
    assert |a| == |multiset(a)| == |multiset(b)| == |b|;
  }

  function RemoveAt<T>(s: seq<T>, i: nat): (r: seq<T>)
    requires i < |s|
    ensures |r| == |s| - 1
  {
    s[..i] + s[i + 1..]
  }

  lemma RemoveAtMultiset<T>(s: seq<T>, i: nat)
    requires i < |s|
    ensures multiset(s) == multiset(RemoveAt(s, i)) + multiset{s[i]}
  {
    assert s == s[..i] + [s[i]] + s[i + 1..];
  }

  lemma RemovedFromBoth<T>(a: seq<T>, i: nat, b: seq<T>, j: nat)
    requires multiset(a) == multiset(b) && i < |a| && j < |b| && a[i] == b[j]
    ensures multiset(RemoveAt(a, i)) == multiset(RemoveAt(b, j))
  {
    RemoveAtMultiset(a, i);
    RemoveAtMultiset(b, j);
    assert multiset(RemoveAt(a, i)) == multiset(a) - multiset{a[i]};
  }

  lemma InPermutation<T>(a: seq<T>, b: seq<T>, x: T)
    requires multiset(a) == multiset(b) && x in a
    ensures x in b
  {
    assert x in multiset(a);
  }

  lemma IndexIn<T>(a: seq<T>, b: seq<T>, i: nat) returns (j: nat)
    requires multiset(a) == multiset(b) && i < |a|
    ensures j < |b| && b[j] == a[i]
  {
    assert a[i] in multiset(a);
    assert a[i] in b;
    j :| j < |b| && b[j] == a[i];
  }

  lemma SliceOfSlice<T>(s: seq<T>, lo: nat, hi: nat, i: nat, j: nat)
    requires lo <= hi <= |s| && i <= j <= hi - lo
    ensures s[lo..hi][i..j] == s[lo + i..lo + j]
  {
    var a, b := s[lo..hi][i..j], s[lo + i..lo + j];
    forall k | 0 <= k < j - i
      ensures a[k] == b[k]
    {
      assert a[k] == s[lo..hi][i + k] == s[lo + (i + k)];
    }
  }

  lemma Middle<T>(a: seq<T>, b: seq<T>, c: seq<T>)
    ensures (a + b + c)[|a|..|a| + |b|] == b
  {
    assert forall i :: 0 <= i < |b| ==> (a + b + c)[|a| + i] == b[i];
  }

  lemma LastSplit<T>(s: seq<T>)
    requires s != []
    ensures s == s[..|s| - 1] + [s[|s| - 1]]
  {
  }

  function Map<T, U>(s: seq<T>, f: T -> U): (r: seq<U>)
    ensures |r| == |s| && forall i :: 0 <= i < |s| ==> r[i] == f(s[i])
  {
    seq(|s|, i requires 0 <= i < |s| => f(s[i]))
  }

  lemma MapRemoveAt<T, U>(s: seq<T>, f: T -> U, i: nat)
    requires i < |s|
    ensures multiset(Map(s, f)) == multiset(Map(RemoveAt(s, i), f)) + multiset{f(s[i])}
  {
    RemoveAtMultiset(Map(s, f), i);
    assert RemoveAt(Map(s, f), i) == Map(RemoveAt(s, i), f);
  }

  lemma {:induction false} MapPermuted<T, U>(a: seq<T>, b: seq<T>, f: T -> U)
    requires multiset(a) == multiset(b)
    ensures multiset(Map(a, f)) == multiset(Map(b, f))
  {
    SameMultisetSameLength(a, b);
    if a != [] {
      var i := IndexIn(a, b, 0);
      RemovedFromBoth(a, 0, b, i);
      MapPermuted(RemoveAt(a, 0), RemoveAt(b, i), f);
      MapRemoveAt(a, f, 0);
      MapRemoveAt(b, f, i);
    }
  }

  // An arrival p joins the kept items, of which some go out.
  lemma Exchange<T>(all: multiset<T>, delivered: multiset<T>, evicted: multiset<T>, discarded: multiset<T>,
                    kept: multiset<T>, p: T, out: multiset<T>, kept': multiset<T>)
    requires all == delivered + evicted + discarded + kept
    requires kept + multiset{p} == out + kept'
    ensures all + multiset{p} == delivered + (evicted + out) + discarded + kept'
  {
    forall x
      ensures (all + multiset{p})[x] == (delivered + (evicted + out) + discarded + kept')[x]
    {
      assert (kept + multiset{p})[x] == (out + kept')[x];
    }
  }

  ghost predicate IncreasingBy<T>(s: seq<T>, key: T -> int) {
    forall i, j :: 0 <= i < j < |s| ==> key(s[i]) < key(s[j])
  }

  ghost predicate NonDecreasingBy<T>(s: seq<T>, key: T -> int) {
    forall i, j :: 0 <= i < j < |s| ==> key(s[i]) <= key(s[j])
  }

  lemma SortedHeadsAgree<T>(a: seq<T>, b: seq<T>, key: T -> int)
    requires multiset(a) == multiset(b) && IncreasingBy(a, key) && NonDecreasingBy(b, key) && a != []
    ensures b != [] && a[0] == b[0]
  {
    var i := IndexIn(a, b, 0);
    var j := IndexIn(b, a, 0);
    assert key(b[0]) <= key(b[i]) == key(a[0]);
    assert key(a[0]) <= key(a[j]) == key(b[0]);
  }

  lemma TailsOfPermutation<T>(a: seq<T>, b: seq<T>)
    requires multiset(a) == multiset(b) && a != [] && b != [] && a[0] == b[0]
    ensures multiset(a[1..]) == multiset(b[1..])
  {
    RemovedFromBoth(a, 0, b, 0);
    assert RemoveAt(a, 0) == a[1..] && RemoveAt(b, 0) == b[1..];
  }

  /** Elements with distinct keys can be put in order in one way only. */
  lemma {:induction false} SortedUnique<T>(a: seq<T>, b: seq<T>, key: T -> int)
    requires multiset(a) == multiset(b) && IncreasingBy(a, key) && NonDecreasingBy(b, key)
    ensures a == b
  {
    SameMultisetSameLength(a, b);
    if a != [] {
      SortedHeadsAgree(a, b, key);
      TailsOfPermutation(a, b);
      SortedUnique(a[1..], b[1..], key);
      assert a == [a[0]] + a[1..] && b == [b[0]] + b[1..];
    }
  }

  lemma IncreasingAppend<T>(s: seq<T>, x: T, key: T -> int)
    requires IncreasingBy(s, key) && forall y :: y in s ==> key(y) < key(x)
    ensures IncreasingBy(s + [x], key)
  {
    assert forall i :: 0 <= i < |s| ==> s[i] in s;
  }

  lemma NonDecreasingConcat<T>(a: seq<T>, b: seq<T>, key: T -> int)
    ensures NonDecreasingBy(a + b, key) <==>
              && NonDecreasingBy(a, key) && NonDecreasingBy(b, key)
              && forall x, y :: x in a && y in b ==> key(x) <= key(y)
  {
    var s := a + b;
    if NonDecreasingBy(s, key) {
      forall i, j | 0 <= i < j < |b|
        ensures key(b[i]) <= key(b[j])
      {
        assert b[i] == s[|a| + i] && b[j] == s[|a| + j];
      }
      forall i, j | 0 <= i < j < |a|
        ensures key(a[i]) <= key(a[j])
      {
        assert a[i] == s[i] && a[j] == s[j];
      }
      forall x, y | x in a && y in b
        ensures key(x) <= key(y)
      {
        var i :| 0 <= i < |a| && a[i] == x;
        var j :| 0 <= j < |b| && b[j] == y;
        assert s[i] == x && s[|a| + j] == y;
      }
    }
  }

  lemma LeastIsHead<T>(line: seq<T>, least: seq<T>, others: multiset<T>, key: T -> int)
    requires multiset(line) == multiset(least) + others && least != []
    requires NonDecreasingBy(line, key) && IncreasingBy(least, key)
    requires forall x, y :: x in least && y in others ==> key(x) < key(y)
    ensures line != [] && line[0] == least[0]
  {
    assert least[0] in multiset(line);
    var j :| 0 <= j < |line| && line[j] == least[0];
    assert key(line[0]) <= key(least[0]);
    assert line[0] in multiset(line);
    if line[0] !in others {
      assert line[0] in multiset(least);
      var i :| 0 <= i < |least| && least[i] == line[0];
    }
  }

  lemma TailsOfSum<T>(line: seq<T>, least: seq<T>, others: multiset<T>)
    requires multiset(line) == multiset(least) + others && line != [] && least != [] && line[0] == least[0]
    ensures multiset(line[1..]) == multiset(least[1..]) + others
  {
    assert line == [line[0]] + line[1..] && least == [least[0]] + least[1..];
    assert multiset(line[1..]) == multiset(line) - multiset{line[0]};
  }

  /** Elements with distinct keys, below all others, come first in any ordering. */
  lemma {:induction false} LeastComeFirst<T>(line: seq<T>, least: seq<T>, others: multiset<T>, key: T -> int)
    requires multiset(line) == multiset(least) + others
    requires NonDecreasingBy(line, key) && IncreasingBy(least, key)
    requires forall x, y :: x in least && y in others ==> key(x) < key(y)
    ensures least <= line
  {
    if least != [] {
      LeastIsHead(line, least, others, key);
      TailsOfSum(line, least, others);
      LeastComeFirst(line[1..], least[1..], others, key);
      assert line == [line[0]] + line[1..] && least == [least[0]] + least[1..];
    }
  }

  lemma RemoveAtMembers<T>(s: seq<T>, k: nat)
    requires k < |s|
    ensures forall x :: x in s ==> x in [s[k]] + RemoveAt(s, k)
    ensures forall x :: x in [s[k]] + RemoveAt(s, k) ==> x in s
  {
    RemoveAtMultiset(s, k);
    var moved := [s[k]] + RemoveAt(s, k);
    assert multiset(moved) == multiset(s);
    assert forall x :: x in moved ==> x in multiset(moved);
    assert forall x :: x in s ==> x in multiset(s);
  }

  lemma RemoveAtOrdered<T>(s: seq<T>, k: nat, key: T -> int)
    requires k < |s| && NonDecreasingBy(s, key)
    ensures NonDecreasingBy(RemoveAt(s, k), key)
    ensures NonDecreasingBy([s[k]] + RemoveAt(s, k), key) <==> key(s[k]) == key(s[0])
  {
    var rest := RemoveAt(s, k);
    assert forall i :: 0 <= i < |rest| ==> rest[i] == s[if i < k then i else i + 1];
    if key(s[k]) == key(s[0]) {
      assert forall i :: 0 <= i < |s| ==> key(s[0]) <= key(s[i]);
    } else {
      var moved := [s[k]] + rest;
      assert moved[0] == s[k] && moved[1] == s[0] && key(s[0]) <= key(s[k]);
    }
  }

  /** Moving an element from an ordered sequence to the end of another keeps them in order, one after
      the other, exactly when it is one of the least. */
  lemma MovedInOrder<T>(a: seq<T>, s: seq<T>, k: nat, key: T -> int)
    requires k < |s| && NonDecreasingBy(s, key)
    ensures NonDecreasingBy(a + [s[k]] + RemoveAt(s, k), key)
            <==> NonDecreasingBy(a + s, key) && key(s[k]) == key(s[0])
  {
    hide NonDecreasingBy, RemoveAt;
    var moved := [s[k]] + RemoveAt(s, k);
    RemoveAtMembers(s, k);
    RemoveAtOrdered(s, k, key);
    NonDecreasingConcat(a, s, key);
    NonDecreasingConcat(a, moved, key);
    assert a + [s[k]] + RemoveAt(s, k) == a + moved;
  }

  lemma IncreasingSuffix<T>(a: seq<T>, b: seq<T>, key: T -> int)
    requires IncreasingBy(a + b, key)
    ensures IncreasingBy(b, key)
  {
    forall i, j | 0 <= i < j < |b|
      ensures key(b[i]) < key(b[j])
    {
      assert b[i] == (a + b)[|a| + i] && b[j] == (a + b)[|a| + j];
    }
  }
}
