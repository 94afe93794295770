/** `Array.prototype.filter` on sequences, and the facts about it the model uses. */
module Seqs {

  /** The elements of `s` that satisfy `p`, in their order in `s`. */
  function Filter<T>(s: seq<T>, p: T -> bool): (r: seq<T>)
    ensures |r| <= |s|
    ensures forall x | x in r :: x in s && p(x)
    ensures forall x | x in s && p(x) :: x in r
  {
    if s == [] then []
    else (if p(s[0]) then [s[0]] else []) + Filter(s[1..], p)
  }

  /** Filtering works piece by piece, so it keeps the order of what it keeps. */
  lemma {:induction false} FilterConcat<T>(a: seq<T>, b: seq<T>, p: T -> bool)
    ensures Filter(a + b, p) == Filter(a, p) + Filter(b, p)
    decreases |a|
  {
    if a == [] {
      assert a + b == b;
    } else {
      assert (a + b)[1..] == a[1..] + b;
      FilterConcat(a[1..], b, p);
    }
  }

  lemma FilterOne<T>(x: T, p: T -> bool)
    ensures Filter([x], p) == if p(x) then [x] else []
  {
    assert [x][1..] == [];
  }

  /** Filtering a list extended by one element. */
  lemma FilterSnoc<T>(s: seq<T>, x: T, p: T -> bool)
    ensures Filter(s + [x], p) == Filter(s, p) + (if p(x) then [x] else [])
  {
    FilterConcat(s, [x], p);
    FilterOne(x, p);
  }

  /** A filter that everything passes keeps everything. */
  lemma {:induction false} FilterKeepsAll<T>(s: seq<T>, p: T -> bool)
    requires forall x | x in s :: p(x)
    ensures Filter(s, p) == s
    decreases |s|
  {
    if s != [] {
      FilterKeepsAll(s[1..], p);
    }
  }

  /** Two complementary filters split a sequence: together they keep each element once. */
  lemma {:induction false} FilterPartition<T>(s: seq<T>, p: T -> bool, q: T -> bool)
    requires forall x :: q(x) <==> !p(x)
    ensures |Filter(s, p)| + |Filter(s, q)| == |s|
    ensures multiset(Filter(s, p)) + multiset(Filter(s, q)) == multiset(s)
    decreases |s|
  {
    if s != [] {
      FilterPartition(s[1..], p, q);
      assert s == [s[0]] + s[1..];
    }
  }

  /** Replacing one element by one that passes `p` when the old one did not. */
  lemma {:induction false} FilterUpdateGains<T>(s: seq<T>, i: nat, y: T, p: T -> bool)
    requires i < |s| && !p(s[i]) && p(y)
    ensures |Filter(s[i := y], p)| == |Filter(s, p)| + 1
    decreases |s|
  {
    if i > 0 {
      FilterUpdateGains(s[1..], i - 1, y, p);
      assert s[i := y][1..] == s[1..][i - 1 := y];
    }
  }

  /** Replacing one element by one that fails `p` when the old one passed. */
  lemma {:induction false} FilterUpdateLoses<T>(s: seq<T>, i: nat, y: T, p: T -> bool)
    requires i < |s| && p(s[i]) && !p(y)
    ensures |Filter(s[i := y], p)| + 1 == |Filter(s, p)|
    decreases |s|
  {
    if i > 0 {
      FilterUpdateLoses(s[1..], i - 1, y, p);
      assert s[i := y][1..] == s[1..][i - 1 := y];
    }
  }

  /** Replacing one element by one `p` judges alike keeps as many. */
  lemma {:induction false} FilterUpdateKeeps<T>(s: seq<T>, i: nat, y: T, p: T -> bool)
    requires i < |s| && p(s[i]) == p(y)
    ensures |Filter(s[i := y], p)| == |Filter(s, p)|
    decreases |s|
  {
    if i > 0 {
      FilterUpdateKeeps(s[1..], i - 1, y, p);
      assert s[i := y][1..] == s[1..][i - 1 := y];
    }
  }

  /** A weaker test keeps at least as much. */
  lemma {:induction false} FilterMonotone<T>(s: seq<T>, p: T -> bool, q: T -> bool)
    requires forall x :: p(x) ==> q(x)
    ensures |Filter(s, p)| <= |Filter(s, q)|
    decreases |s|
  {
    if s != [] {
      FilterMonotone(s[1..], p, q);
    }
  }

  /** Filters that agree on the elements keep the same elements. */
  lemma {:induction false} FilterAgree<T>(s: seq<T>, p: T -> bool, q: T -> bool)
    requires forall x | x in s :: p(x) == q(x)
    ensures Filter(s, p) == Filter(s, q)
    decreases |s|
  {
    if s != [] {
      FilterAgree(s[1..], p, q);
    }
  }

  /** A filter nothing passes keeps nothing. */
  lemma {:induction false} FilterKeepsNone<T>(s: seq<T>, p: T -> bool)
    requires forall x | x in s :: !p(x)
    ensures Filter(s, p) == []
    decreases |s|
  {
    if s != [] {
      FilterKeepsNone(s[1..], p);
    }
  }

  /** Two lists holding the same elements as often hold the same elements. */
  lemma SameElements<T>(a: seq<T>, b: seq<T>)
    requires multiset(a) == multiset(b)
    ensures forall x :: x in a <==> x in b
  {
    forall x
      ensures x in a <==> x in b
    {
      assert x in a <==> x in multiset(a);
      assert x in b <==> x in multiset(b);
    }
  }
}
