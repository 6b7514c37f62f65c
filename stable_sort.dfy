/** `Array.prototype.sort(comparefn)` as the posts and comments rules use it.
    The comparator returns a number: negative puts its first argument first,
    positive puts its second argument first, zero keeps the two in the order
    they had (the sort is stable, as ECMAScript requires since 2019).
    Sort is the specification: an insertion sort that inserts each element
    after every element that does not compare greater than it. SortInPlace
    computes it in place, and SortedStableIsUnique shows that ANY stable sort
    of the array yields this same sequence, whatever algorithm the engine uses. */
module StableSort {

  function Sign(n: int): int {
    if n < 0 then -1 else if n > 0 then 1 else 0
  }

  /** A consistent comparator: swapping the arguments flips the sign, and
      "does not come after" is transitive. Both comparators of the rules are
      consistent; for any other one ECMAScript leaves the order unspecified. */
  ghost predicate Consistent<T(!new)>(cmp: (T, T) -> int) {
    forall a, b, c :: ConsistentAt(cmp, a, b, c)
  }

  ghost predicate ConsistentAt<T>(cmp: (T, T) -> int, a: T, b: T, c: T) {
    && Sign(cmp(a, b)) == -Sign(cmp(b, a))
    && (cmp(a, b) <= 0 && cmp(b, c) <= 0 ==> cmp(a, c) <= 0)
  }

  /** No element is placed after one that should come after it. */
  ghost predicate Sorted<T>(s: seq<T>, cmp: (T, T) -> int) {
    forall i, j :: 0 <= i < j < |s| ==> cmp(s[i], s[j]) <= 0
  }

  /** The elements of `s` that compare equal to `y`, in their order in `s`. */
  function Ties<T>(s: seq<T>, y: T, cmp: (T, T) -> int): seq<T> {
    if s == [] then []
    else Ties(s[..|s| - 1], y, cmp) + (if cmp(s[|s| - 1], y) == 0 then [s[|s| - 1]] else [])
  }

  /** Inserts `x` into `s` after the last element that does not compare greater than `x`. */
  function Insert<T(==)>(s: seq<T>, x: T, cmp: (T, T) -> int): (r: seq<T>)
    ensures |r| == |s| + 1
  {
    if s == [] then [x]
    else if cmp(s[|s| - 1], x) > 0 then
      assert s == s[..|s| - 1] + [s[|s| - 1]];
      Insert(s[..|s| - 1], x, cmp) + [s[|s| - 1]]
    else s + [x]
  }

  /** The stable sort of `s` under `cmp`. */
  function Sort<T(==)>(s: seq<T>, cmp: (T, T) -> int): (r: seq<T>)
    ensures |r| == |s|
  {
    if s == [] then []
    else
      assert s == s[..|s| - 1] + [s[|s| - 1]];
      Insert(Sort(s[..|s| - 1], cmp), s[|s| - 1], cmp)
  }

  /** Insert adds exactly `x` to the elements of `s`. */
  lemma {:induction false} InsertPermutes<T>(s: seq<T>, x: T, cmp: (T, T) -> int)
    ensures multiset(Insert(s, x, cmp)) == multiset(s) + multiset{x}
    decreases |s|
  {
    if s != [] && cmp(s[|s| - 1], x) > 0 {
      InsertPermutes(s[..|s| - 1], x, cmp);
      assert s == s[..|s| - 1] + [s[|s| - 1]];
    }
  }

  /** Sorting only rearranges: the output is a permutation of the input. */
  lemma {:induction false} SortPermutes<T>(s: seq<T>, cmp: (T, T) -> int)
    ensures multiset(Sort(s, cmp)) == multiset(s)
    decreases |s|
  {
    if s != [] {
      SortPermutes(s[..|s| - 1], cmp);
      InsertPermutes(Sort(s[..|s| - 1], cmp), s[|s| - 1], cmp);
      assert s == s[..|s| - 1] + [s[|s| - 1]];
    }
  }

  lemma ConsistentFacts<T(!new)>(cmp: (T, T) -> int, a: T, b: T, c: T)
    requires Consistent(cmp)
    ensures cmp(a, a) == 0
    ensures cmp(a, b) > 0 ==> cmp(b, a) < 0
    ensures cmp(a, b) <= 0 && cmp(b, a) <= 0 ==> cmp(a, b) == 0
    ensures cmp(a, b) == 0 && cmp(b, c) == 0 ==> cmp(a, c) == 0
    ensures cmp(a, b) > 0 && cmp(b, c) == 0 ==> cmp(a, c) > 0
    ensures cmp(a, b) <= 0 && cmp(b, c) <= 0 ==> cmp(a, c) <= 0
  {
    assert ConsistentAt(cmp, a, a, a);
    assert ConsistentAt(cmp, a, b, c) && ConsistentAt(cmp, a, c, b);
    assert ConsistentAt(cmp, b, a, c) && ConsistentAt(cmp, b, c, a);
    assert ConsistentAt(cmp, c, a, b) && ConsistentAt(cmp, c, b, a);
  }

  lemma {:induction false} TiesAppend<T>(a: seq<T>, b: seq<T>, y: T, cmp: (T, T) -> int)
    ensures Ties(a + b, y, cmp) == Ties(a, y, cmp) + Ties(b, y, cmp)
    decreases |b|
  {
    if b == [] {
      assert a + b == a;
    } else {
      var ab := a + b;
      assert ab[..|ab| - 1] == a + b[..|b| - 1];
      assert ab[|ab| - 1] == b[|b| - 1];
      TiesAppend(a, b[..|b| - 1], y, cmp);
    }
  }

  lemma {:induction false} TiesMember<T>(s: seq<T>, y: T, z: T, cmp: (T, T) -> int)
    ensures z in Ties(s, y, cmp) <==> z in s && cmp(z, y) == 0
    decreases |s|
  {
    if s != [] {
      assert s == s[..|s| - 1] + [s[|s| - 1]];
      TiesMember(s[..|s| - 1], y, z, cmp);
    }
  }

  lemma TiesCons<T>(x: T, s: seq<T>, y: T, cmp: (T, T) -> int)
    ensures Ties([x] + s, y, cmp) == (if cmp(x, y) == 0 then [x] else []) + Ties(s, y, cmp)
  {
    TiesAppend([x], s, y, cmp);
    assert [x][..0] == [];
  }

  lemma TiesSingle<T>(x: T, y: T, cmp: (T, T) -> int)
    ensures Ties([x], y, cmp) == if cmp(x, y) == 0 then [x] else []
  {
    assert [x][..0] == [];
  }

  /** Inserting into a sorted sequence keeps it sorted. */
  lemma {:induction false} InsertSorted<T(!new)>(s: seq<T>, x: T, cmp: (T, T) -> int)
    requires Consistent(cmp) && Sorted(s, cmp)
    ensures Sorted(Insert(s, x, cmp), cmp)
    decreases |s|
  {
    if s == [] {
    } else if cmp(s[|s| - 1], x) > 0 {
      var init, last := s[..|s| - 1], s[|s| - 1];
      InsertSorted(init, x, cmp);
      var t := Insert(init, x, cmp);
      InsertPermutes(init, x, cmp);
      var r := t + [last];
      assert r == Insert(s, x, cmp);
      ConsistentFacts(cmp, last, x, x);
      forall i | 0 <= i < |t|
        ensures cmp(t[i], last) <= 0
      {
        assert t[i] in multiset(t);
        assert t[i] in multiset(init) + multiset{x};
        if t[i] != x {
          assert t[i] in init;
          var k :| 0 <= k < |init| && init[k] == t[i];
          assert s[k] == t[i];
        }
      }
    } else {
      var r := s + [x];
      assert r == Insert(s, x, cmp);
      forall i, j | 0 <= i < j < |r|
        ensures cmp(r[i], r[j]) <= 0
      {
        if j == |s| && i < |s| - 1 {
          ConsistentFacts(cmp, s[i], s[|s| - 1], x);
        }
      }
    }
  }

  lemma {:induction false} SortSorted<T(!new)>(s: seq<T>, cmp: (T, T) -> int)
    requires Consistent(cmp)
    ensures Sorted(Sort(s, cmp), cmp)
    decreases |s|
  {
    if s != [] {
      SortSorted(s[..|s| - 1], cmp);
      InsertSorted(Sort(s[..|s| - 1], cmp), s[|s| - 1], cmp);
    }
  }

  /** Insertion places `x` after every element tied with it, so the elements
      tied with any `y` keep their order and `x` joins them last. */
  lemma {:induction false} InsertTies<T(!new)>(s: seq<T>, x: T, y: T, cmp: (T, T) -> int)
    requires Consistent(cmp)
    ensures Ties(Insert(s, x, cmp), y, cmp) == Ties(s, y, cmp) + Ties([x], y, cmp)
    decreases |s|
  {
    if s == [] {
      assert Insert(s, x, cmp) == [] + [x];
      TiesAppend([], [x], y, cmp);
    } else if cmp(s[|s| - 1], x) > 0 {
      var init, last := s[..|s| - 1], s[|s| - 1];
      assert s == init + [last];
      var t := Insert(init, x, cmp);
      assert Insert(s, x, cmp) == t + [last];
      InsertTies(init, x, y, cmp);
      TiesAppend(t, [last], y, cmp);
      TiesAppend(init, [last], y, cmp);
      TiesSingle(x, y, cmp);
      TiesSingle(last, y, cmp);
      ConsistentFacts(cmp, last, x, y);
    } else {
      assert Insert(s, x, cmp) == s + [x];
      TiesAppend(s, [x], y, cmp);
    }
  }

  /** The sort is stable: for every `y`, the elements tied with `y` appear in
      the output in the order they had in the input. */
  lemma {:induction false} SortStable<T(!new)>(s: seq<T>, y: T, cmp: (T, T) -> int)
    requires Consistent(cmp)
    ensures Ties(Sort(s, cmp), y, cmp) == Ties(s, y, cmp)
    decreases |s|
  {
    if s != [] {
      var init, last := s[..|s| - 1], s[|s| - 1];
      SortStable(init, y, cmp);
      InsertTies(Sort(init, cmp), last, y, cmp);
      assert s == init + [last];
      TiesAppend(init, [last], y, cmp);
    }
  }

  /** The first element of a nonempty sequence is tied with itself. */
  lemma TiesOfHead<T(!new)>(r: seq<T>, cmp: (T, T) -> int)
    requires Consistent(cmp) && r != []
    ensures Ties(r, r[0], cmp) != [] && Ties(r, r[0], cmp)[0] == r[0]
  {
    ConsistentFacts(cmp, r[0], r[0], r[0]);
    assert r == [r[0]] + r[1..];
    TiesCons(r[0], r[1..], r[0], cmp);
  }

  /** If `a` heads `r1` and its tie class is the same in `r2`, then `a`
      occurs in the sorted `r2`, so the head of `r2` does not come after it. */
  lemma HeadNotAfter<T(!new)>(r1: seq<T>, r2: seq<T>, cmp: (T, T) -> int)
    requires Consistent(cmp) && Sorted(r2, cmp) && r1 != [] && r2 != []
    requires Ties(r1, r1[0], cmp) == Ties(r2, r1[0], cmp)
    ensures cmp(r2[0], r1[0]) <= 0
  {
    var a := r1[0];
    TiesOfHead(r1, cmp);
    TiesMember(r2, a, a, cmp);
    var k :| 0 <= k < |r2| && r2[k] == a;
    ConsistentFacts(cmp, a, a, a);
    assert k == 0 || cmp(r2[0], r2[k]) <= 0;
  }

  lemma TailsTie<T>(r1: seq<T>, r2: seq<T>, y: T, cmp: (T, T) -> int)
    requires r1 != [] && r2 != [] && r1[0] == r2[0]
    requires Ties(r1, y, cmp) == Ties(r2, y, cmp)
    ensures Ties(r1[1..], y, cmp) == Ties(r2[1..], y, cmp)
  {
    var h, t1, t2 := r1[0], r1[1..], r2[1..];
    assert [h] + t1 == r1 && [h] + t2 == r2;
    TiesCons(h, t1, y, cmp);
    TiesCons(h, t2, y, cmp);
    var n := if cmp(h, y) == 0 then 1 else 0;
    assert Ties(t1, y, cmp) == Ties(r1, y, cmp)[n..];
    assert Ties(t2, y, cmp) == Ties(r2, y, cmp)[n..];
  }

  /** Two sorted sequences that agree on the order of every class of tied
      elements are equal. */
  lemma {:induction false} SortedTiesUnique<T(!new)>(r1: seq<T>, r2: seq<T>, cmp: (T, T) -> int)
    requires Consistent(cmp) && Sorted(r1, cmp) && Sorted(r2, cmp)
    requires forall y :: Ties(r1, y, cmp) == Ties(r2, y, cmp)
    ensures r1 == r2
    decreases |r1| + |r2|
  {
    if r1 == [] && r2 == [] {
    } else if r1 == [] {
      TiesOfHead(r2, cmp);
      assert false;
    } else if r2 == [] {
      TiesOfHead(r1, cmp);
      assert false;
    } else {
      var a, b := r1[0], r2[0];
      HeadNotAfter(r1, r2, cmp);
      HeadNotAfter(r2, r1, cmp);
      ConsistentFacts(cmp, a, b, a);
      ConsistentFacts(cmp, b, a, b);
      // a and b are tied, and each heads the class of a in its sequence
      TiesOfHead(r1, cmp);
      assert r2 == [b] + r2[1..];
      TiesCons(b, r2[1..], a, cmp);
      assert Ties(r1, a, cmp) == Ties(r2, a, cmp);
      forall y
        ensures Ties(r1[1..], y, cmp) == Ties(r2[1..], y, cmp)
      {
        TailsTie(r1, r2, y, cmp);
      }
      SortedTiesUnique(r1[1..], r2[1..], cmp);
      assert r1 == [a] + r1[1..];
    }
  }

  /** Any sorted arrangement of `s` that keeps tied elements in their input
      order is Sort(s): Sort stands for every stable sorting algorithm. */
  lemma SortedStableIsUnique<T(!new)>(s: seq<T>, r: seq<T>, cmp: (T, T) -> int)
    requires Consistent(cmp) && Sorted(r, cmp)
    requires forall y :: Ties(r, y, cmp) == Ties(s, y, cmp)
    ensures r == Sort(s, cmp)
  {
    SortSorted(s, cmp);
    forall y
      ensures Ties(r, y, cmp) == Ties(Sort(s, cmp), y, cmp)
    {
      SortStable(s, y, cmp);
    }
    SortedTiesUnique(r, Sort(s, cmp), cmp);
  }

  /** Where Insert puts `x`: after `p[..j]` when every element from `j` on
      compares greater than `x` and the one before `j` (if any) does not. */
  lemma {:induction false} InsertAt<T>(p: seq<T>, j: nat, x: T, cmp: (T, T) -> int)
    requires j <= |p| && (j == 0 || cmp(p[j - 1], x) <= 0)
    requires forall k :: j <= k < |p| ==> cmp(p[k], x) > 0
    ensures Insert(p, x, cmp) == p[..j] + [x] + p[j..]
    decreases |p|
  {
    if |p| == j {
      assert p[..j] == p && p[j..] == [];
    } else {
      var init := p[..|p| - 1];
      InsertAt(init, j, x, cmp);
      assert init[..j] == p[..j];
      assert init[j..] + [p[|p| - 1]] == p[j..];
    }
  }

  /** Moves `a[i]` left past the elements of the prefix `a[..i]` that compare
      greater than it. */
  method InsertInPlace<T(==)>(a: array<T>, i: nat, cmp: (T, T) -> int)
    requires i < a.Length
    modifies a
    ensures a[..i + 1] == Insert(old(a[..i]), old(a[i]), cmp)
    ensures a[i + 1..] == old(a[i + 1..])
  {
    var x := a[i];
    ghost var p := a[..i];
    var j := i;
    while j > 0 && cmp(a[j - 1], x) > 0
      invariant 0 <= j <= i
      invariant forall k :: 0 <= k < j ==> a[k] == p[k]
      invariant forall k :: j < k <= i ==> a[k] == p[k - 1]
      invariant forall k :: j <= k < i ==> cmp(p[k], x) > 0
      invariant a[i + 1..] == old(a[i + 1..])
    {
      a[j] := a[j - 1];
      j := j - 1;
    }
    a[j] := x;
    InsertAt(p, j, x, cmp);
    assert a[..i + 1] == p[..j] + [x] + p[j..];
  }

  /** The engine's in-place sort of the array `a` under `cmp`. */
  method SortInPlace<T(==)>(a: array<T>, cmp: (T, T) -> int)
    modifies a
    ensures a[..] == Sort(old(a[..]), cmp)
  {
    ghost var input := a[..];
    var i := 0;
    while i < a.Length
      invariant 0 <= i <= a.Length
      invariant a[..i] == Sort(input[..i], cmp)
      invariant a[i..] == input[i..]
    {
      InsertInPlace(a, i, cmp);
      assert input[..i + 1][..i] == input[..i];
      i := i + 1;
    }
    assert a[..] == a[..a.Length] && input == input[..a.Length];
  }
}
