/** sort.SliceStable: a stable sort of a slice by a `less` function, modelled
    as insertion sort. The specification is the function `Sort` on sequences;
    the method `SliceStable` sorts an array in place and is proved to produce
    exactly `Sort` of the array's old contents. */
module StableSort {

  /** What sort.Slice requires of `less`: a strict weak ordering. */
  ghost predicate StrictWeakOrder<T(!new)>(less: (T, T) -> bool) {
    && (forall a :: !less(a, a))
    && (forall a, b, c :: less(a, b) && less(b, c) ==> less(a, c))
    && (forall a, b, c :: !less(a, b) && !less(b, c) ==> !less(a, c))
  }

  /** No element is less than itself. */
  ghost predicate Irreflexive<T(!new)>(less: (T, T) -> bool) {
    forall a :: !less(a, a)
  }

  /** Neither element is less than the other: a tie. */
  predicate Tied<T>(a: T, b: T, less: (T, T) -> bool) {
    !less(a, b) && !less(b, a)
  }

  /** Insert `x` into `s` after every element it is not less than. */
  function Insert<T>(s: seq<T>, x: T, less: (T, T) -> bool): (r: seq<T>)
    ensures |r| == |s| + 1
  {
    if s == [] || !less(x, s[|s| - 1]) then
      s + [x]
    else
      var init := s[..|s| - 1];
      assert s == init + [s[|s| - 1]];
      Insert(init, x, less) + [s[|s| - 1]]
  }

  /** The contents of the slice after sort.SliceStable. */
  function Sort<T>(s: seq<T>, less: (T, T) -> bool): (r: seq<T>)
    ensures |r| == |s|
  {
    if s == [] then
      []
    else
      assert s == s[..|s| - 1] + [s[|s| - 1]];
      Insert(Sort(s[..|s| - 1], less), s[|s| - 1], less)
  }

  lemma {:induction false} InsertPermutes<T>(s: seq<T>, x: T, less: (T, T) -> bool)
    ensures multiset(Insert(s, x, less)) == multiset(s) + multiset{x}
    decreases |s|
  {
    if s != [] && less(x, s[|s| - 1]) {
      var init := s[..|s| - 1];
      InsertPermutes(init, x, less);
      assert s == init + [s[|s| - 1]];
    }
  }

  /** The sort neither drops nor duplicates an element. */
  lemma {:induction false} SortPermutes<T>(s: seq<T>, less: (T, T) -> bool)
    ensures multiset(Sort(s, less)) == multiset(s)
    decreases |s|
  {
    if s != [] {
      var init := s[..|s| - 1];
      SortPermutes(init, less);
      InsertPermutes(Sort(init, less), s[|s| - 1], less);
      assert s == init + [s[|s| - 1]];
    }
  }

  /** No element is less than an earlier one. */
  predicate Sorted<T>(s: seq<T>, less: (T, T) -> bool) {
    forall i, j :: 0 <= i < j < |s| ==> !less(s[j], s[i])
  }

  /** The elements of `s` tied with `y`, in the order of `s`. */
  function Ties<T>(s: seq<T>, less: (T, T) -> bool, y: T): (t: seq<T>)
    ensures |t| <= |s|
  {
    if s == [] then []
    else Ties(s[..|s| - 1], less, y) + (if Tied(s[|s| - 1], y, less) then [s[|s| - 1]] else [])
  }

  lemma TiesSnoc<T>(s: seq<T>, e: T, less: (T, T) -> bool, y: T)
    ensures Ties(s + [e], less, y) == Ties(s, less, y) + (if Tied(e, y, less) then [e] else [])
  {
    assert (s + [e])[..|s|] == s;
  }

  lemma {:induction false} InsertSorted<T(!new)>(s: seq<T>, x: T, less: (T, T) -> bool)
    requires StrictWeakOrder(less)
    requires Sorted(s, less)
    ensures Sorted(Insert(s, x, less), less)
    decreases |s|
  {
    if s != [] && less(x, s[|s| - 1]) {
      var init, last := s[..|s| - 1], s[|s| - 1];
      var r0 := Insert(init, x, less);
      InsertSorted(init, x, less);
      InsertPermutes(init, x, less);
      assert Insert(s, x, less) == r0 + [last];
      forall i | 0 <= i < |r0|
        ensures !less(last, r0[i])
      {
        assert r0[i] in multiset(init) + multiset{x};
        if r0[i] != x {
          assert r0[i] in init;
          var m :| 0 <= m < |init| && init[m] == r0[i];
          assert s[m] == r0[i];
        }
      }
    }
  }

  /** The result of the sort is ordered by `less`. */
  lemma {:induction false} SortSorted<T(!new)>(s: seq<T>, less: (T, T) -> bool)
    requires StrictWeakOrder(less)
    ensures Sorted(Sort(s, less), less)
    decreases |s|
  {
    if s != [] {
      SortSorted(s[..|s| - 1], less);
      InsertSorted(Sort(s[..|s| - 1], less), s[|s| - 1], less);
    }
  }

  lemma {:induction false} InsertTies<T(!new)>(s: seq<T>, x: T, less: (T, T) -> bool, y: T)
    requires StrictWeakOrder(less)
    ensures Ties(Insert(s, x, less), less, y)
            == Ties(s, less, y) + (if Tied(x, y, less) then [x] else [])
    decreases |s|
  {
    if s == [] || !less(x, s[|s| - 1]) {
      TiesSnoc(s, x, less, y);
    } else {
      var init, last := s[..|s| - 1], s[|s| - 1];
      var tx := if Tied(x, y, less) then [x] else [];
      var tl := if Tied(last, y, less) then [last] else [];
      var r0 := Insert(init, x, less);
      TiesSnoc(r0, last, less, y);
      InsertTies(init, x, less, y);
      assert s == init + [last];
      TiesSnoc(init, last, less, y);
      assert tx == [] || tl == [];
      assert tx + tl == tl + tx;
    }
  }

  /** Stability: the elements tied with any `y` keep their relative order. */
  lemma {:induction false} SortKeepsTies<T(!new)>(s: seq<T>, less: (T, T) -> bool, y: T)
    requires StrictWeakOrder(less)
    ensures Ties(Sort(s, less), less, y) == Ties(s, less, y)
    decreases |s|
  {
    if s != [] {
      SortKeepsTies(s[..|s| - 1], less, y);
      InsertTies(Sort(s[..|s| - 1], less), s[|s| - 1], less, y);
    }
  }

  /** A sequence already in order is left exactly as it is. */
  lemma {:induction false} SortedIsFixpoint<T>(s: seq<T>, less: (T, T) -> bool)
    requires Sorted(s, less)
    ensures Sort(s, less) == s
    decreases |s|
  {
    if s != [] {
      var init, last := s[..|s| - 1], s[|s| - 1];
      SortedIsFixpoint(init, less);
      if init != [] {
        assert !less(s[|s| - 1], s[|s| - 2]);
      }
      assert s == init + [last];
    }
  }

  /** In a sorted sequence no element is less than the last one. */
  lemma LastNotLess<T(!new)>(s: seq<T>, last: T, e: T, less: (T, T) -> bool)
    requires Irreflexive(less)
    requires Sorted(s + [last], less) && e in multiset(s + [last])
    ensures !less(last, e)
  {
    var t := s + [last];
    var k :| 0 <= k < |t| && t[k] == e;
    if k < |s| {
      assert !less(t[|s|], t[k]);
    }
  }

  /** Equal tie subsequences stay equal once the same element is dropped from the end. */
  lemma TiesDropLast<T>(a: seq<T>, b: seq<T>, x: T, less: (T, T) -> bool, y: T)
    requires Ties(a + [x], less, y) == Ties(b + [x], less, y)
    ensures Ties(a, less, y) == Ties(b, less, y)
  {
    TiesSnoc(a, x, less, y);
    TiesSnoc(b, x, less, y);
    var e := if Tied(x, y, less) then [x] else [];
    var ta, tb := Ties(a, less, y), Ties(b, less, y);
    assert ta + e == tb + e;
    assert |ta| == |tb|;
    assert ta == (ta + e)[..|ta|] && tb == (tb + e)[..|tb|];
  }

  /** If the last elements are both tied with the first one's tie class,
      equal tie subsequences make them equal. */
  lemma TiedLastsEqual<T>(a: seq<T>, b: seq<T>, x: T, z: T, less: (T, T) -> bool)
    requires Tied(x, x, less) && Tied(z, x, less)
    requires Ties(a + [x], less, x) == Ties(b + [z], less, x)
    ensures x == z
  {
    TiesSnoc(a, x, less, x);
    TiesSnoc(b, z, less, x);
    var t := Ties(a + [x], less, x);
    assert t[|t| - 1] == x;
  }

  /** Dropping the same last element from two permutations leaves permutations. */
  lemma PermDropLast<T>(a: seq<T>, b: seq<T>, x: T)
    requires multiset(a + [x]) == multiset(b + [x])
    ensures multiset(a) == multiset(b)
  {
    assert multiset(a) == multiset(a + [x]) - multiset{x};
    assert multiset(b) == multiset(b + [x]) - multiset{x};
  }

  lemma AllTiesDropLast<T(!new)>(a: seq<T>, b: seq<T>, x: T, less: (T, T) -> bool)
    requires forall y :: Ties(a + [x], less, y) == Ties(b + [x], less, y)
    ensures forall y :: Ties(a, less, y) == Ties(b, less, y)
  {
    forall y
      ensures Ties(a, less, y) == Ties(b, less, y)
    {
      TiesDropLast(a, b, x, less, y);
    }
  }

  /** Two sorted arrangements of the same elements with the same tie
      subsequences end in the same element. */
  lemma SameLast<T(!new)>(a: seq<T>, b: seq<T>, x: T, z: T, less: (T, T) -> bool)
    requires Irreflexive(less)
    requires multiset(a + [x]) == multiset(b + [z])
    requires Sorted(a + [x], less) && Sorted(b + [z], less)
    requires Ties(a + [x], less, x) == Ties(b + [z], less, x)
    ensures x == z
  {
    assert z in multiset(b + [z]) && x in multiset(a + [x]);
    LastNotLess(a, x, z, less);
    LastNotLess(b, z, x, less);
    TiedLastsEqual(a, b, x, z, less);
  }

  lemma SortedPrefix<T>(s: seq<T>, k: nat, less: (T, T) -> bool)
    requires k <= |s| && Sorted(s, less)
    ensures Sorted(s[..k], less)
  {
  }

  /** The hypotheses of `SortedUnique` survive dropping the last elements,
      which are equal. */
  lemma UniqueStep<T(!new)>(a: seq<T>, b: seq<T>, a': seq<T>, b': seq<T>, less: (T, T) -> bool)
    requires Irreflexive(less)
    requires a != [] && |a| == |b| && a' == a[..|a| - 1] && b' == b[..|b| - 1]
    requires multiset(a) == multiset(b)
    requires Sorted(a, less) && Sorted(b, less)
    requires forall y :: Ties(a, less, y) == Ties(b, less, y)
    ensures a[|a| - 1] == b[|b| - 1]
    ensures multiset(a') == multiset(b')
    ensures Sorted(a', less) && Sorted(b', less)
    ensures forall y :: Ties(a', less, y) == Ties(b', less, y)
  {
    var n := |a|;
    var x := a[n - 1];
    assert a == a' + [x] && b == b' + [b[n - 1]];
    SameLast(a', b', x, b[n - 1], less);
    PermDropLast(a', b', x);
    SortedPrefix(a, n - 1, less);
    SortedPrefix(b, n - 1, less);
    AllTiesDropLast(a', b', x, less);
  }

  /** Two sorted arrangements of the same elements that keep every tie class
      in the same order are equal. */
  lemma {:induction false} SortedUnique<T(!new)>(a: seq<T>, b: seq<T>, less: (T, T) -> bool)
    requires Irreflexive(less)
    requires multiset(a) == multiset(b)
    requires Sorted(a, less) && Sorted(b, less)
    requires forall y :: Ties(a, less, y) == Ties(b, less, y)
    ensures a == b
    decreases |a|
  {
    assert |a| == |multiset(a)| == |multiset(b)| == |b|;
    if a != [] {
      var n := |a|;
      var a', b' := a[..n - 1], b[..n - 1];
      UniqueStep(a, b, a', b', less);
      SortedUnique(a', b', less);
      assert a == a' + [a[n - 1]] && b == b' + [b[n - 1]];
    }
  }

  /** Any sorted permutation of `s` that keeps the order of each tie class,
      which is what a stable sort promises, is `Sort(s, less)`: the final
      order does not depend on the algorithm. */
  lemma StableResultIsSort<T(!new)>(s: seq<T>, r: seq<T>, less: (T, T) -> bool)
    requires StrictWeakOrder(less)
    requires multiset(r) == multiset(s)
    requires Sorted(r, less)
    requires forall y :: Ties(r, less, y) == Ties(s, less, y)
    ensures r == Sort(s, less)
  {
    SortPermutes(s, less);
    SortSorted(s, less);
    forall y
      ensures Ties(Sort(s, less), less, y) == Ties(s, less, y)
    {
      SortKeepsTies(s, less, y);
    }
    SortedUnique(r, Sort(s, less), less);
  }

  /** Sorting twice with the same `less` changes nothing. */
  lemma Idempotent<T(!new)>(s: seq<T>, less: (T, T) -> bool)
    requires StrictWeakOrder(less)
    ensures Sort(Sort(s, less), less) == Sort(s, less)
  {
    SortSorted(s, less);
    SortedIsFixpoint(Sort(s, less), less);
  }

  /** Moving `x` one place left past an element it is less than. */
  lemma InsertShift<T>(s: seq<T>, x: T, less: (T, T) -> bool, j: nat)
    requires 0 < j <= |s| && less(x, s[j - 1])
    ensures Insert(s[..j], x, less) + s[j..] == Insert(s[..j - 1], x, less) + s[j - 1..]
  {
    assert s[..j][..j - 1] == s[..j - 1] && s[..j][j - 1] == s[j - 1];
    assert s[j - 1..] == [s[j - 1]] + s[j..];
  }

  /** Where `x` is not less than its left neighbour, it stays. */
  lemma InsertStop<T>(s: seq<T>, x: T, less: (T, T) -> bool, j: nat)
    requires j <= |s| && (j == 0 || !less(x, s[j - 1]))
    ensures Insert(s[..j], x, less) == s[..j] + [x]
  {
  }

  /** Swapping `x` with its left neighbour moves the gap one place left. */
  lemma SwapBack<T>(done: seq<T>, x: T, tail: seq<T>, j: nat)
    requires 0 < j <= |done|
    ensures (done[..j] + [x] + done[j..] + tail)[j - 1 := x][j := done[j - 1]]
         == done[..j - 1] + [x] + done[j - 1..] + tail
  {
    var l := (done[..j] + [x] + done[j..] + tail)[j - 1 := x][j := done[j - 1]];
    var r := done[..j - 1] + [x] + done[j - 1..] + tail;
    assert |l| == |r|;
    forall k | 0 <= k < |l| ensures l[k] == r[k] {
      if k < j - 1 {
      } else if k == j - 1 || k == j {
      } else if k <= |done| {
        assert l[k] == done[k - 1];
      } else {
        assert l[k] == tail[k - |done| - 1];
      }
    }
  }

  /** One step of insertion sort: swaps `a[i]` leftwards past the elements of
      `a[..i]` it is less than. */
  method InsertLast<T>(a: array<T>, i: nat, less: (T, T) -> bool)
    requires i < a.Length
    modifies a
    ensures a[..] == Insert(old(a[..i]), old(a[i]), less) + old(a[i + 1..])
  {
    ghost var done, x, tail := a[..i], a[i], a[i + 1..];
    assert a[..] == done + [x] + tail;
    var j := i;
    assert done[..j] == done && done[j..] == [];
    while j > 0 && less(a[j], a[j - 1])
      invariant 0 <= j <= i
      invariant a[..] == done[..j] + [x] + done[j..] + tail
      invariant Insert(done, x, less) == Insert(done[..j], x, less) + done[j..]
    {
      assert a[j] == x && a[j - 1] == done[j - 1];
      InsertShift(done, x, less, j);
      ghost var before := a[..];
      a[j - 1], a[j] := a[j], a[j - 1];
      assert a[..] == before[j - 1 := x][j := done[j - 1]];
      SwapBack(done, x, tail, j);
      j := j - 1;
    }
    assert a[j] == x;
    InsertStop(done, x, less, j);
  }

  /** The pieces of `p + s[i..]` around position `i`. */
  lemma SplitAt<T>(w: seq<T>, p: seq<T>, s: seq<T>, i: nat)
    requires i < |s| && |p| == i && w == p + s[i..]
    ensures w[..i] == p && w[i] == s[i] && w[i + 1..] == s[i + 1..]
  {
  }

  /** Sorting one more element of a prefix inserts it into the sorted prefix. */
  lemma SortPrefixStep<T>(s: seq<T>, i: nat, less: (T, T) -> bool)
    requires i < |s|
    ensures Sort(s[..i + 1], less) == Insert(Sort(s[..i], less), s[i], less)
  {
    assert s[..i + 1][..i] == s[..i];
  }

  /** sort.SliceStable on an array: insertion sort by adjacent swaps. */
  method SliceStable<T>(a: array<T>, less: (T, T) -> bool)
    modifies a
    ensures a[..] == Sort(old(a[..]), less)
  {
    ghost var s := a[..];
    var i := 0;
    assert s[..0] == [] && s[0..] == s;
    while i < a.Length
      invariant 0 <= i <= a.Length
      invariant a[..] == Sort(s[..i], less) + s[i..]
    {
      SplitAt(a[..], Sort(s[..i], less), s, i);
      InsertLast(a, i, less);
      SortPrefixStep(s, i, less);
      i := i + 1;
    }
    assert s[..a.Length] == s;
  }

  /** The elements of `s` in the opposite order. */
  function Reverse<T>(s: seq<T>): (r: seq<T>)
    ensures |r| == |s|
    ensures forall i :: 0 <= i < |s| ==> r[i] == s[|s| - 1 - i]
  {
    if s == [] then [] else [s[|s| - 1]] + Reverse(s[..|s| - 1])
  }

  lemma {:induction false} ReversePermutes<T>(s: seq<T>)
    ensures multiset(Reverse(s)) == multiset(s)
    decreases |s|
  {
    if s != [] {
      var init, last := s[..|s| - 1], s[|s| - 1];
      ReversePermutes(init);
      assert Reverse(s) == [last] + Reverse(init);
      assert multiset(Reverse(s)) == multiset{last} + multiset(Reverse(init));
      assert s == init + [last];
    }
  }

  lemma ReverseAppend<T>(a: seq<T>, b: seq<T>)
    ensures Reverse(a + b) == Reverse(b) + Reverse(a)
  {
  }

  /** Reversing a sequence sorted by `less` sorts it by the flipped comparator. */
  lemma SortedReverse<T(!new)>(s: seq<T>, less: (T, T) -> bool, flipped: (T, T) -> bool)
    requires forall a, b :: flipped(a, b) == less(b, a)
    requires Sorted(s, less)
    ensures Sorted(Reverse(s), flipped)
  {
    var r := Reverse(s);
    forall i, j | 0 <= i < j < |r|
      ensures !flipped(r[j], r[i])
    {
      assert !less(s[|s| - 1 - i], s[|s| - 1 - j]);
    }
  }

  /** Comparators with the same ties pick out the same tie subsequences. */
  lemma {:induction false} TiesSameTied<T(!new)>(s: seq<T>, less: (T, T) -> bool, other: (T, T) -> bool, y: T)
    requires forall a, b :: Tied(a, b, less) == Tied(a, b, other)
    ensures Ties(s, less, y) == Ties(s, other, y)
    decreases |s|
  {
    if s != [] {
      TiesSameTied(s[..|s| - 1], less, other, y);
    }
  }

  lemma {:induction false} TiesCons<T>(e: T, s: seq<T>, less: (T, T) -> bool, y: T)
    ensures Ties([e] + s, less, y) == (if Tied(e, y, less) then [e] else []) + Ties(s, less, y)
    decreases |s|
  {
    if s == [] {
      assert [e] + s == [] + [e];
      TiesSnoc([], e, less, y);
    } else {
      var init, last := s[..|s| - 1], s[|s| - 1];
      assert [e] + s == ([e] + init) + [last];
      TiesSnoc([e] + init, last, less, y);
      TiesCons(e, init, less, y);
      assert s == init + [last];
      TiesSnoc(init, last, less, y);
    }
  }

  /** The ties of the reversed sequence are the reversed ties. */
  lemma {:induction false} TiesReverse<T>(s: seq<T>, less: (T, T) -> bool, y: T)
    ensures Ties(Reverse(s), less, y) == Reverse(Ties(s, less, y))
    decreases |s|
  {
    if s != [] {
      var init, last := s[..|s| - 1], s[|s| - 1];
      var e := if Tied(last, y, less) then [last] else [];
      TiesReverse(init, less, y);
      TiesCons(last, Reverse(init), less, y);
      ReverseAppend(Ties(init, less, y), e);
      assert Reverse(e) == e;
    }
  }

  lemma {:induction false} TiesNone<T>(s: seq<T>, less: (T, T) -> bool, y: T)
    requires forall i :: 0 <= i < |s| ==> !Tied(s[i], y, less)
    ensures Ties(s, less, y) == []
    decreases |s|
  {
    if s != [] {
      TiesNone(s[..|s| - 1], less, y);
    }
  }

  /** When no two elements of `s` are both tied with `y`, at most one is. */
  lemma {:induction false} TiesAtMostOne<T>(s: seq<T>, less: (T, T) -> bool, y: T)
    requires forall i, j :: 0 <= i < j < |s| ==> !(Tied(s[i], y, less) && Tied(s[j], y, less))
    ensures |Ties(s, less, y)| <= 1
    decreases |s|
  {
    if s != [] {
      var init, last := s[..|s| - 1], s[|s| - 1];
      if Tied(last, y, less) {
        forall i | 0 <= i < |init|
          ensures !Tied(init[i], y, less)
        {
          assert init[i] == s[i];
        }
        TiesNone(init, less, y);
      } else {
        TiesAtMostOne(init, less, y);
      }
    }
  }

  /** Reversing the sort keeps each tie class, when each class of `s` has at
      most one element. */
  lemma ReverseKeepsTies<T(!new)>(s: seq<T>, less: (T, T) -> bool, flipped: (T, T) -> bool, y: T)
    requires StrictWeakOrder(less)
    requires forall a, b :: flipped(a, b) == less(b, a)
    requires forall i, j :: 0 <= i < j < |s| ==> !(Tied(s[i], y, less) && Tied(s[j], y, less))
    ensures Ties(Reverse(Sort(s, less)), flipped, y) == Ties(s, flipped, y)
  {
    var t := Sort(s, less);
    assert forall a, b :: Tied(a, b, flipped) == Tied(a, b, less);
    TiesSameTied(Reverse(t), flipped, less, y);
    TiesReverse(t, less, y);
    SortKeepsTies(s, less, y);
    TiesAtMostOne(s, less, y);
    assert Reverse(Ties(s, less, y)) == Ties(s, less, y);
    TiesSameTied(s, less, flipped, y);
  }

  /** When no two elements of `s` tie, sorting by the flipped comparator
      gives the mirror image of sorting by `less`. */
  lemma SortFlippedIsReverse<T(!new)>(s: seq<T>, less: (T, T) -> bool, flipped: (T, T) -> bool)
    requires StrictWeakOrder(less) && StrictWeakOrder(flipped)
    requires forall a, b :: flipped(a, b) == less(b, a)
    requires forall y, i, j :: 0 <= i < j < |s| ==> !(Tied(s[i], y, less) && Tied(s[j], y, less))
    ensures Sort(s, flipped) == Reverse(Sort(s, less))
  {
    var t := Sort(s, less);
    SortPermutes(s, less);
    ReversePermutes(t);
    SortSorted(s, less);
    SortedReverse(t, less, flipped);
    forall y
      ensures Ties(Reverse(t), flipped, y) == Ties(s, flipped, y)
    {
      ReverseKeepsTies(s, less, flipped, y);
    }
    StableResultIsSort(s, Reverse(t), flipped);
  }
}
