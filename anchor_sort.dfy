/**
 * `text_with_coordinates.sort(key=lambda coord: (coord[0], coord[1]))`:
 * a stable sort of the fragments by their anchor (y, x).
 *
 * The specification is a stable insertion sort, `SortByAnchor`. Python's
 * list.sort is stable too, and `StableSortUnique` shows that a sorted
 * sequence that keeps the detection order of every anchor key is exactly
 * `SortByAnchor`, so any stable sort agrees with it. `SortInPlace` works on
 * an array in place, as the source's `sort` works on its list.
 */
module AnchorSort {
  import opened Fragments

  /**
   * Inserts `f` into `s` after every element whose key is at most f's key:
   * an element equal in key to `f` but already present stays before it.
   */
  function Insert(s: seq<Fragment>, f: Fragment): (r: seq<Fragment>)
    ensures |r| == |s| + 1
    decreases |s|
  {
    if s == [] then [f]
    else if KeyLe(s[0], f) then [s[0]] + Insert(s[1..], f)
    else [f] + s
  }

  /** Insertion sort, taking the elements in detection order. */
  function SortByAnchor(s: seq<Fragment>): (r: seq<Fragment>)
    ensures |r| == |s|
    decreases |s|
  {
    if s == [] then []
    else Insert(SortByAnchor(s[..|s| - 1]), s[|s| - 1])
  }

  /** Insert adds `f` and loses nothing. */
  lemma {:induction false} InsertPermutes(s: seq<Fragment>, f: Fragment)
    ensures multiset(Insert(s, f)) == multiset(s) + multiset{f}
    decreases |s|
  {
    if s != [] && KeyLe(s[0], f) {
      InsertPermutes(s[1..], f);
      assert s == [s[0]] + s[1..];
    }
  }

  /** Insert into a sorted sequence keeps it sorted. */
  lemma {:induction false} InsertSorted(s: seq<Fragment>, f: Fragment)
    requires Sorted(s)
    ensures Sorted(Insert(s, f))
    decreases |s|
  {
    if s != [] && KeyLe(s[0], f) {
      SortedTail(s);
      InsertSorted(s[1..], f);
      HeadBelowInsert(s, f);
      ConsSorted(s[0], Insert(s[1..], f));
    } else if s != [] {
      forall k | 0 <= k < |s| ensures KeyLe(f, s[k]) {
        if k > 0 { assert KeyLe(s[0], s[k]); }
      }
      ConsSorted(f, s);
    }
  }

  /** The head of a sorted `s` that lies below `f` lies below everything in the insertion into its tail. */
  lemma HeadBelowInsert(s: seq<Fragment>, f: Fragment)
    requires Sorted(s) && s != [] && KeyLe(s[0], f)
    ensures forall k :: 0 <= k < |Insert(s[1..], f)| ==> KeyLe(s[0], Insert(s[1..], f)[k])
  {
    InsertPermutes(s[1..], f);
    var rest := Insert(s[1..], f);
    forall k | 0 <= k < |rest| ensures KeyLe(s[0], rest[k]) {
      assert rest[k] in multiset(rest);
      if rest[k] != f {
        assert rest[k] in multiset(s[1..]);
        var m :| 0 <= m < |s[1..]| && s[1..][m] == rest[k];
        assert KeyLe(s[0], s[m + 1]);
      }
    }
  }

  /** A sorted sequence stays sorted behind a head below all of it. */
  lemma ConsSorted(h: Fragment, rest: seq<Fragment>)
    requires Sorted(rest) && forall k :: 0 <= k < |rest| ==> KeyLe(h, rest[k])
    ensures Sorted([h] + rest)
  {
    var r := [h] + rest;
    forall i, j | 0 <= i < j < |r| ensures KeyLe(r[i], r[j]) {
      assert r[j] == rest[j - 1];
      if i > 0 { assert r[i] == rest[i - 1]; }
    }
  }

  /** The sorted list is ascending in (y, x). */
  lemma {:induction false} SortSorted(s: seq<Fragment>)
    ensures Sorted(SortByAnchor(s))
    decreases |s|
  {
    if s != [] {
      SortSorted(s[..|s| - 1]);
      InsertSorted(SortByAnchor(s[..|s| - 1]), s[|s| - 1]);
    }
  }

  /** The sorted list is a permutation of the input: every fragment exactly once. */
  lemma {:induction false} SortPermutes(s: seq<Fragment>)
    ensures multiset(SortByAnchor(s)) == multiset(s)
    decreases |s|
  {
    if s != [] {
      SortPermutes(s[..|s| - 1]);
      InsertPermutes(SortByAnchor(s[..|s| - 1]), s[|s| - 1]);
      assert s == s[..|s| - 1] + [s[|s| - 1]];
    }
  }

  /** The fragments with anchor (y, x), in the order they occur in `s`. */
  function WithKey(s: seq<Fragment>, y: int, x: int): (r: seq<Fragment>)
    ensures |r| <= |s|
    ensures forall k :: 0 <= k < |r| ==> r[k].y == y && r[k].x == x
    decreases |s|
  {
    if s == [] then []
    else (if s[0].y == y && s[0].x == x then [s[0]] else []) + WithKey(s[1..], y, x)
  }

  lemma {:induction false} WithKeyAppend(a: seq<Fragment>, b: seq<Fragment>, y: int, x: int)
    ensures WithKey(a + b, y, x) == WithKey(a, y, x) + WithKey(b, y, x)
    decreases |a|
  {
    if a != [] {
      assert (a + b)[1..] == a[1..] + b;
      WithKeyAppend(a[1..], b, y, x);
    } else {
      assert a + b == b;
    }
  }

  /** Nothing in a sorted `s` whose head lies strictly above `f` shares f's key. */
  lemma {:induction false} NoKeyAbove(s: seq<Fragment>, f: Fragment)
    requires Sorted(s) && s != [] && !KeyLe(s[0], f)
    ensures WithKey(s, f.y, f.x) == []
    decreases |s|
  {
    if |s| > 1 {
      assert KeyLe(s[0], s[1]);
      SortedTail(s);
      NoKeyAbove(s[1..], f);
    }
  }

  /** Insert puts `f` behind every fragment of the same key: stability of one step. */
  lemma {:induction false} InsertStable(s: seq<Fragment>, f: Fragment, y: int, x: int)
    requires Sorted(s)
    ensures WithKey(Insert(s, f), y, x) == WithKey(s, y, x) + WithKey([f], y, x)
    decreases |s|
  {
    if s == [] {
    } else if KeyLe(s[0], f) {
      SortedTail(s);
      InsertStable(s[1..], f, y, x);
      InsertStableStep(s, f, y, x);
    } else {
      WithKeyAppend([f], s, y, x);
      if f.y == y && f.x == x {
        NoKeyAbove(s, f);
      } else {
        assert WithKey([f], y, x) == [];
      }
    }
  }

  /** The step of `InsertStable` where `f` goes behind the head. */
  lemma InsertStableStep(s: seq<Fragment>, f: Fragment, y: int, x: int)
    requires s != [] && KeyLe(s[0], f)
    requires WithKey(Insert(s[1..], f), y, x) == WithKey(s[1..], y, x) + WithKey([f], y, x)
    ensures WithKey(Insert(s, f), y, x) == WithKey(s, y, x) + WithKey([f], y, x)
  {
    var h, rest := [s[0]], Insert(s[1..], f);
    assert Insert(s, f) == h + rest;
    assert h + s[1..] == s;
    WithKeyAppend(h, rest, y, x);
    WithKeyAppend(h, s[1..], y, x);
    SeqAssoc(WithKey(h, y, x), WithKey(s[1..], y, x), WithKey([f], y, x));
  }

  lemma SeqAssoc(a: seq<Fragment>, b: seq<Fragment>, c: seq<Fragment>)
    ensures a + (b + c) == (a + b) + c
  {
  }

  /**
   * Stability: for every anchor key, the fragments with that key appear in
   * the sorted result in the same order as in the input.
   */
  lemma {:induction false} SortStable(s: seq<Fragment>, y: int, x: int)
    ensures WithKey(SortByAnchor(s), y, x) == WithKey(s, y, x)
    decreases |s|
  {
    if s != [] {
      var init, last := s[..|s| - 1], s[|s| - 1];
      SortStable(init, y, x);
      SortSorted(init);
      InsertStable(SortByAnchor(init), last, y, x);
      assert s == init + [last];
      WithKeyAppend(init, [last], y, x);
    }
  }

  /** In a sorted sequence the first element with the head's key is the head. */
  lemma HeadFirstOfItsKey(t: seq<Fragment>)
    requires t != []
    ensures WithKey(t, t[0].y, t[0].x) != [] && WithKey(t, t[0].y, t[0].x)[0] == t[0]
  {
  }

  /** An element found by key filtering lies in the sequence. */
  lemma {:induction false} WithKeyMember(t: seq<Fragment>, y: int, x: int)
    requires WithKey(t, y, x) != []
    ensures WithKey(t, y, x)[0] in t
    decreases |t|
  {
    if !(t[0].y == y && t[0].x == x) {
      WithKeyMember(t[1..], y, x);
    }
  }

  /** Dropping the head removes exactly the head from its key's filter. */
  lemma WithKeyTail(t: seq<Fragment>, y: int, x: int)
    requires t != []
    ensures WithKey(t[1..], y, x) ==
      if t[0].y == y && t[0].x == x then WithKey(t, y, x)[1..] else WithKey(t, y, x)
  {
  }

  lemma SortedTail(t: seq<Fragment>)
    requires Sorted(t) && t != []
    ensures Sorted(t[1..])
  {
    forall i, j | 0 <= i < j < |t[1..]| ensures KeyLe(t[1..][i], t[1..][j]) {
      assert t[1..][i] == t[i + 1] && t[1..][j] == t[j + 1];
    }
  }

  /**
   * Two sorted sequences that agree, key by key, on the order of their
   * elements are equal: a stable sort's result is determined by its input.
   */
  lemma {:induction false} SortedUnique(t: seq<Fragment>, u: seq<Fragment>)
    requires Sorted(t) && Sorted(u)
    requires KeepsKeyOrder(t, u)
    ensures t == u
    decreases |t|
  {
    if t == [] {
      if u != [] {
        HeadFirstOfItsKey(u);
      }
    } else if u == [] {
      HeadFirstOfItsKey(t);
    } else {
      SortedHeadsEqual(t, u);
      SortedTail(t);
      SortedTail(u);
      TailsKeepKeyOrder(t, u);
      SortedUnique(t[1..], u[1..]);
      assert t == [t[0]] + t[1..] && u == [u[0]] + u[1..];
    }
  }

  /** Two non-empty sorted sequences with the same per-key orders start alike. */
  lemma SortedHeadsEqual(t: seq<Fragment>, u: seq<Fragment>)
    requires Sorted(t) && Sorted(u) && t != [] && u != []
    requires KeepsKeyOrder(t, u)
    ensures t[0] == u[0]
  {
    HeadFirstOfItsKey(t);
    HeadFirstOfItsKey(u);
    WithKeyMember(u, t[0].y, t[0].x);
    WithKeyMember(t, u[0].y, u[0].x);
    var ut := WithKey(u, t[0].y, t[0].x)[0];
    var tu := WithKey(t, u[0].y, u[0].x)[0];
    assert KeyLe(u[0], ut) by {
      var k :| 0 <= k < |u| && u[k] == ut;
      if k > 0 { assert KeyLe(u[0], u[k]); }
    }
    assert KeyLe(t[0], tu) by {
      var k :| 0 <= k < |t| && t[k] == tu;
      if k > 0 { assert KeyLe(t[0], t[k]); }
    }
    assert SameKey(t[0], u[0]);
  }

  /** Dropping an equal head keeps the per-key orders equal. */
  lemma TailsKeepKeyOrder(t: seq<Fragment>, u: seq<Fragment>)
    requires t != [] && u != [] && t[0] == u[0]
    requires KeepsKeyOrder(t, u)
    ensures KeepsKeyOrder(t[1..], u[1..])
  {
    forall y: int, x: int ensures WithKey(t[1..], y, x) == WithKey(u[1..], y, x) {
      WithKeyTail(t, y, x);
      WithKeyTail(u, y, x);
    }
  }

  /** `t` lists the fragments of every anchor key in the order `s` has them. */
  ghost predicate KeepsKeyOrder(t: seq<Fragment>, s: seq<Fragment>)
  {
    forall y: int, x: int :: WithKey(t, y, x) == WithKey(s, y, x)
  }

  /**
   * The specification of the sort, stated independently of insertion: `t`
   * is the sorted list exactly when it is ascending in (y, x) and keeps the
   * detection order within every key.
   */
  lemma StableSortUnique(s: seq<Fragment>, t: seq<Fragment>)
    ensures t == SortByAnchor(s) <==> Sorted(t) && KeepsKeyOrder(t, s)
  {
    var sorted := SortByAnchor(s);
    SortSorted(s);
    forall y: int, x: int ensures WithKey(sorted, y, x) == WithKey(s, y, x) {
      SortStable(s, y, x);
    }
    if Sorted(t) && KeepsKeyOrder(t, s) {
      SortedUnique(t, sorted);
    }
  }

  /**
   * Detecting the same fragments in another order gives the same sorted
   * list, provided the fragments of each anchor key keep their order.
   */
  lemma SortOrderIndependent(s: seq<Fragment>, t: seq<Fragment>)
    requires KeepsKeyOrder(t, s)
    ensures SortByAnchor(s) == SortByAnchor(t)
  {
    var u := SortByAnchor(t);
    SortSorted(t);
    forall y: int, x: int ensures WithKey(u, y, x) == WithKey(s, y, x) {
      SortStable(t, y, x);
    }
    StableSortUnique(s, u);
  }

  /** Fragments that share an anchor key are identical: text included. */
  predicate TiesIdentical(s: seq<Fragment>)
  {
    forall i, j :: 0 <= i < |s| && 0 <= j < |s| && SameKey(s[i], s[j]) ==> s[i] == s[j]
  }

  /** No two fragments share an anchor key. */
  predicate KeysDistinct(s: seq<Fragment>)
  {
    forall i, j :: 0 <= i < j < |s| ==> !SameKey(s[i], s[j])
  }

  /** Distinct keys are the special case of identical ties with no ties at all. */
  lemma KeysDistinctTiesIdentical(s: seq<Fragment>)
    requires KeysDistinct(s)
    ensures TiesIdentical(s)
  {
    forall i, j | 0 <= i < |s| && 0 <= j < |s| && SameKey(s[i], s[j]) ensures s[i] == s[j] {
      assert i == j;
    }
  }

  /** Filtering by key keeps exactly the occurrences of the fragments with that key. */
  lemma {:induction false} WithKeyCount(s: seq<Fragment>, y: int, x: int)
    ensures forall f :: multiset(WithKey(s, y, x))[f] == if f.y == y && f.x == x then multiset(s)[f] else 0
    decreases |s|
  {
    if s != [] {
      WithKeyCount(s[1..], y, x);
      assert s == [s[0]] + s[1..];
    }
  }

  /**
   * When fragments that share a key are identical, any permutation keeps
   * every key's order: each key's fragments are copies of one fragment.
   */
  lemma PermutationKeepsKeyOrder(s: seq<Fragment>, t: seq<Fragment>)
    requires multiset(s) == multiset(t) && TiesIdentical(s)
    ensures KeepsKeyOrder(t, s)
  {
    forall y: int, x: int ensures WithKey(t, y, x) == WithKey(s, y, x) {
      PermutedKeyFilter(s, t, y, x);
    }
  }

  /** One key of `PermutationKeepsKeyOrder`. */
  lemma PermutedKeyFilter(s: seq<Fragment>, t: seq<Fragment>, y: int, x: int)
    requires multiset(s) == multiset(t) && TiesIdentical(s)
    ensures WithKey(t, y, x) == WithKey(s, y, x)
  {
    PermutedFilter(s, t, y, x);
    var w := WithKey(s, y, x);
    if w == [] {
      assert |multiset(WithKey(t, y, x))| == 0;
    } else {
      WithKeyMember(s, y, x);
      TiesFilterConst(s, y, x, w[0]);
      ConstPermEqual(w, WithKey(t, y, x), w[0]);
    }
  }

  /** Permuted inputs give permuted key filters. */
  lemma PermutedFilter(s: seq<Fragment>, t: seq<Fragment>, y: int, x: int)
    requires multiset(s) == multiset(t)
    ensures multiset(WithKey(s, y, x)) == multiset(WithKey(t, y, x))
  {
    WithKeyCount(s, y, x);
    WithKeyCount(t, y, x);
    forall f ensures multiset(WithKey(s, y, x))[f] == multiset(WithKey(t, y, x))[f] {
    }
  }

  /** Under identical ties, the fragments with the key of `f` are all `f`. */
  lemma TiesFilterConst(s: seq<Fragment>, y: int, x: int, f: Fragment)
    requires TiesIdentical(s) && f in s && f.y == y && f.x == x
    ensures forall k :: 0 <= k < |WithKey(s, y, x)| ==> WithKey(s, y, x)[k] == f
  {
    WithKeyCount(s, y, x);
    var w := WithKey(s, y, x);
    var i :| 0 <= i < |s| && s[i] == f;
    forall k | 0 <= k < |w| ensures w[k] == f {
      assert w[k] in multiset(w);
      var j :| 0 <= j < |s| && s[j] == w[k];
      assert SameKey(s[i], s[j]);
    }
  }

  /** Two sequences of copies of one fragment with the same multiset are equal. */
  lemma ConstPermEqual(a: seq<Fragment>, b: seq<Fragment>, f: Fragment)
    requires multiset(a) == multiset(b)
    requires forall k :: 0 <= k < |a| ==> a[k] == f
    ensures a == b
  {
    assert |multiset(b)| == |b| && |multiset(a)| == |a|;
    forall k | 0 <= k < |b| ensures b[k] == f {
      assert b[k] in multiset(a);
    }
  }

  /** Insert places `f` at the first position whose element lies strictly above it. */
  lemma {:induction false} InsertAt(s: seq<Fragment>, f: Fragment, j: nat)
    requires j <= |s|
    requires forall k :: 0 <= k < j ==> KeyLe(s[k], f)
    requires forall k :: j <= k < |s| ==> !KeyLe(s[k], f)
    ensures Insert(s, f) == s[..j] + [f] + s[j..]
    decreases |s|
  {
    if j > 0 {
      InsertAt(s[1..], f, j - 1);
      assert s[..j] == [s[0]] + s[1..][..j - 1];
      assert s[j..] == s[1..][j - 1..];
    }
  }

  /**
   * What the inner loop of `InsertInPlace` leaves behind is the insertion of
   * `x`: the prefix of `sorted` up to j, then `x`, then the rest shifted up.
   */
  lemma ShiftedIsInsert(sorted: seq<Fragment>, x: Fragment, j: nat, b: seq<Fragment>)
    requires Sorted(sorted) && j <= |sorted| && |b| == |sorted| + 1
    requires j > 0 ==> KeyLe(sorted[j - 1], x)
    requires forall k :: j <= k < |sorted| ==> !KeyLe(sorted[k], x)
    requires forall k :: 0 <= k < j ==> b[k] == sorted[k]
    requires b[j] == x
    requires forall k :: j < k < |b| ==> b[k] == sorted[k - 1]
    ensures b == Insert(sorted, x)
  {
    forall k | 0 <= k < j ensures KeyLe(sorted[k], x) {
      if k < j - 1 { assert KeyLe(sorted[k], sorted[j - 1]); }
    }
    InsertAt(sorted, x, j);
    var expected := sorted[..j] + [x] + sorted[j..];
    forall k | 0 <= k < |b| ensures b[k] == expected[k] {
      if k < j {
        assert expected[k] == sorted[k];
      } else if k == j {
        assert expected[k] == x;
      } else {
        assert expected[k] == sorted[k - 1];
      }
    }
  }

  /**
   * One step of the insertion sort: with `a[..i]` sorted, moves `a[i]` left
   * past the elements strictly above it, leaving `a[i + 1..]` alone.
   */
  method InsertInPlace(a: array<Fragment>, i: nat)
    requires i < a.Length && Sorted(a[..i])
    modifies a
    ensures a[..i + 1] == Insert(old(a[..i]), old(a[i]))
    ensures forall k :: i < k < a.Length ==> a[k] == old(a[k])
  {
    var x := a[i];
    ghost var sorted := a[..i];
    var j := i;
    while j > 0 && !KeyLe(a[j - 1], x)
      invariant 0 <= j <= i
      invariant forall k :: 0 <= k < j ==> a[k] == sorted[k]
      invariant forall k :: j < k <= i ==> a[k] == sorted[k - 1]
      invariant forall k :: i < k < a.Length ==> a[k] == old(a[k])
      invariant forall k :: j <= k < i ==> !KeyLe(sorted[k], x)
    {
      a[j] := a[j - 1];
      j := j - 1;
    }
    a[j] := x;
    ShiftedIsInsert(sorted, x, j, a[..i + 1]);
  }

  /** Sorting one more element is one more insertion. */
  lemma SortSnoc(s: seq<Fragment>, i: nat)
    requires i < |s|
    ensures SortByAnchor(s[..i + 1]) == Insert(SortByAnchor(s[..i]), s[i])
  {
    assert s[..i + 1][..i] == s[..i];
  }

  /** The in-place insertion sort of the anchor list. */
  method SortInPlace(a: array<Fragment>)
    modifies a
    ensures a[..] == SortByAnchor(old(a[..]))
  {
    ghost var orig := a[..];
    var i := 0;
    while i < a.Length
      invariant 0 <= i <= a.Length
      invariant a[..i] == SortByAnchor(orig[..i])
      invariant forall k :: i <= k < a.Length ==> a[k] == orig[k]
    {
      SortSorted(orig[..i]);
      SortSnoc(orig, i);
      InsertInPlace(a, i);
      i := i + 1;
    }
    assert a[..] == a[..a.Length] && orig == orig[..a.Length];
  }
}
