/**
 * The line-grouping sweep of `process_image`: one pass over the sorted
 * fragments that opens a band at a fragment whose y lies more than the
 * tolerance away from the current band's anchor and otherwise adds the
 * fragment to the current band. The anchor is the y of the band's first
 * fragment and never moves.
 *
 * `Groups` is the specification (a band is the sequence of its fragments),
 * `IsBanding` an independent description of what the sweep produces,
 * `GroupLines` the loop itself.
 */
module LineGrouping {
  import opened Fragments
  import opened Strings

  function Abs(n: int): nat
  {
    if n < 0 then -n else n
  }

  /**
   * One turn of the loop on the bands built so far: `f` joins the last band
   * when its y lies within `tol` of that band's anchor (closed bound),
   * otherwise it opens a band of its own.
   */
  function Step(g: seq<seq<Fragment>>, f: Fragment, tol: nat): (r: seq<seq<Fragment>>)
    requires forall k :: 0 <= k < |g| ==> g[k] != []
    ensures r != [] && forall k :: 0 <= k < |r| ==> r[k] != []
  {
    if g != [] && Abs(f.y - g[|g| - 1][0].y) <= tol then g[..|g| - 1] + [g[|g| - 1] + [f]]
    else g + [[f]]
  }

  /** The bands the sweep builds from `s`, defined prefix by prefix as the loop runs. */
  function Groups(s: seq<Fragment>, tol: nat): (r: seq<seq<Fragment>>)
    ensures r == [] <==> s == []
    ensures forall k :: 0 <= k < |r| ==> r[k] != []
    decreases |s|
  {
    if s == [] then [] else Step(Groups(s[..|s| - 1], tol), s[|s| - 1], tol)
  }

  /** `Groups` of one more fragment is one more `Step`. */
  lemma GroupsAppend(s: seq<Fragment>, f: Fragment, tol: nat)
    ensures Groups(s + [f], tol) == Step(Groups(s, tol), f, tol)
  {
    assert (s + [f])[..|s|] == s;
  }

  /** The bands laid end to end. */
  function Flatten(bands: seq<seq<Fragment>>): (r: seq<Fragment>)
    decreases |bands|
  {
    if bands == [] then [] else Flatten(bands[..|bands| - 1]) + bands[|bands| - 1]
  }

  ghost predicate NonEmptyBands(bands: seq<seq<Fragment>>)
  {
    forall k :: 0 <= k < |bands| ==> bands[k] != []
  }

  /** Every fragment lies within `tol` (closed bound) of its band's first fragment. */
  ghost predicate WithinAnchor(bands: seq<seq<Fragment>>, tol: nat)
    requires NonEmptyBands(bands)
  {
    forall k, m :: 0 <= k < |bands| && 0 <= m < |bands[k]| ==>
      Abs(bands[k][m].y - bands[k][0].y) <= tol
  }

  /** Every band after the first opens more than `tol` away from the previous anchor. */
  ghost predicate OpensBeyond(bands: seq<seq<Fragment>>, tol: nat)
    requires NonEmptyBands(bands)
  {
    forall k :: 0 < k < |bands| ==> Abs(bands[k][0].y - bands[k - 1][0].y) > tol
  }

  /**
   * `bands` is a grouping of `s` into lines with anchored tolerance `tol`:
   * the bands are `s` cut into non-empty consecutive pieces, every fragment
   * lies within `tol` of its band's first fragment, and every band after
   * the first opens with a fragment more than `tol` away from the previous
   * band's first fragment.
   */
  ghost predicate IsBanding(s: seq<Fragment>, bands: seq<seq<Fragment>>, tol: nat)
  {
    && Flatten(bands) == s
    && NonEmptyBands(bands)
    && WithinAnchor(bands, tol)
    && OpensBeyond(bands, tol)
  }

  lemma FlattenAppendBand(bands: seq<seq<Fragment>>, band: seq<Fragment>)
    ensures Flatten(bands + [band]) == Flatten(bands) + band
  {
    assert (bands + [band])[..|bands|] == bands;
  }

  /** Growing the last band grows the flattened sequence by the same fragment. */
  lemma FlattenExtendLast(init: seq<seq<Fragment>>, last: seq<Fragment>, f: Fragment)
    ensures Flatten(init + [last + [f]]) == Flatten(init + [last]) + [f]
  {
    FlattenAppendBand(init, last + [f]);
    FlattenAppendBand(init, last);
    assert Flatten(init) + (last + [f]) == (Flatten(init) + last) + [f];
  }

  /** One turn of the loop keeps a banding a banding of the longer input. */
  lemma StepBanding(s: seq<Fragment>, g: seq<seq<Fragment>>, f: Fragment, tol: nat)
    requires IsBanding(s, g, tol)
    ensures IsBanding(s + [f], Step(g, f, tol), tol)
  {
    if g != [] && Abs(f.y - g[|g| - 1][0].y) <= tol {
      JoinBanding(s, g, f, tol);
    } else {
      OpenBanding(s, g, f, tol);
    }
  }

  /** `f` joining the last band, close enough to its anchor. */
  lemma JoinBanding(s: seq<Fragment>, g: seq<seq<Fragment>>, f: Fragment, tol: nat)
    requires IsBanding(s, g, tol)
    requires g != [] && Abs(f.y - g[|g| - 1][0].y) <= tol
    ensures IsBanding(s + [f], Step(g, f, tol), tol)
  {
    var n := |g| - 1;
    assert Step(g, f, tol) == g[..n] + [g[n] + [f]];
    FlattenExtendLast(g[..n], g[n], f);
    assert g[..n] + [g[n]] == g;
    JoinWithin(g, f, tol);
    JoinOpens(g, f, tol);
  }

  lemma JoinWithin(g: seq<seq<Fragment>>, f: Fragment, tol: nat)
    requires g != [] && NonEmptyBands(g) && WithinAnchor(g, tol)
    requires Abs(f.y - g[|g| - 1][0].y) <= tol
    ensures WithinAnchor(Step(g, f, tol), tol)
  {
    var r: seq<seq<Fragment>> := Step(g, f, tol);
    var n := |g| - 1;
    assert r == g[..n] + [g[n] + [f]];
    forall k, m | 0 <= k < |r| && 0 <= m < |r[k]| ensures Abs(r[k][m].y - r[k][0].y) <= tol {
      if k < n {
        assert r[k] == g[k];
      } else if m < |g[n]| {
        assert r[k][m] == g[n][m] && r[k][0] == g[n][0];
      } else {
        assert r[k][m] == f && r[k][0] == g[n][0];
      }
    }
  }

  lemma JoinOpens(g: seq<seq<Fragment>>, f: Fragment, tol: nat)
    requires g != [] && NonEmptyBands(g) && OpensBeyond(g, tol)
    requires Abs(f.y - g[|g| - 1][0].y) <= tol
    ensures OpensBeyond(Step(g, f, tol), tol)
  {
    var r: seq<seq<Fragment>> := Step(g, f, tol);
    var n := |g| - 1;
    assert r == g[..n] + [g[n] + [f]];
    forall k | 0 < k < |r| ensures Abs(r[k][0].y - r[k - 1][0].y) > tol {
      assert r[k - 1] == g[k - 1];
      assert r[k][0] == g[k][0];
    }
  }

  /** `f` opening a band of its own, too far from the last anchor (or first of all). */
  lemma OpenBanding(s: seq<Fragment>, g: seq<seq<Fragment>>, f: Fragment, tol: nat)
    requires IsBanding(s, g, tol)
    requires !(g != [] && Abs(f.y - g[|g| - 1][0].y) <= tol)
    ensures IsBanding(s + [f], Step(g, f, tol), tol)
  {
    assert Step(g, f, tol) == g + [[f]];
    FlattenAppendBand(g, [f]);
    OpenWithin(g, f, tol);
    OpenOpens(g, f, tol);
  }

  lemma OpenWithin(g: seq<seq<Fragment>>, f: Fragment, tol: nat)
    requires NonEmptyBands(g) && WithinAnchor(g, tol)
    ensures WithinAnchor(g + [[f]], tol)
  {
    var r: seq<seq<Fragment>> := g + [[f]];
    forall k, m | 0 <= k < |r| && 0 <= m < |r[k]| ensures Abs(r[k][m].y - r[k][0].y) <= tol {
      if k < |g| { assert r[k] == g[k]; }
    }
  }

  lemma OpenOpens(g: seq<seq<Fragment>>, f: Fragment, tol: nat)
    requires NonEmptyBands(g) && OpensBeyond(g, tol)
    requires !(g != [] && Abs(f.y - g[|g| - 1][0].y) <= tol)
    ensures OpensBeyond(g + [[f]], tol)
  {
    var r: seq<seq<Fragment>> := g + [[f]];
    forall k | 0 < k < |r| ensures Abs(r[k][0].y - r[k - 1][0].y) > tol {
      assert r[k - 1] == g[k - 1];
      if k < |g| { assert r[k] == g[k]; }
    }
  }

  /** The sweep's bands are a banding of its input: every fragment exactly once, in order. */
  lemma {:induction false} GroupsIsBanding(s: seq<Fragment>, tol: nat)
    ensures IsBanding(s, Groups(s, tol), tol)
    decreases |s|
  {
    if s != [] {
      var init, f := s[..|s| - 1], s[|s| - 1];
      assert init + [f] == s;
      GroupsIsBanding(init, tol);
      GroupsAppend(init, f, tol);
      StepBanding(init, Groups(init, tol), f, tol);
    }
  }

  /** The bands before the last fragment was added: the inverse of `Step`. */
  ghost function Unstep(bands: seq<seq<Fragment>>): (r: seq<seq<Fragment>>)
    requires bands != [] && NonEmptyBands(bands)
  {
    var last := bands[|bands| - 1];
    if |last| == 1 then bands[..|bands| - 1]
    else bands[..|bands| - 1] + [last[..|last| - 1]]
  }

  /** Removing the last fragment of a banding leaves a banding that `Step` rebuilds. */
  lemma UnstepBanding(s: seq<Fragment>, f: Fragment, bands: seq<seq<Fragment>>, tol: nat)
    requires IsBanding(s + [f], bands, tol)
    ensures bands != [] && NonEmptyBands(bands)
    ensures IsBanding(s, Unstep(bands), tol) && Step(Unstep(bands), f, tol) == bands
  {
    var n := |bands| - 1;
    var init := bands[..n];
    var last := bands[n];
    assert init + [last] == bands;
    FlattenAppendBand(init, last);
    assert s + [f] == Flatten(init) + last;
    assert |Flatten(init)| + |last| == |s| + 1;
    assert (s + [f])[|s|] == f;
    assert (Flatten(init) + last)[|s|] == last[|last| - 1];
    if |last| == 1 {
      UnstepSingle(s, f, bands, tol);
    } else {
      UnstepShorten(s, f, bands, tol);
    }
  }

  /** The last fragment was alone in its band: it had opened that band. */
  lemma UnstepSingle(s: seq<Fragment>, f: Fragment, bands: seq<seq<Fragment>>, tol: nat)
    requires IsBanding(s + [f], bands, tol) && bands != []
    requires |bands[|bands| - 1]| == 1
    requires s + [f] == Flatten(bands[..|bands| - 1]) + bands[|bands| - 1]
    requires f == bands[|bands| - 1][0]
    ensures IsBanding(s, Unstep(bands), tol) && Step(Unstep(bands), f, tol) == bands
  {
    var n := |bands| - 1;
    var init := bands[..n];
    assert Unstep(bands) == init;
    assert bands[n] == [f];
    assert Flatten(init) == (s + [f])[..|s|] == s;
    PrefixBanding(bands, tol);
    if init != [] {
      assert init[n - 1] == bands[n - 1];
      assert Abs(f.y - init[n - 1][0].y) > tol;
    }
    assert Step(init, f, tol) == init + [[f]];
    assert init + [[f]] == bands;
  }

  /** Dropping the last band keeps the anchor conditions. */
  lemma PrefixBanding(bands: seq<seq<Fragment>>, tol: nat)
    requires bands != [] && NonEmptyBands(bands) && WithinAnchor(bands, tol) && OpensBeyond(bands, tol)
    ensures NonEmptyBands(bands[..|bands| - 1])
    ensures WithinAnchor(bands[..|bands| - 1], tol) && OpensBeyond(bands[..|bands| - 1], tol)
  {
    var u := bands[..|bands| - 1];
    assert forall k :: 0 <= k < |u| ==> u[k] == bands[k];
  }

  /** The last fragment had joined a longer band. */
  lemma UnstepShorten(s: seq<Fragment>, f: Fragment, bands: seq<seq<Fragment>>, tol: nat)
    requires IsBanding(s + [f], bands, tol) && bands != []
    requires |bands[|bands| - 1]| > 1
    requires s + [f] == Flatten(bands[..|bands| - 1]) + bands[|bands| - 1]
    requires f == bands[|bands| - 1][|bands[|bands| - 1]| - 1]
    ensures IsBanding(s, Unstep(bands), tol) && Step(Unstep(bands), f, tol) == bands
  {
    ShortenedIsBanding(s, f, bands, tol);
    ShortenedStep(bands, f, tol);
  }

  /** Adding back the last fragment of a longer last band rebuilds the bands. */
  lemma ShortenedStep(bands: seq<seq<Fragment>>, f: Fragment, tol: nat)
    requires bands != [] && NonEmptyBands(bands) && WithinAnchor(bands, tol)
    requires |bands[|bands| - 1]| > 1
    requires f == bands[|bands| - 1][|bands[|bands| - 1]| - 1]
    ensures Step(Unstep(bands), f, tol) == bands
  {
    var n := |bands| - 1;
    var init := bands[..n];
    var last := bands[n];
    var shorter := last[..|last| - 1];
    var u: seq<seq<Fragment>> := Unstep(bands);
    assert u == init + [shorter];
    assert u[n] == shorter && u[n][0] == last[0];
    assert last == shorter + [f];
    assert Abs(last[|last| - 1].y - last[0].y) <= tol;
    assert u[..n] == init;
    assert init + [shorter + [f]] == bands;
  }

  lemma ShortenedIsBanding(s: seq<Fragment>, f: Fragment, bands: seq<seq<Fragment>>, tol: nat)
    requires IsBanding(s + [f], bands, tol) && bands != []
    requires |bands[|bands| - 1]| > 1
    requires s + [f] == Flatten(bands[..|bands| - 1]) + bands[|bands| - 1]
    requires f == bands[|bands| - 1][|bands[|bands| - 1]| - 1]
    ensures IsBanding(s, Unstep(bands), tol)
  {
    var n := |bands| - 1;
    var init := bands[..n];
    var last := bands[n];
    var shorter := last[..|last| - 1];
    assert Unstep(bands) == init + [shorter];
    FlattenAppendBand(init, shorter);
    assert last == shorter + [f];
    assert Flatten(init) + last == (Flatten(init) + shorter) + [f];
    assert s == (s + [f])[..|s|];
    assert Flatten(init) + shorter == ((Flatten(init) + shorter) + [f])[..|s|];
    ShortenWithin(bands, tol);
    ShortenOpens(bands, tol);
  }

  lemma ShortenWithin(bands: seq<seq<Fragment>>, tol: nat)
    requires bands != [] && NonEmptyBands(bands) && WithinAnchor(bands, tol)
    requires |bands[|bands| - 1]| > 1
    ensures NonEmptyBands(Unstep(bands)) && WithinAnchor(Unstep(bands), tol)
  {
    var n := |bands| - 1;
    var u: seq<seq<Fragment>> := Unstep(bands);
    assert u == bands[..n] + [bands[n][..|bands[n]| - 1]];
    forall k, m | 0 <= k < |u| && 0 <= m < |u[k]| ensures Abs(u[k][m].y - u[k][0].y) <= tol {
      if k < n { assert u[k] == bands[k]; }
      else { assert u[k][m] == bands[n][m] && u[k][0] == bands[n][0]; }
    }
  }

  lemma ShortenOpens(bands: seq<seq<Fragment>>, tol: nat)
    requires bands != [] && NonEmptyBands(bands) && OpensBeyond(bands, tol)
    requires |bands[|bands| - 1]| > 1
    ensures NonEmptyBands(Unstep(bands)) && OpensBeyond(Unstep(bands), tol)
  {
    var n := |bands| - 1;
    var u: seq<seq<Fragment>> := Unstep(bands);
    assert u == bands[..n] + [bands[n][..|bands[n]| - 1]];
    forall k | 0 < k < |u| ensures Abs(u[k][0].y - u[k - 1][0].y) > tol {
      assert u[k - 1] == bands[k - 1];
      assert u[k][0] == bands[k][0];
    }
  }

  /** Any banding of `s` is the one the sweep builds: the sweep's result is determined. */
  lemma {:induction false} BandingIsGroups(s: seq<Fragment>, bands: seq<seq<Fragment>>, tol: nat)
    requires IsBanding(s, bands, tol)
    ensures bands == Groups(s, tol)
    decreases |s|
  {
    if s != [] {
      var init := s[..|s| - 1];
      assert init + [s[|s| - 1]] == s;
      UnstepBanding(init, s[|s| - 1], bands, tol);
      BandingIsGroups(init, Unstep(bands), tol);
    }
  }

  /** `Groups` is characterised by `IsBanding`: both directions. */
  lemma GroupsCharacterized(s: seq<Fragment>, bands: seq<seq<Fragment>>, tol: nat)
    ensures bands == Groups(s, tol) <==> IsBanding(s, bands, tol)
  {
    GroupsIsBanding(s, tol);
    if IsBanding(s, bands, tol) {
      BandingIsGroups(s, bands, tol);
    }
  }

  lemma {:induction false} FlattenMember(bands: seq<seq<Fragment>>, k: nat, m: nat)
    requires k < |bands| && m < |bands[k]|
    ensures bands[k][m] in Flatten(bands)
    decreases |bands|
  {
    var init := bands[..|bands| - 1];
    if k < |bands| - 1 {
      FlattenMember(init, k, m);
      assert bands[k] == init[k];
    } else {
      assert Flatten(bands) == Flatten(init) + bands[k];
    }
  }

  /** Every band is ascending in (y, x), and each anchor lies more than `tol` below the last. */
  ghost predicate OrderedBands(bands: seq<seq<Fragment>>, tol: nat)
    requires NonEmptyBands(bands)
  {
    && (forall k :: 0 <= k < |bands| ==> Sorted(bands[k]))
    && (forall k :: 0 < k < |bands| ==> bands[k][0].y - bands[k - 1][0].y > tol)
  }

  /** One turn of the loop on a sorted input keeps the bands ordered. */
  lemma StepOrdered(s: seq<Fragment>, g: seq<seq<Fragment>>, f: Fragment, tol: nat)
    requires IsBanding(s, g, tol) && OrderedBands(g, tol) && Sorted(s + [f])
    ensures OrderedBands(Step(g, f, tol), tol)
  {
    var r: seq<seq<Fragment>> := Step(g, f, tol);
    if g != [] {
      var n := |g| - 1;
      // every fragment of the last band comes from `s`, so lies at or above f
      forall m | 0 <= m < |g[n]| ensures KeyLe(g[n][m], f) {
        FlattenMember(g, n, m);
        var i :| 0 <= i < |s| && s[i] == g[n][m];
        assert (s + [f])[i] == s[i] && (s + [f])[|s|] == f;
      }
      if Abs(f.y - g[n][0].y) <= tol {
        assert forall k :: 0 <= k < n ==> r[k] == g[k];
        assert r[n] == g[n] + [f] && r[n][0] == g[n][0];
        forall i, j | 0 <= i < j < |r[n]| ensures KeyLe(r[n][i], r[n][j]) {
          if j < |g[n]| { assert KeyLe(g[n][i], g[n][j]); }
          else { assert r[n][i] == g[n][i] && r[n][j] == f; }
        }
      } else {
        assert forall k :: 0 <= k < |g| ==> r[k] == g[k];
        assert r[n + 1] == [f];
        assert KeyLe(g[n][0], f);
      }
    }
  }

  /**
   * On sorted input, every band is sorted by (y, x) (so equal-y fragments
   * read left to right) and the anchors of successive bands rise by more
   * than `tol`.
   */
  lemma {:induction false} SortedBands(s: seq<Fragment>, tol: nat)
    requires Sorted(s)
    ensures OrderedBands(Groups(s, tol), tol)
    decreases |s|
  {
    if s != [] {
      var init := s[..|s| - 1];
      assert Sorted(init);
      assert init + [s[|s| - 1]] == s;
      SortedBands(init, tol);
      GroupsIsBanding(init, tol);
      StepOrdered(init, Groups(init, tol), s[|s| - 1], tol);
    }
  }

  /**
   * Three fragments in sorted order: the third is measured against the first
   * fragment of its band, not against the second.
   */
  lemma ThreeFragments(a: Fragment, b: Fragment, c: Fragment, tol: nat)
    requires KeyLe(a, b) && KeyLe(b, c)
    ensures Groups([a, b, c], tol) ==
      if b.y - a.y <= tol then
        if c.y - a.y <= tol then [[a, b, c]] else [[a, b], [c]]
      else
        if c.y - b.y <= tol then [[a], [b, c]] else [[a], [b], [c]]
  {
    TwoFragmentGroups(a, b, tol);
    GroupsAppend([a, b], c, tol);
    assert [a, b] + [c] == [a, b, c];
    var g2 := Groups([a, b], tol);
    if b.y - a.y <= tol {
      assert g2[..0] == [] && [a, b] + [c] == [a, b, c];
    } else {
      assert g2[..1] == [[a]] && [b] + [c] == [b, c];
    }
  }

  /** Two fragments in sorted order share a line exactly when the second is within `tol`. */
  lemma TwoFragmentGroups(a: Fragment, b: Fragment, tol: nat)
    requires KeyLe(a, b)
    ensures Groups([a, b], tol) == if b.y - a.y <= tol then [[a, b]] else [[a], [b]]
  {
    GroupsAppend([], a, tol);
    GroupsAppend([a], b, tol);
    assert [] + [a] == [a] && [a] + [b] == [a, b];
    var g1: seq<seq<Fragment>> := [[a]];
    assert Groups([a], tol) == g1;
    assert g1[..0] == [];
  }

  /** The text of one line: `' '.join(current_line)`. */
  function LineText(band: seq<Fragment>): (r: string)
    ensures band == [] ==> r == ""
    ensures |band| == 1 ==> r == band[0].text
  {
    Join(Texts(band), " ")
  }

  /** A line whose words hold no space splits at spaces back into its words. */
  lemma LineTextSplitsIntoWords(band: seq<Fragment>)
    requires band != [] && forall k :: 0 <= k < |band| ==> ' ' !in band[k].text
    ensures Split(LineText(band), ' ') == Texts(band)
  {
    SplitJoin(Texts(band), ' ');
  }

  /** The strings the sweep appends to `lines`, one per band. */
  function LineTexts(bands: seq<seq<Fragment>>): (r: seq<string>)
    ensures |r| == |bands|
    ensures forall k :: 0 <= k < |bands| ==> r[k] == LineText(bands[k])
  {
    seq(|bands|, k requires 0 <= k < |bands| => LineText(bands[k]))
  }

  /** `Groups` of one more fragment: one more turn of the loop. */
  lemma GroupsSnoc(frags: seq<Fragment>, i: nat, tol: nat)
    requires i < |frags|
    ensures Groups(frags[..i + 1], tol) == Step(Groups(frags[..i], tol), frags[i], tol)
  {
    assert frags[..i + 1][..i] == frags[..i] && frags[..i + 1][i] == frags[i];
  }

  lemma LineTextsSnoc(g: seq<seq<Fragment>>, band: seq<Fragment>)
    ensures LineTexts(g + [band]) == LineTexts(g) + [LineText(band)]
  {
  }

  /**
   * The loop's state, given the bands built so far: before the first turn
   * `current_y` is the first fragment's y (`None` for an empty list);
   * afterwards it is the anchor of the last band, `current_line` holds the
   * texts of that band, and `lines` the joined texts of every band before it.
   */
  ghost predicate SweepState(frags: seq<Fragment>, bands: seq<seq<Fragment>>,
                             currentY: Option<int>, currentLine: seq<string>, lines: seq<string>)
  {
    if bands == [] then
      && currentLine == [] && lines == []
      && currentY == (if |frags| > 0 then Some(frags[0].y) else None)
    else
      && bands[|bands| - 1] != []
      && currentY == Some(bands[|bands| - 1][0].y)
      && currentLine == Texts(bands[|bands| - 1])
      && lines == LineTexts(bands[..|bands| - 1])
  }

  /** A turn in which the fragment opens a new line. */
  lemma SweepOpen(frags: seq<Fragment>, g: seq<seq<Fragment>>, f: Fragment, tol: nat,
                  currentY: Option<int>, currentLine: seq<string>, lines: seq<string>)
    requires NonEmptyBands(g) && SweepState(frags, g, currentY, currentLine, lines)
    requires currentY.None? || Abs(f.y - currentY.value) > tol
    ensures SweepState(frags, Step(g, f, tol), Some(f.y), [f.text],
                       if currentLine != [] then lines + [Join(currentLine, " ")] else lines)
  {
    var r: seq<seq<Fragment>> := g + [[f]];
    assert Step(g, f, tol) == r;
    assert Texts([f]) == [f.text];
    assert r[..|r| - 1] == g && r[|r| - 1] == [f];
    if g != [] {
      LineTextsSnoc(g[..|g| - 1], g[|g| - 1]);
      assert g[..|g| - 1] + [g[|g| - 1]] == g;
    }
  }

  /** A turn in which the fragment joins the current line (the first fragment always does). */
  lemma SweepJoin(frags: seq<Fragment>, g: seq<seq<Fragment>>, f: Fragment, tol: nat,
                  currentY: Option<int>, currentLine: seq<string>, lines: seq<string>)
    requires NonEmptyBands(g) && SweepState(frags, g, currentY, currentLine, lines)
    requires g == [] ==> frags != [] && f == frags[0]
    requires currentY.Some? && Abs(f.y - currentY.value) <= tol
    ensures SweepState(frags, Step(g, f, tol), currentY, currentLine + [f.text], lines)
  {
    assert Texts([f]) == [f.text];
    if g != [] {
      var r: seq<seq<Fragment>> := g[..|g| - 1] + [g[|g| - 1] + [f]];
      assert Step(g, f, tol) == r;
      TextsAppend(g[|g| - 1], [f]);
      assert r[..|r| - 1] == g[..|g| - 1] && r[|r| - 1] == g[|g| - 1] + [f];
    } else {
      assert Step(g, f, tol) == [[f]];
    }
  }

  /** After the last turn, storing the pending line completes the result. */
  lemma SweepDone(frags: seq<Fragment>, tol: nat, bands: seq<seq<Fragment>>,
                  currentY: Option<int>, currentLine: seq<string>, lines: seq<string>)
    requires bands == Groups(frags, tol) && SweepState(frags, bands, currentY, currentLine, lines)
    ensures currentLine == [] ==> lines == LineTexts(bands)
    ensures currentLine != [] ==> lines + [Join(currentLine, " ")] == LineTexts(bands)
  {
    if frags != [] {
      LineTextsSnoc(bands[..|bands| - 1], bands[|bands| - 1]);
      assert bands[..|bands| - 1] + [bands[|bands| - 1]] == bands;
    }
  }

  /**
   * The sweep of image_processor.py: `current_y` starts at the first
   * fragment's y (or `None` for an empty list) and changes only when a new
   * line opens; a finished line is stored joined with single spaces.
   */
  method GroupLines(frags: seq<Fragment>, tol: nat) returns (lines: seq<string>)
    ensures lines == LineTexts(Groups(frags, tol))
  {
    lines := [];
    var currentY: Option<int> := if |frags| > 0 then Some(frags[0].y) else None;
    var currentLine: seq<string> := [];
    ghost var bands: seq<seq<Fragment>> := [];
    assert frags[..0] == [];
    for i := 0 to |frags|
      invariant bands == Groups(frags[..i], tol)
      invariant SweepState(frags, bands, currentY, currentLine, lines)
    {
      var f := frags[i];
      GroupsSnoc(frags, i, tol);
      if currentY.None? || Abs(f.y - currentY.value) > tol {
        SweepOpen(frags, bands, f, tol, currentY, currentLine, lines);
        if currentLine != [] {
          lines := lines + [Join(currentLine, " ")];
        }
        currentLine := [f.text];
        currentY := Some(f.y);
      } else {
        SweepJoin(frags, bands, f, tol, currentY, currentLine, lines);
        currentLine := currentLine + [f.text];
      }
      bands := Groups(frags[..i + 1], tol);
    }
    assert frags[..|frags|] == frags;
    SweepDone(frags, tol, bands, currentY, currentLine, lines);
    if currentLine != [] {
      lines := lines + [Join(currentLine, " ")];
    }
  }
}
