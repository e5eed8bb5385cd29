/**
 * `ImageProcessor.process_image` after the OCR call, and
 * `process_images_in_parallel`.
 *
 * An image is represented by what the OCR reader detects in it. The result
 * of one image is `Success(text)` with the reading-order text, or
 * `Failure(error)`.
 */
module ImageProcessor {
  import opened Fragments
  import opened AnchorSort
  import opened LineGrouping
  import opened Strings

  /** The vertical tolerance, in pixels, hard-wired in the source. */
  const DEFAULT_TOLERANCE: nat := 10

  const NO_TEXT := "No text detected in the image."

  /** What the general exception handler puts before the exception's text. */
  const UNEXPECTED_PREFIX := "Unexpected error: "

  datatype ProcessingResult = Success(text: string) | Failure(error: string)

  /** The line strings, top to bottom, of the fragments once sorted and grouped. */
  function Lines(frags: seq<Fragment>, tol: nat): (r: seq<string>)
    ensures r == [] <==> frags == []
  {
    LineTexts(Groups(SortByAnchor(frags), tol))
  }

  /**
   * What `process_image` returns for an image whose OCR result is
   * `detections`: the "no text" failure for an empty result, the general
   * failure when a bounding box has no first corner, and otherwise the
   * lines joined by newlines.
   */
  function Reconstruct(detections: seq<Detection>, tol: nat): (r: ProcessingResult)
    ensures r == Failure(NO_TEXT) <==> detections == []
    ensures r.Failure? <==>
      detections == [] || exists k :: 0 <= k < |detections| && detections[k].bbox == []
  {
    if detections == [] then Failure(NO_TEXT)
    else match Anchors(detections)
      case None => Failure(UNEXPECTED_PREFIX + INDEX_ERROR)
      case Some(frags) => Success(Join(Lines(frags, tol), "\n"))
  }

  /**
   * `process_image`: returns early when nothing was detected, builds the
   * anchor list, sorts it in place and sweeps it into lines.
   */
  method ProcessImage(detections: seq<Detection>, tol: nat) returns (r: ProcessingResult)
    ensures r == Reconstruct(detections, tol)
  {
    if |detections| == 0 {
      return Failure(NO_TEXT);
    }
    var anchors := Anchors(detections);
    if anchors.None? {
      return Failure(UNEXPECTED_PREFIX + INDEX_ERROR);
    }
    var frags := anchors.value;
    var a := new Fragment[|frags|](k requires 0 <= k < |frags| => frags[k]);
    assert a[..] == frags;
    SortInPlace(a);
    var lines := GroupLines(a[..], tol);
    r := Success(Join(lines, "\n"));
  }

  /**
   * What a call of `process_image` does as the handlers are written: it
   * returns a result, or an exception escapes from it.
   */
  datatype Outcome = Returned(result: ProcessingResult) | Raised(message: string)

  /**
   * Python's complaint when an `except` clause names a class that is not an
   * exception class; `easyocr.Reader` is such a class.
   */
  const TYPE_ERROR := "catching classes that do not inherit from BaseException is not allowed"

  /**
   * `process_image` with its handlers as written: the first clause,
   * `except easyocr.Reader`, is tested first whenever the body raises, and
   * testing it raises a `TypeError`, so the `IndexError` of an empty bounding
   * box never reaches the general clause. Every other input returns what
   * `Reconstruct` returns.
   */
  function ReconstructAsWritten(detections: seq<Detection>, tol: nat): (o: Outcome)
    ensures o.Raised? <==> detections != [] && exists k :: 0 <= k < |detections| && detections[k].bbox == []
    ensures o.Raised? ==> o.message == TYPE_ERROR
    ensures o.Returned? ==> o.result == Reconstruct(detections, tol) && o.result != Failure(UNEXPECTED_PREFIX + INDEX_ERROR)
  {
    if detections == [] then Returned(Failure(NO_TEXT))
    else match Anchors(detections)
      case None => Raised(TYPE_ERROR)
      case Some(frags) => Returned(Success(Join(Lines(frags, tol), "\n")))
  }

  /**
   * The discrepancy: one detection with an empty bounding box makes the code
   * as written raise, where the general handler was meant to turn the
   * `IndexError` into a failure result.
   */
  lemma HandlerRaisesOnEmptyBox(text: string, confidence: real, tol: nat)
    ensures ReconstructAsWritten([Detection([], text, confidence)], tol) == Raised(TYPE_ERROR)
    ensures Reconstruct([Detection([], text, confidence)], tol) == Failure(UNEXPECTED_PREFIX + INDEX_ERROR)
  {
    assert Anchors([Detection([], text, confidence)]).None?;
  }

  /**
   * The reading order does not depend on the order the reader reports the
   * fragments in, as long as fragments with the same anchor keep their order.
   */
  lemma LinesOrderIndependent(s: seq<Fragment>, t: seq<Fragment>, tol: nat)
    requires KeepsKeyOrder(t, s)
    ensures SortByAnchor(s) == SortByAnchor(t) && Lines(s, tol) == Lines(t, tol)
  {
    SortOrderIndependent(s, t);
  }

  /**
   * When fragments that share an anchor are identical (no two share a
   * corner with different texts), any reordering gives the same lines.
   */
  lemma LinesPermutationIndependent(s: seq<Fragment>, t: seq<Fragment>, tol: nat)
    requires multiset(s) == multiset(t) && TiesIdentical(s)
    ensures Lines(s, tol) == Lines(t, tol)
  {
    PermutationKeepsKeyOrder(s, t);
    LinesOrderIndependent(s, t, tol);
  }

  /** The same at the level of a whole reader result. */
  lemma ReconstructOrderIndependent(d: seq<Detection>, e: seq<Detection>, tol: nat)
    requires Anchors(d).Some? && Anchors(e).Some?
    requires KeepsKeyOrder(Anchors(e).value, Anchors(d).value)
    ensures Reconstruct(d, tol) == Reconstruct(e, tol)
  {
    LinesOrderIndependent(Anchors(d).value, Anchors(e).value, tol);
    assert |d| == |SortByAnchor(Anchors(d).value)| == |SortByAnchor(Anchors(e).value)| == |e|;
  }

  /** Reader results whose anchor lists are permutations with identical ties give the same result. */
  lemma ReconstructPermutationIndependent(d: seq<Detection>, e: seq<Detection>, tol: nat)
    requires Anchors(d).Some? && Anchors(e).Some?
    requires multiset(Anchors(d).value) == multiset(Anchors(e).value) && TiesIdentical(Anchors(d).value)
    ensures Reconstruct(d, tol) == Reconstruct(e, tol)
  {
    PermutationKeepsKeyOrder(Anchors(d).value, Anchors(e).value);
    ReconstructOrderIndependent(d, e, tol);
  }

  /**
   * Every fragment lands in exactly one line, in sorted order: the bands laid
   * end to end are the sorted fragments, a permutation of the input, and a
   * non-empty input gives at least one line.
   */
  lemma EveryFragmentOnce(frags: seq<Fragment>, tol: nat)
    ensures Flatten(Groups(SortByAnchor(frags), tol)) == SortByAnchor(frags)
    ensures multiset(Flatten(Groups(SortByAnchor(frags), tol))) == multiset(frags)
    ensures Texts(Flatten(Groups(SortByAnchor(frags), tol))) == Texts(SortByAnchor(frags))
    ensures frags != [] <==> |Lines(frags, tol)| >= 1
  {
    GroupsIsBanding(SortByAnchor(frags), tol);
    SortPermutes(frags);
  }

  /**
   * The lines of the sorted fragments: each one the texts of an (y, x)-sorted
   * band, its fragments within `tol` of its first, and the first fragments
   * of successive lines more than `tol` apart and rising.
   */
  lemma LinesAreOrderedBands(frags: seq<Fragment>, tol: nat)
    ensures var bands := Groups(SortByAnchor(frags), tol);
      && IsBanding(SortByAnchor(frags), bands, tol)
      && OrderedBands(bands, tol)
      && Lines(frags, tol) == LineTexts(bands)
  {
    SortSorted(frags);
    GroupsIsBanding(SortByAnchor(frags), tol);
    SortedBands(SortByAnchor(frags), tol);
  }

  lemma {:induction false} JoinAvoids(parts: seq<string>, sep: string, c: char)
    requires c !in sep
    requires forall k :: 0 <= k < |parts| ==> c !in parts[k]
    ensures c !in Join(parts, sep)
    decreases |parts|
  {
    if |parts| > 1 {
      JoinAvoids(parts[1..], sep, c);
    }
  }

  /** No line holds a character that no fragment's text holds. */
  lemma LinesAvoid(frags: seq<Fragment>, tol: nat, c: char)
    requires c != ' '
    requires forall k :: 0 <= k < |frags| ==> c !in frags[k].text
    ensures forall k :: 0 <= k < |Lines(frags, tol)| ==> c !in Lines(frags, tol)[k]
  {
    var sorted := SortByAnchor(frags);
    var bands := Groups(sorted, tol);
    GroupsIsBanding(sorted, tol);
    SortPermutes(frags);
    forall k | 0 <= k < |bands| ensures c !in LineText(bands[k]) {
      forall m | 0 <= m < |bands[k]| ensures c !in Texts(bands[k])[m] {
        FlattenMember(bands, k, m);
        assert bands[k][m] in multiset(frags);
        var i :| 0 <= i < |frags| && frags[i] == bands[k][m];
      }
      JoinAvoids(Texts(bands[k]), " ", c);
    }
  }

  /**
   * The success text reads back as its lines: when no fragment's text holds a
   * newline, splitting the text at newlines gives exactly the line strings,
   * one per band.
   */
  lemma SuccessSplitsIntoLines(frags: seq<Fragment>, tol: nat)
    requires frags != []
    requires forall k :: 0 <= k < |frags| ==> '\n' !in frags[k].text
    ensures Split(Join(Lines(frags, tol), "\n"), '\n') == Lines(frags, tol)
  {
    LinesAvoid(frags, tol, '\n');
    EveryFragmentOnce(frags, tol);
    SplitJoin(Lines(frags, tol), '\n');
  }

  /** Two detections go straight from their anchors to the sort and the sweep. */
  lemma {:induction false} ReconstructTwo(d: seq<Detection>, a: Fragment, b: Fragment, tol: nat)
    requires |d| == 2 && d[0].bbox != [] && d[1].bbox != []
    requires a == Fragment(d[0].bbox[0].y, d[0].bbox[0].x, d[0].text)
    requires b == Fragment(d[1].bbox[0].y, d[1].bbox[0].x, d[1].text)
    ensures Reconstruct(d, tol) == Success(Join(LineTexts(Groups(SortByAnchor([a, b]), tol)), "\n"))
  {
    var r := Anchors(d);
    assert r.Some? && r.value == [a, b];
  }

  /** Three detections whose anchors are already in order go straight to the sweep. */
  lemma {:induction false} ReconstructThree(d: seq<Detection>, a: Fragment, b: Fragment, c: Fragment, tol: nat)
    requires |d| == 3 && d[0].bbox != [] && d[1].bbox != [] && d[2].bbox != []
    requires a == Fragment(d[0].bbox[0].y, d[0].bbox[0].x, d[0].text)
    requires b == Fragment(d[1].bbox[0].y, d[1].bbox[0].x, d[1].text)
    requires c == Fragment(d[2].bbox[0].y, d[2].bbox[0].x, d[2].text)
    requires KeyLe(a, b) && KeyLe(b, c)
    ensures Reconstruct(d, tol) == Success(Join(LineTexts(Groups([a, b, c], tol)), "\n"))
  {
    var r := Anchors(d);
    assert r.Some? && r.value == [a, b, c];
    SortedIsFixed([a, b, c]);
  }

  /** An already sorted list is its own sorted form. */
  lemma SortedIsFixed(s: seq<Fragment>)
    requires Sorted(s)
    ensures SortByAnchor(s) == s
  {
    StableSortUnique(s, s);
  }

  /** Two fragments sorted: swapped exactly when the second is strictly before the first. */
  lemma SortTwo(a: Fragment, b: Fragment)
    ensures SortByAnchor([a, b]) == if KeyLe(a, b) then [a, b] else [b, a]
  {
    assert [a, b][..1] == [a] && [a][..0] == [];
    assert SortByAnchor([a]) == [a];
    assert SortByAnchor([a, b]) == Insert([a], b);
    assert [a][1..] == [] && Insert([], b) == [b];
  }

  /** The text of two bands of one fragment each. */
  lemma TextOfTwoBands(a: Fragment, b: Fragment)
    ensures Join(LineTexts([[a], [b]]), "\n") == a.text + "\n" + b.text
  {
    assert Texts([a]) == [a.text] && Texts([b]) == [b.text];
    assert LineTexts([[a], [b]]) == [a.text, b.text];
    assert [a.text, b.text][1..] == [b.text];
  }

  /** The text of one band of two fragments. */
  lemma TextOfOneBand(a: Fragment, b: Fragment)
    ensures Join(LineTexts([[a, b]]), "\n") == a.text + " " + b.text
  {
    assert Texts([a, b]) == [a.text, b.text];
    assert [a.text, b.text][1..] == [b.text];
    assert LineTexts([[a, b]]) == [a.text + " " + b.text];
  }

  /** The text of the bands [a, b] and [c]. */
  lemma TextOfTwoAndOne(a: Fragment, b: Fragment, c: Fragment)
    ensures Join(LineTexts([[a, b], [c]]), "\n") == a.text + " " + b.text + "\n" + c.text
  {
    assert Texts([a, b]) == [a.text, b.text] && Texts([c]) == [c.text];
    assert [a.text, b.text][1..] == [b.text];
    assert LineTexts([[a, b], [c]]) == [a.text + " " + b.text, c.text];
    assert [a.text + " " + b.text, c.text][1..] == [c.text];
  }

  /** The text of one band of three fragments. */
  lemma TextOfOneBandOfThree(a: Fragment, b: Fragment, c: Fragment)
    ensures Join(LineTexts([[a, b, c]]), "\n") == a.text + " " + b.text + " " + c.text
  {
    assert Texts([a, b, c]) == [a.text, b.text, c.text];
    assert [a.text, b.text, c.text][1..] == [b.text, c.text] && [b.text, c.text][1..] == [c.text];
    assert Join([b.text, c.text], " ") == b.text + " " + c.text;
    var line := a.text + " " + b.text + " " + c.text;
    assert a.text + " " + (b.text + " " + c.text) == line;
    assert LineText([a, b, c]) == line;
    assert LineTexts([[a, b, c]]) == [line];
  }

  /**
   * The tolerance bound is closed: a detection exactly `tol` below another
   * joins its line (y = 0 and y = 10 with the default tolerance).
   */
  lemma ToleranceInclusive(p: Point, ta: string, tb: string, ca: real, cb: real, tol: nat)
    ensures Reconstruct([Detection([p], ta, ca), Detection([Point(p.x, p.y + tol)], tb, cb)], tol)
            == Success(ta + " " + tb)
  {
    var a, b := Fragment(p.y, p.x, ta), Fragment(p.y + tol, p.x, tb);
    ReconstructTwo([Detection([p], ta, ca), Detection([Point(p.x, p.y + tol)], tb, cb)], a, b, tol);
    SortTwo(a, b);
    TwoFragmentGroups(a, b, tol);
    TextOfOneBand(a, b);
  }

  /** One unit past the bound opens a new line (y = 0 and y = 11 with the default tolerance). */
  lemma ToleranceExceeded(p: Point, ta: string, tb: string, ca: real, cb: real, tol: nat)
    ensures Reconstruct([Detection([p], ta, ca), Detection([Point(p.x, p.y + tol + 1)], tb, cb)], tol)
            == Success(ta + "\n" + tb)
  {
    var a, b := Fragment(p.y, p.x, ta), Fragment(p.y + tol + 1, p.x, tb);
    ReconstructTwo([Detection([p], ta, ca), Detection([Point(p.x, p.y + tol + 1)], tb, cb)], a, b, tol);
    SortTwo(a, b);
    TwoFragmentGroups(a, b, tol);
    TextOfTwoBands(a, b);
  }

  /** With the source's tolerance of 10: y = 0 and 10 share a line, y = 0 and 11 do not. */
  lemma DefaultToleranceBound(x: int, y: int, ta: string, tb: string)
    ensures Reconstruct([Detection([Point(x, y)], ta, 0.5), Detection([Point(x, y + 10)], tb, 0.5)],
                        DEFAULT_TOLERANCE) == Success(ta + " " + tb)
    ensures Reconstruct([Detection([Point(x, y)], ta, 0.5), Detection([Point(x, y + 11)], tb, 0.5)],
                        DEFAULT_TOLERANCE) == Success(ta + "\n" + tb)
  {
    ToleranceInclusive(Point(x, y), ta, tb, 0.5, 0.5, DEFAULT_TOLERANCE);
    ToleranceExceeded(Point(x, y), ta, tb, 0.5, 0.5, DEFAULT_TOLERANCE);
  }

  /**
   * The anchor does not drift: when each step down is within `tol` but the
   * third detection is more than `tol` below the first (y = 0, 9, 18 or
   * y = 0, 6, 12 with the default tolerance), the third opens a new line.
   */
  lemma AnchorDoesNotDrift(x: int, y: int, d1: nat, d2: nat, ta: string, tb: string, tc: string, tol: nat)
    requires d1 <= tol && d2 <= tol && d1 + d2 > tol
    ensures Reconstruct([Detection([Point(x, y)], ta, 0.5), Detection([Point(x, y + d1)], tb, 0.5),
                         Detection([Point(x, y + d1 + d2)], tc, 0.5)], tol) == Success(ta + " " + tb + "\n" + tc)
  {
    var a, b, c := Fragment(y, x, ta), Fragment(y + d1, x, tb), Fragment(y + d1 + d2, x, tc);
    ReconstructThree([Detection([Point(x, y)], ta, 0.5), Detection([Point(x, y + d1)], tb, 0.5),
                      Detection([Point(x, y + d1 + d2)], tc, 0.5)], a, b, c, tol);
    ThreeFragments(a, b, c, tol);
    TextOfTwoAndOne(a, b, c);
  }

  /** While the third detection stays within `tol` of the first (y = 0, 5, 10), all share one line. */
  lemma AnchorHoldsBand(x: int, y: int, d1: nat, d2: nat, ta: string, tb: string, tc: string, tol: nat)
    requires d1 + d2 <= tol
    ensures Reconstruct([Detection([Point(x, y)], ta, 0.5), Detection([Point(x, y + d1)], tb, 0.5),
                         Detection([Point(x, y + d1 + d2)], tc, 0.5)], tol) == Success(ta + " " + tb + " " + tc)
  {
    var a, b, c := Fragment(y, x, ta), Fragment(y + d1, x, tb), Fragment(y + d1 + d2, x, tc);
    ReconstructThree([Detection([Point(x, y)], ta, 0.5), Detection([Point(x, y + d1)], tb, 0.5),
                      Detection([Point(x, y + d1 + d2)], tc, 0.5)], a, b, c, tol);
    ThreeFragments(a, b, c, tol);
    TextOfOneBandOfThree(a, b, c);
  }

  /** With the source's tolerance of 10, y = 0, 6, 12 gives two lines: 12 is more than 10 below 0. */
  lemma DefaultToleranceAnchor(x: int, y: int, ta: string, tb: string, tc: string)
    ensures Reconstruct([Detection([Point(x, y)], ta, 0.5), Detection([Point(x, y + 6)], tb, 0.5),
                         Detection([Point(x, y + 6 + 6)], tc, 0.5)], DEFAULT_TOLERANCE)
            == Success(ta + " " + tb + "\n" + tc)
  {
    AnchorDoesNotDrift(x, y, 6, 6, ta, tb, tc, DEFAULT_TOLERANCE);
  }

  /** Within a line, x orders the words, whatever the detection order. */
  lemma LeftToRight(y: int, xl: int, xr: int, tl: string, tr: string, tol: nat)
    requires xl < xr
    ensures Reconstruct([Detection([Point(xr, y)], tr, 0.5), Detection([Point(xl, y)], tl, 0.5)], tol)
            == Success(tl + " " + tr)
  {
    var r, l := Fragment(y, xr, tr), Fragment(y, xl, tl);
    ReconstructTwo([Detection([Point(xr, y)], tr, 0.5), Detection([Point(xl, y)], tl, 0.5)], r, l, tol);
    SortTwo(r, l);
    TwoFragmentGroups(l, r, tol);
    TextOfOneBand(l, r);
  }

  /** Fragments at the very same anchor keep their detection order. */
  lemma TiesKeepDetectionOrder(p: Point, t1: string, t2: string, tol: nat)
    ensures Reconstruct([Detection([p], t1, 0.5), Detection([p], t2, 0.5)], tol) == Success(t1 + " " + t2)
  {
    var a, b := Fragment(p.y, p.x, t1), Fragment(p.y, p.x, t2);
    ReconstructTwo([Detection([p], t1, 0.5), Detection([p], t2, 0.5)], a, b, tol);
    SortTwo(a, b);
    TwoFragmentGroups(a, b, tol);
    TextOfOneBand(a, b);
  }

  /**
   * `process_images_in_parallel`: the results in input order, one per image,
   * whatever order the workers finish in.
   */
  function ProcessImages(images: seq<seq<Detection>>, tol: nat): (r: seq<ProcessingResult>)
    ensures |r| == |images|
    ensures forall i :: 0 <= i < |images| ==> r[i] == Reconstruct(images[i], tol)
    decreases |images|
  {
    if images == [] then []
    else [Reconstruct(images[0], tol)] + ProcessImages(images[1..], tol)
  }

  /** One image's result, a failure included, does not depend on the other images. */
  lemma FailureIsolated(images: seq<seq<Detection>>, i: nat, other: seq<Detection>, j: nat, tol: nat)
    requires i < |images| && j < |images| && i != j
    ensures ProcessImages(images[i := other], tol)[j] == ProcessImages(images, tol)[j]
  {
  }

  /** Processing a batch in consecutive chunks gives the same, same-ordered results. */
  lemma ChunkedBatch(first: seq<seq<Detection>>, rest: seq<seq<Detection>>, tol: nat)
    ensures ProcessImages(first + rest, tol) == ProcessImages(first, tol) + ProcessImages(rest, tol)
  {
    var whole, a, b := ProcessImages(first + rest, tol), ProcessImages(first, tol), ProcessImages(rest, tol);
    forall i | 0 <= i < |whole| ensures whole[i] == (a + b)[i] {
      if i < |first| {
        assert (first + rest)[i] == first[i];
      } else {
        assert (first + rest)[i] == rest[i - |first|];
      }
    }
  }

  /** What `list(executor.map(...))` gives: every result, or the first exception re-raised. */
  datatype BatchOutcome = Completed(results: seq<ProcessingResult>) | BatchRaised(message: string)

  /**
   * `process_images_in_parallel` with the handlers as written: collecting the
   * results re-raises the exception of the first image, in input order, whose
   * call raised, and then no image gets a result. Otherwise every image gets
   * its result, in input order.
   */
  function ProcessImagesAsWritten(images: seq<seq<Detection>>, tol: nat): (o: BatchOutcome)
    ensures o.BatchRaised? <==> exists i :: 0 <= i < |images| && ReconstructAsWritten(images[i], tol).Raised?
    ensures o.BatchRaised? ==> o.message == TYPE_ERROR
    ensures o.Completed? ==> o.results == ProcessImages(images, tol)
    decreases |images|
  {
    if images == [] then Completed([])
    else match ReconstructAsWritten(images[0], tol)
      case Raised(m) => BatchRaised(m)
      case Returned(r) =>
        match ProcessImagesAsWritten(images[1..], tol)
        case BatchRaised(m) => BatchRaised(m)
        case Completed(rest) => Completed([r] + rest)
  }

  /**
   * The discrepancy at the batch level: one empty box in one image aborts the
   * whole batch as written, where the intended handling gives that image a
   * failure and every other image its own result.
   */
  lemma BatchAbortsOnEmptyBox(images: seq<seq<Detection>>, i: nat, k: nat, tol: nat)
    requires i < |images| && k < |images[i]| && images[i][k].bbox == []
    ensures ProcessImagesAsWritten(images, tol) == BatchRaised(TYPE_ERROR)
    ensures ProcessImages(images, tol)[i] == Failure(UNEXPECTED_PREFIX + INDEX_ERROR)
  {
    assert ReconstructAsWritten(images[i], tol).Raised?;
  }
}
