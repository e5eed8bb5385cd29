/**
 * What the OCR reader hands to the layout reconstructor, and the anchor
 * point the reconstructor reads from each detection.
 *
 * A detection is a bounding quadrilateral (its corners as (x, y) points,
 * the first one the top-left corner in image coordinates, y growing
 * downwards), the recognised text and a confidence the core never reads.
 */
module Fragments {

  datatype Point = Point(x: int, y: int)

  datatype Detection = Detection(bbox: seq<Point>, text: string, confidence: real)

  /** One entry of `text_with_coordinates`: the anchor (y, x) and the text. */
  datatype Fragment = Fragment(y: int, x: int, text: string)

  /** Python's `IndexError` text, raised by `bbox[0]` on an empty bounding box. */
  const INDEX_ERROR := "list index out of range"

  /**
   * The list comprehension `[(bbox[0][1], bbox[0][0], text) for ...]`:
   * `None` exactly when some bounding box has no first corner (the
   * comprehension raises), otherwise one fragment per detection, in
   * detection order, anchored at the first corner.
   */
  function Anchors(detections: seq<Detection>): (r: Option<seq<Fragment>>)
    ensures r.None? <==> exists k :: 0 <= k < |detections| && detections[k].bbox == []
    ensures r.Some? ==> |r.value| == |detections|
    ensures r.Some? ==> forall k :: 0 <= k < |detections| ==>
      detections[k].bbox != [] &&
      r.value[k] == Fragment(detections[k].bbox[0].y, detections[k].bbox[0].x, detections[k].text)
    decreases |detections|
  {
    if |detections| == 0 then Some([])
    else
      var d := detections[0];
      if d.bbox == [] then None
      else match Anchors(detections[1..])
        case None => None
        case Some(rest) => Some([Fragment(d.bbox[0].y, d.bbox[0].x, d.text)] + rest)
  }

  /** The tuple order on the sort key `(y, x)`: lexicographic, y first. */
  predicate KeyLe(a: Fragment, b: Fragment): (r: bool)
    ensures a.y != b.y ==> (r <==> a.y < b.y)
    ensures a.y == b.y ==> (r <==> a.x <= b.x)
  {
    a.y < b.y || (a.y == b.y && a.x <= b.x)
  }

  predicate SameKey(a: Fragment, b: Fragment)
  {
    a.y == b.y && a.x == b.x
  }

  /** Ascending in `(y, x)`, text ignored. */
  predicate Sorted(s: seq<Fragment>)
  {
    forall i, j :: 0 <= i < j < |s| ==> KeyLe(s[i], s[j])
  }

  /** The texts of the fragments, in order. */
  function Texts(s: seq<Fragment>): (r: seq<string>)
    ensures |r| == |s|
    ensures forall k :: 0 <= k < |s| ==> r[k] == s[k].text
  {
    seq(|s|, k requires 0 <= k < |s| => s[k].text)
  }

  lemma TextsAppend(a: seq<Fragment>, b: seq<Fragment>)
    ensures Texts(a + b) == Texts(a) + Texts(b)
  {
    assert forall k :: 0 <= k < |a + b| ==> Texts(a + b)[k] == (Texts(a) + Texts(b))[k];
  }

  /** `KeyLe` is a total preorder: the sort key is well behaved. */
  lemma KeyLeTotalPreorder(a: Fragment, b: Fragment, c: Fragment)
    ensures KeyLe(a, a)
    ensures KeyLe(a, b) || KeyLe(b, a)
    ensures KeyLe(a, b) && KeyLe(b, c) ==> KeyLe(a, c)
    ensures KeyLe(a, b) && KeyLe(b, a) <==> SameKey(a, b)
  {
  }

  datatype Option<+T> = None | Some(value: T)
}
