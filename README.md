# Layout-preserving OCR text reconstruction, modelled in Dafny

This project models two parts of a small OCR web service.

The first is the part of `ImageProcessor.process_image` that runs after the OCR reader has
answered. The reader's answer is a list of detections: a bounding box, a text and a confidence.
From it the code builds the reading-order text:

- an empty answer is the failure "No text detected in the image.";
- each detection is reduced to the (y, x) of its box's first corner and its text;
- these fragments are sorted stably by (y, x);
- one sweep cuts them into lines. A fragment opens a new line when its y lies more than 10 pixels
  from the y of the first fragment of the current line; otherwise it joins the line;
- the words of a line are joined with single spaces and the lines with newlines.

`process_images_in_parallel` is modelled as the order-preserving map of that function over a batch.

The second is the upload filter `allowed_file` with `ALLOWED_EXTENSIONS = {'png', 'jpg', 'jpeg'}`.

Modules and files:

- `strings.dfy` (`Strings`): Python's `sep.join` and `s.split(c)`, with the round trip between them.
- `fragments.dfy` (`Fragments`): points, detections, fragments, the anchor extraction and the (y, x)
  key order.
- `anchor_sort.dfy` (`AnchorSort`): the sort.
  - The specification is a stable insertion sort, `SortByAnchor`.
  - `StableSortUnique` proves that a sequence is `SortByAnchor` of the input exactly when it is
    sorted and keeps the input order within every key. So every stable sort, the library's
    included, has the same result.
  - `SortInPlace` sorts an array in place, proved equal to the specification.
- `line_grouping.dfy` (`LineGrouping`): the sweep.
  - `Groups` is the specification, defined one loop turn (`Step`) at a time.
  - `IsBanding` describes the result independently: consecutive non-empty pieces, every fragment
    within the tolerance of its line's first fragment, every new line more than the tolerance away
    from the previous line's first fragment. `GroupsCharacterized` proves the two agree in both
    directions.
  - `GroupLines` is the loop itself, with `current_y` as an `Option<int>`, proved against `Groups`.
- `image_processor.dfy` (`ImageProcessor`): the whole `process_image`, the batch, and the
  as-written exception handling (see Findings).
- `upload.dfy` (`Upload`): `allowed_file`.

The tolerance is a parameter `tol` throughout. `DEFAULT_TOLERANCE` is the source's constant 10.

Each fragment is compared with the first fragment of its line, not with its neighbour. So y = 0, 6, 12
gives two lines: 12 − 0 > 10 (`DefaultToleranceAnchor`, `AnchorDoesNotDrift`).

`Reconstruct`, the imperative `ProcessImage` (proved equal to it), `ProcessImages` and the lemmas about
them describe the exception handling as intended:
an empty bounding box becomes a failure result for that image. As written, the handlers let that fault
escape, and then the whole batch raises; `ReconstructAsWritten` and `ProcessImagesAsWritten` model
that behaviour (see Findings).

## Model

| member | source | states |
|---|---|---|
| Strings.Join | image_processor.py:60 | `' '.join` / `'\n'.join`: no parts give "" and one part gives that part; its meaning is the round trip `SplitJoin` |
| Strings.SplitJoin | image_processor.py:71 | `'\n'.join` loses nothing: for at least one part (the empty list joins to "", which splits to `[""]`) and no part containing the separator, splitting the join gives back the parts |
| Fragments.Anchors | image_processor.py:44-47 | one fragment per detection, in detection order, with the (y, x) of the first corner and the text; no result exactly when some box is empty (`bbox[0]` raises) |
| Fragments.KeyLe | image_processor.py:50 | the key `(y, x)` compared as a tuple: y decides unless the ys are equal, then x |
| Fragments.KeyLeTotalPreorder | image_processor.py:50 | the key order is reflexive, total and transitive, and two fragments are mutually ordered exactly when their keys are equal |
| Fragments.Texts | image_processor.py:57 | the texts of the fragments, position by position |
| AnchorSort.SortByAnchor | image_processor.py:50 | `list.sort(key=...)` on the fragments: same length; sorted, a permutation and stable by the lemmas below |
| AnchorSort.SortSorted | image_processor.py:49-50 | the sorted list is ascending in (y, x) |
| AnchorSort.SortPermutes | image_processor.py:49-50 | the sorted list is a permutation of the input |
| AnchorSort.SortStable | image_processor.py:50 | fragments with the same (y, x) keep their detection order (the library sort is stable) |
| AnchorSort.SortedUnique | image_processor.py:50 | two sorted lists that keep the same order within every key are equal |
| AnchorSort.StableSortUnique | image_processor.py:49-50 | a list is the sort result exactly when it is sorted and keeps the input order within every key |
| AnchorSort.SortOrderIndependent | image_processor.py:50 | two inputs that agree on the order of every key's fragments sort to the same list |
| AnchorSort.PermutationKeepsKeyOrder | image_processor.py:50 | when fragments that share a key are identical (`TiesIdentical`, implied by distinct keys), any permutation of the input agrees with it on every key's order |
| AnchorSort.InsertInPlace | image_processor.py:50 | one insertion step in place: the first i+1 cells become the insertion of `a[i]` into the sorted prefix, and the rest are unchanged |
| AnchorSort.SortInPlace | image_processor.py:50 | the array sorted in place equals the specification applied to its old contents |
| LineGrouping.Step | image_processor.py:58-64 | one loop turn: the fragment joins the last band when it lies within `tol` of that band's first y, otherwise opens a band; no band is ever empty |
| LineGrouping.Groups | image_processor.py:52-68 | the sweep's lines: none exactly for no fragments, and no line is empty |
| LineGrouping.GroupsIsBanding | image_processor.py:52-68 | the lines are the input cut into consecutive non-empty pieces, each fragment within `tol` of its line's first, each new line more than `tol` from the previous first |
| LineGrouping.BandingIsGroups | image_processor.py:52-68 | any grouping with those properties is the sweep's result |
| LineGrouping.GroupsCharacterized | image_processor.py:52-68 | both directions: a grouping is the sweep's exactly when it has those properties |
| LineGrouping.SortedBands | image_processor.py:49-68 | on sorted input every line is sorted by (y, x) and each line's first y lies more than `tol` below the previous line's first y |
| LineGrouping.TwoFragmentGroups | image_processor.py:58 | two sorted fragments share a line exactly when the second is at most `tol` below the first (closed bound) |
| LineGrouping.ThreeFragments | image_processor.py:58-62 | for three sorted fragments the third is compared with the line's first fragment, not its neighbour: all four outcomes |
| LineGrouping.LineText | image_processor.py:60-68 | `' '.join(current_line)` for one band: no words give "", one word gives that word |
| LineGrouping.LineTextSplitsIntoWords | image_processor.py:60-68 | a line whose words hold no space splits at spaces back into its words |
| LineGrouping.LineTexts | image_processor.py:60-68 | one string per line, each the line's texts joined with single spaces |
| LineGrouping.SweepOpen | image_processor.py:58-62 | a turn that opens a line stores the pending line (if any), starts `[text]` and moves `current_y` to the fragment's y, keeping the loop state |
| LineGrouping.SweepJoin | image_processor.py:63-64 | a turn within the tolerance appends the text and leaves `current_y` unchanged, keeping the loop state |
| LineGrouping.SweepDone | image_processor.py:66-68 | storing the last pending line completes the list of line strings |
| LineGrouping.GroupLines | image_processor.py:53-68 | the loop's `lines` are the line strings of `Groups` |
| ImageProcessor.Lines | image_processor.py:50-68 | the line strings of the sorted, grouped fragments: none exactly when there are no fragments |
| ImageProcessor.Reconstruct | image_processor.py:37-76 | the "no text" failure exactly for an empty reader result; a failure exactly when the result is empty or a box is empty; otherwise the joined lines |
| ImageProcessor.ProcessImage | image_processor.py:37-76 | the imperative `process_image` (early return, anchor list, sort in place, sweep), with the intended handling, returns `Reconstruct` of its input |
| ImageProcessor.ReconstructAsWritten | image_processor.py:30-89 | with the handlers as written, an empty box makes the call raise a `TypeError`; every other input returns what `Reconstruct` returns |
| ImageProcessor.HandlerRaisesOnEmptyBox | image_processor.py:78-89 | one detection with an empty box: the code as written raises, the intended handling gives the "Unexpected error" failure |
| ImageProcessor.LinesOrderIndependent | image_processor.py:45-68 | the reader's order does not matter: inputs that agree on the order of each key's fragments give the same sorted list and the same lines |
| ImageProcessor.LinesPermutationIndependent | image_processor.py:45-68 | when no two fragments share a corner with different texts (exact duplicates allowed), any reordering of them gives the same lines |
| ImageProcessor.ReconstructPermutationIndependent | image_processor.py:37-76 | the same for whole reader results: anchor lists that are permutations with identical ties give the same result |
| ImageProcessor.ReconstructOrderIndependent | image_processor.py:37-76 | the same for whole reader results whose boxes all have a first corner: the same result |
| ImageProcessor.EveryFragmentOnce | image_processor.py:45-68 | the lines laid end to end are the sorted fragments, a permutation of the detections; non-empty input gives at least one line |
| ImageProcessor.LinesAreOrderedBands | image_processor.py:45-68 | the lines of an image are the texts of the sweep's groups of the sorted fragments, with the grouping and ordering properties above |
| ImageProcessor.LinesAvoid | image_processor.py:60-68 | a character other than space that no text contains occurs in no line |
| ImageProcessor.SuccessSplitsIntoLines | image_processor.py:71 | when no text holds a newline, splitting the success text at newlines gives the lines back |
| ImageProcessor.SortTwo | image_processor.py:50 | two fragments are swapped exactly when the second's key is strictly smaller |
| ImageProcessor.ToleranceInclusive | image_processor.py:58 | a detection exactly `tol` below another joins its line ("a b" for y = 0 and 10) |
| ImageProcessor.ToleranceExceeded | image_processor.py:58 | one unit more opens a new line ("a\nb" for y = 0 and 11) |
| ImageProcessor.DefaultToleranceBound | image_processor.py:58 | with the source's tolerance of 10: y = 0 and 10 give "a b", y = 0 and 11 give "a\nb" |
| ImageProcessor.DefaultToleranceAnchor | image_processor.py:58-62 | with the source's tolerance of 10: y = 0, 6, 12 gives "a b\nc" |
| ImageProcessor.AnchorDoesNotDrift | image_processor.py:58-62 | steps within `tol` that sum to more than `tol` give two lines (y = 0, 9, 18 and y = 0, 6, 12) |
| ImageProcessor.AnchorHoldsBand | image_processor.py:58-64 | three detections within `tol` of the first share one line (y = 0, 5, 10) |
| ImageProcessor.LeftToRight | image_processor.py:50 | on one y, words read by x whatever the detection order |
| ImageProcessor.TiesKeepDetectionOrder | image_processor.py:50 | detections at the same corner keep their detection order |
| ImageProcessor.ProcessImages | image_processor.py:91-105 | with the intended handling: one result per image, in input order, each the result of that image alone |
| ImageProcessor.FailureIsolated | image_processor.py:91-105 | with the intended handling: changing one image leaves every other image's result unchanged |
| ImageProcessor.ChunkedBatch | image_processor.py:91-105 | with the intended handling: processing a batch in two consecutive parts gives the same results in the same order |
| ImageProcessor.ProcessImagesAsWritten | image_processor.py:78-105 | with the handlers as written: the batch raises `TypeError` exactly when some image's call raises; otherwise it gives the intended results |
| ImageProcessor.BatchAbortsOnEmptyBox | image_processor.py:78-105 | one empty box in one image: the batch as written raises, where the intended handling gives that image the "Unexpected error" failure |
| Upload.LowerChar | app.py:47 | `str.lower()` on one character: an ASCII capital becomes its small letter, every other character is kept |
| Upload.Lower | app.py:47 | `str.lower()` on ASCII: same length, each character lower-cased |
| Upload.LastDot | app.py:47 | the position `rsplit('.', 1)` cuts at: a dot with no dot after it |
| Upload.Extension | app.py:47 | the text after the last dot: dot-free, and the name is head + "." + it |
| Upload.AllowedFile | app.py:47 | an accepted name contains a dot and has at least four characters |
| Upload.AllowedFileIff | app.py:37-47 | accepted exactly when some dot has no dot after it and the lower-cased text after it is in `ALLOWED_EXTENSIONS` |
| Upload.NoDotRejected | app.py:47 | a name without a dot is refused |
| Upload.AllowedFileSplit | app.py:47 | for a dot-free extension, head + "." + ext is accepted exactly when the lower-cased ext is allowed, whatever the head holds |
| Upload.AllowedFileCaseInsensitive | app.py:47 | a name and its lower-cased form get the same verdict |
| Upload.AllowedBySuffix | app.py:21-47 | accepted exactly when the lower-cased name ends with "." and an allowed extension |
| Upload.AcceptedExamples | app.py:21-47 | "….png", "….tar.png" and "….jpeg" are accepted, with any head, the empty one included |
| Upload.AcceptedAnyCase | app.py:47 | "….JPG" and "….JpEg" are accepted: the extension is lower-cased before the test |
| Upload.RejectedTrailingExtension | app.py:47 | "….png.txt" is refused |
| Upload.RejectedEmptyExtension | app.py:47 | a name ending in a bare dot is refused |
| Upload.RejectedOtherExtension | app.py:21-47 | "….gif" is refused |

## Left out

- The EasyOCR reader, its class-level `_reader` cache and `readtext` (image_processor.py:7-18, 35): a foreign model call. The model takes the reader's list of detections as its input.
- `np.array(image)` and every image type: an image is represented by its detections.
- Thread-pool concurrency in `process_images_in_parallel`: the model is the sequential, order-preserving map that `executor.map` returns.
- The `except easyocr.Reader` branch ("OCR failed: …") and every fault other than an empty bounding box. Reader faults cannot occur without the reader. The empty box is the one fault the modelled code can hit.
- Floating-point coordinates: coordinates are integers (`int`), and the tolerance test is on their difference.
- The confidence of a detection: carried, never read, as in the source.
- The fixed tolerance: it is a parameter `tol` here; the source fixes it at 10 (`DEFAULT_TOLERANCE`).
- Python's Timsort itself: the sort is modelled by insertion sort. `StableSortUnique` shows every stable sort gives the same list, so only the running time differs.
- Upload.Lower, Upload.LowerChar: `str.lower()` is modelled on ASCII letters only, and every other character is kept unchanged; Unicode case mapping is not modelled. The verdict of `AllowedFile` is still Python's on every name. The only non-ASCII character whose lower case is an ASCII letter is U+212A (KELVIN SIGN, to 'k'), and 'k' is in no allowed extension. U+0130 lower-cases to 'i' followed by a combining dot, which is not ASCII, so it cannot form an allowed extension either.
- The Flask routes, CORS, the response messages and status codes, `get_local_ip` and the `__main__` block (app.py:1-34, 49-130): web plumbing around the core.

## Findings

| source | as written | input that shows it | evidently intended | confidence | as-written member | corrected member |
|---|---|---|---|---|---|---|
| image_processor.py:78-89 | the first handler is `except easyocr.Reader`, and `Reader` is not an exception class. Python tests the clauses in order whenever the body raises. Testing this clause raises `TypeError`, so the general `except Exception` clause is never reached, and the fault escapes `process_image`. | one detection whose bounding box is empty, so `bbox[0]` raises `IndexError` | the fault is caught and returned as the failure "Unexpected error: list index out of range" | high (Python 3 exception-matching rules), not executed | ImageProcessor.ReconstructAsWritten, ImageProcessor.HandlerRaisesOnEmptyBox | ImageProcessor.Reconstruct |
| image_processor.py:103 | `list(executor.map(self.process_image, images))` re-raises the first exception a call raised, so the `TypeError` above escapes `process_images_in_parallel` and no image gets a result | a batch in which one image has a detection with an empty bounding box | every image gets its own result, the faulty one the "Unexpected error" failure | high (Python 3 exception-matching rules and `Executor.map` semantics), not executed | ImageProcessor.ProcessImagesAsWritten, ImageProcessor.BatchAbortsOnEmptyBox | ImageProcessor.ProcessImages, ImageProcessor.FailureIsolated |
