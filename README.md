# Box reconciliation of a PDF layout translator, in Dafny

The translator extracts text cells from a PDF page and detects math regions on the same page. It then reconciles the two sets of rectangles before translating the text. This project models that reconciliation engine and proves what it does:

- **`Geometry`, `Reconstruct`, `MathBoxFile`** (core/reconstruct_text_math_box.py):
  - the corner-to-box conversion;
  - the closed-edge overlap test and the overlap ratio;
  - the 40 % split of touching cells into *consumed* and *partial*;
  - the growth of each math box over its consumed cells;
  - cell numbering and the consumed/cut/remaining id bookkeeping;
  - the left-strip cut of partial cells;
  - the `pdf_coor.txt` line format.
- **`Suppress`** (translate-pdf-app_BACKEND/core/remove_overlapped.py): largest-first overlap suppression.
- **`MathFilter`** (core/remove_math_boxes.py and its copy remove_math_boxes.py): the margin containment filter.
- **`Contexts`** (core/extract_contexts.py and its identical copy core/detect_context.py): the paragraph-context query.

Around the engine are small self-contained helpers:

- **`TextPrep`**: spaced-heading normalisation and control-character cleaning, translate-pdf-app_BACKEND/core/preprocess_text.py. pipeline.py, ocr_my_pdf.py and fill_missing_rows.py hold copies.
- **`FontColor`**: 32-bit colour unpacking, core/extract_font_color.py. Copies are in pipeline.py, ocr_my_pdf.py, fill_missing_rows.py and detect_bbox.py.
- **`JsonBbox`**: the recursive `bbox` reshaper of fix_format.py.
- **`CsvLimit`**: the binary search for the CSV field-size limit, core/csv_utils.py. Copies are in fix_format.py, pipeline.py, ocr_my_pdf.py and fill_missing_rows.py.
- **`Language`**: the language-code table and `batch_translate_text` (grouping, batching with rate-limit back-off, write-back), core/translate_text.py. pipeline.py has the same table; fill_missing_rows.py has a shorter one.
- **`ApiManager`**: the key-selection and release policy of `ApiKeyManager`, translate-pdf-app_BACKEND/core/api_manager.py.
- **`ScaleLists`**: the in-place row-scaling helpers of detect_bbox.py.

How the source is represented:

- Coordinates are `real` and text is `seq<char>`. `PyStr` states the Python string operations the code uses: `strip`, `replace(sub, '')`, `count`, `split(' ')` and `join`.
- The dictionaries the extractor produces become datatypes holding only the keys the code reads. A key that may be absent is an `Option`, and a `KeyError` is a `None` result.
- The PDF text query used by the cut, the CSV limit check and the translator are function parameters.
- Pure Python functions become Dafny functions. Loops that append, count or write become methods with loop invariants, each proved equal to the function that specifies it.
- `ApiKeyManager` is a class whose methods update its four parallel lists.
- The in-place numbering of cells and the row scaling of detect_bbox.py work on arrays.

What the proofs show about the engine:

- **Touching edges.** A cell that only touches a math box on an edge passes `check_overlap`. It lands in the partial list with the all-zero rectangle, and its cut leaves the geometry unchanged.
- **Overlapping lists.** A cell can be in both the consumed list and the cut list, and can appear in either more than once.
- **Cutting in the file pipeline.** `reconstruct_text_cell_from_file` passes the remaining ids as the list of cells *not* to cut. No cut-list id is ever among them, so every entry of the cut list is cut.
- **Text removal.** The cut deletes every occurrence of the queried text, not only the first.

## Model

| member | source | states |
|---|---|---|
| Geometry.ConvertPointToBox | core/reconstruct_text_math_box.py:6-37 | Fails (the ValueError) exactly when x2 < x1 or y2 < y1. Otherwise the box starts at (x1, y1), has its far corner at (x2, y2), and has non-negative width and height. |
| Geometry.CheckOverlap | core/reconstruct_text_math_box.py:40-67 | False exactly when one rectangle lies strictly left of, right of, above or below the other, so a shared edge or corner counts as overlap. |
| Geometry.CheckOverlapMeansSharedPoint | core/reconstruct_text_math_box.py:51-67 | For rectangles of non-negative size, check_overlap holds if and only if the two closed rectangles share a point. |
| Geometry.CheckOverlapSymmetric | core/reconstruct_text_math_box.py:51-67 | The overlap test does not depend on the order of its arguments. |
| Geometry.Percent | core/reconstruct_text_math_box.py:111-112 | The ratio times the cell area is 100 times the overlap area. The ratio lies in (0, 100] when 0 < overlap ≤ cell area. |
| Geometry.OverlapRatio | core/reconstruct_text_math_box.py:70-115 | Gives the all-zero result whenever the intersection lacks positive width or positive height. A positive ratio implies that check_overlap holds and the intersection is positive. |
| Geometry.OverlapRatioPositive | core/reconstruct_text_math_box.py:89-115 | For a positive intersection: the cell has positive width and height, so the zero-area guard never fires. The reported rectangle is the intersection (max left and top, min right and bottom) and lies inside both inputs. The ratio is its percentage of the cell area, in (0, 100]. |
| Geometry.BoxIncreasement | core/reconstruct_text_math_box.py:151-199 | Both arms of each width and height rule give the bounding box: min x and y, max right and bottom edges, enclosing cell and box. |
| Geometry.BoxIncreasementMonotone | core/reconstruct_text_math_box.py:151-199 | A growth step never shrinks the box, and leaves it unchanged when the cell already lies inside it. |
| Reconstruct.ClassifyMembers | core/reconstruct_text_math_box.py:118-148 | The consumed list holds exactly the touching cells with ratio > 40. The partial list holds exactly the other touching cells paired with their overlap rectangle. Consumed cells overlap with positive area, an edge-touching cell is partial with the zero rectangle, and together the lists hold at most as many entries as there are cells. |
| Reconstruct.ClassifyAppend | core/reconstruct_text_math_box.py:135-148 | Both lists of a concatenation are the concatenations of the lists, so input order is preserved. |
| Reconstruct.GetBoxOverlap | core/reconstruct_text_math_box.py:118-148 | The loop returns (partial, consumed), in that order, equal to the two classifications. |
| Reconstruct.GrowAllIsBoundingBox | core/reconstruct_text_math_box.py:202-218 | The grown box encloses the start box and every listed cell. Each of its four edges is an edge of the start box or of some listed cell. |
| Reconstruct.GrowAllMonotone | core/reconstruct_text_math_box.py:213-218 | The result for any prefix of the list is enclosed by the result for the whole list, so no step shrinks the accumulator. |
| Reconstruct.BoxIncreasementFromList | core/reconstruct_text_math_box.py:202-218 | The loop returns the box unchanged for an empty list. Otherwise it returns the growth over the list, which encloses the box and every cell. |
| Reconstruct.BoxOverlapList | core/reconstruct_text_math_box.py:221-248 | Returns the classification of the cells and the math box grown over its consumed cells. |
| Reconstruct.Numbered | core/reconstruct_text_math_box.py:376-382 | Cell i gets id i + 1, with its rectangle and text unchanged. |
| Reconstruct.InsertCellId | core/reconstruct_text_math_box.py:357-382 | Numbers the array of cells 1..n in place, so the ids are distinct. |
| Reconstruct.MergedBoxes | core/reconstruct_text_math_box.py:417-448 | One merged box per math box. |
| Reconstruct.MergedBoxesAt | core/reconstruct_text_math_box.py:440-448 | The i-th merged box carries the id of the i-th math box and that box's growth over its own consumed cells. |
| Reconstruct.AllConsumedIdsMembers | core/reconstruct_text_math_box.py:431-432 | An id is in overlap_id_list if and only if some cell with that id is consumed by some math box. |
| Reconstruct.AllPartialsMembers | core/reconstruct_text_math_box.py:434-438 | An entry is in the cut list if and only if it is a partial entry of some math box. |
| Reconstruct.RemainIdsMembers | core/reconstruct_text_math_box.py:456 | The remain ids are exactly the cell ids found in neither the consumed-id list nor the cut-id list, and there are no more of them than cells. |
| Reconstruct.TouchedIsNotRemaining | core/reconstruct_text_math_box.py:417-456 | A cell that passes check_overlap against some math box has its id in the consumed ids or the cut ids. |
| Reconstruct.UntouchedIsRemaining | core/reconstruct_text_math_box.py:417-456 | With distinct ids, a cell that touches no math box is in neither id list. |
| Reconstruct.RemainMeansUntouched | core/reconstruct_text_math_box.py:417-456 | With distinct ids, a cell's id remains if and only if the cell touches no math box. |
| Reconstruct.ReconstructTextCell | core/reconstruct_text_math_box.py:385-463 | The four results: the merged boxes in math-box order, the consumed ids, the cut list, and the ids in neither list, in cell order. |
| Reconstruct.SharedAndRepeatedIds | core/reconstruct_text_math_box.py:431-438 | Take a cell inside a math box listed twice that also touches a third box on an edge. Its id appears twice among the consumed ids and once among the cut ids. |
| Reconstruct.RatioOfEnclosed | core/reconstruct_text_math_box.py:89-115 | A cell of positive size inside the box has ratio 100 and is reported as its own overlap rectangle. |
| Reconstruct.GetNewCell | core/reconstruct_text_math_box.py:272-297 | The cut copy has the same id, y, height and right edge, and x moved right by the overlap width. Its text is the old text with every occurrence of the stripped queried text deleted, never longer, and unchanged when the query is blank. |
| Reconstruct.CutShrinks | core/reconstruct_text_math_box.py:289-295 | The cut never widens a partial cell. For a positive overlap, width and area strictly drop and the width stays non-negative. For an edge-touching cell the rectangle is unchanged. |
| Reconstruct.CutsMembers | core/reconstruct_text_math_box.py:299-308 | The result holds exactly the cut copies of the entries whose id is not in no_cutted_cell_id, and no more entries than the input. |
| Reconstruct.CutCellsBox | core/reconstruct_text_math_box.py:251-308 | The loop returns the cut copies of the entries not skipped, in order. |
| Reconstruct.CutsWithoutSkip | core/reconstruct_text_math_box.py:301-306 | When no entry's id is to be skipped, entry k of the result is the cut copy of entry k. |
| Reconstruct.FromFileCutsEveryPartial | core/reconstruct_text_math_box.py:480-482 | Passing the remain ids as no_cutted_cell_id cuts every cut-list entry, in order. |
| PyStr.Strip | core/reconstruct_text_math_box.py:293 | `strip()` is the slice of the text left after a prefix and a suffix made only of whitespace, and it neither starts nor ends with whitespace. |
| PyStr.RemoveAllLength | core/reconstruct_text_math_box.py:293 | `replace(pat, '')` deletes exactly len(pat) characters per removed occurrence and never lengthens the text. It leaves the text unchanged for an empty pattern and removes at least one occurrence when the pattern occurs. |
| PyStr.RemoveAllSinglePass | core/reconstruct_text_math_box.py:293 | One pass does not remove occurrences the removal creates: "aabb" stays "ab". |
| MathBoxFile.Trunc | core/reconstruct_text_math_box.py:344 | `int()` of a float truncates toward zero. |
| MathBoxFile.ParseLine | core/reconstruct_text_math_box.py:338-352 | A line gives a box if and only if it has five tokens that all parse. The id is truncated, (x, y) is the first corner and the far corner is the second. |
| MathBoxFile.LoadedMembers | core/reconstruct_text_math_box.py:336-354 | The loaded boxes are exactly the parses of the well-formed lines, at most one per line. |
| MathBoxFile.LoadMathBoxes | core/reconstruct_text_math_box.py:333-354 | The loop keeps the parses of the well-formed lines, in line order. |
| MathBoxFile.WrittenLineRoundTrip | core/reconstruct_text_math_box.py:512 | A line written as `id x y width height` reads back as the same box if and only if the box starts at x = 0, y = 0. |
| MathBoxFile.WrittenLineMisread | core/reconstruct_text_math_box.py:512 | Box 3 at (12.5, 13.4) of size 37.8 × 47.2 reads back as 25.3 × 33.8. |
| MathBoxFile.CornerLineRoundTrip | core/reconstruct_text_math_box.py:342-349 | A line in the loader's corner form reads back as exactly its box. |
| MathBoxFile.CornerFileRoundTrip | core/reconstruct_text_math_box.py:336-354 | Writing boxes in corner form and loading the lines gives the same boxes in the same order. |
| Suppress.IsOverlap | translate-pdf-app_BACKEND/core/remove_overlapped.py:5-13 | True if and only if the corners are identical or both open coordinate intervals overlap. |
| Suppress.IsOverlapSymmetric | translate-pdf-app_BACKEND/core/remove_overlapped.py:5-13 | The test does not depend on the order of its arguments. |
| Suppress.IsOverlapEdges | translate-pdf-app_BACKEND/core/remove_overlapped.py:10-13 | Every box, even one of zero area, overlaps itself. Boxes of positive width that share only a vertical edge do not overlap. |
| Suppress.AreaOfOrderedBox | translate-pdf-app_BACKEND/core/remove_overlapped.py:15-18 | For ordered corners the area is non-negative, and positive exactly when both extents are. |
| Suppress.SortDescCorrect | translate-pdf-app_BACKEND/core/remove_overlapped.py:26 | `sorted(..., reverse=True)` gives a permutation sorted by descending key, with equal keys kept in input order. |
| Suppress.RemoveOverlappedCorrect | translate-pdf-app_BACKEND/core/remove_overlapped.py:20-41 | The kept list is a subsequence of the boxes sorted by descending area, is itself so sorted, and holds no two intersecting boxes. Every input box is kept or intersects a kept box of at least its area. For non-empty input the first kept box is the earliest box of largest area. |
| Suppress.KeepDisjoint | translate-pdf-app_BACKEND/core/remove_overlapped.py:32-39 | A list in which no two boxes intersect is kept whole. |
| Suppress.RemoveOverlappedIdempotent | translate-pdf-app_BACKEND/core/remove_overlapped.py:20-41 | Suppressing the output again returns the same list. |
| Suppress.AnyHit | translate-pdf-app_BACKEND/core/remove_overlapped.py:35-36 | The query finds a hit if and only if some kept box intersects the box. |
| Suppress.RemoveOverlappedBoxes | translate-pdf-app_BACKEND/core/remove_overlapped.py:20-41 | Sort, then keep each box that intersects no box kept so far. |
| MathFilter.Grown | core/remove_math_boxes.py:31-34 | The math box grown by 9 on every side. remove_math_boxes.py:125-128 uses the same constants (remove_math_boxes.py:8-9). |
| MathFilter.IsInsideMathBox | core/remove_math_boxes.py:9-43 | On different pages the result is false, a missing page counting as 1. On the same page it is a KeyError when a coordinate is missing. Otherwise it is true if and only if the text box lies inside the grown math box, edges included. The copy at remove_math_boxes.py:103-137 is identical. |
| MathFilter.StraddlingIsNotInside | core/remove_math_boxes.py:36-41 | A text box straddling the grown left edge is not "inside", although the doc-comment speaks of overlap. |
| MathFilter.InsideAny | core/remove_math_boxes.py:61-65 | The scan reports "in no math box" if and only if every math box answers false. |
| MathFilter.ScanMathBoxes | core/remove_math_boxes.py:61-65 | The flag-and-break loop computes that scan, stopping at the first containing box. |
| MathFilter.FilteredDefined | core/remove_math_boxes.py:45-71 | When every text/math pair can be compared, the filter raises no KeyError. |
| MathFilter.FilteredMembers | core/remove_math_boxes.py:57-71 | The result is an order-preserving subsequence holding exactly the text boxes inside no math box. |
| MathFilter.FilteredNoMath | core/remove_math_boxes.py:57-71 | With no math boxes the text boxes come back unchanged. |
| MathFilter.FilteredIdempotent | core/remove_math_boxes.py:45-71 | Filtering twice with the same math boxes equals filtering once. |
| MathFilter.FilterTextBoxes | core/remove_math_boxes.py:45-71 | The loop keeps the uncontained text boxes in order, or raises the KeyError. The copy at remove_math_boxes.py:139-165 is identical. |
| MathFilter.FilteredAbortsAfter | core/remove_math_boxes.py:57-69 | A KeyError on a prefix of the text boxes aborts the whole call. |
| Contexts.ContextsOfSingle | core/extract_contexts.py:26-37 | A PDFPig box contributes its text ("" when missing) if and only if its "Page" equals the PyMuPDF box's "page" (both default 1) and the rectangles overlap with positive width and height. Missing coordinates count as 0. |
| Contexts.ContextsOfAppend | core/extract_contexts.py:26-37 | Contexts of a concatenation are the concatenated contexts, so PDFPig order is kept. |
| Contexts.OverlapSymmetric | core/extract_contexts.py:35-36 | The overlap condition does not depend on the order of the rectangles. |
| Contexts.FlatBoxHasNoContext | core/extract_contexts.py:35-36 | A PyMuPDF box of zero width or height, a missing size included, has no context. |
| Contexts.OtherPageIgnored | core/extract_contexts.py:23-28 | PDFPig boxes on other pages give no context. |
| Contexts.GetContexts | core/extract_contexts.py:3-39 | The loop returns the texts of the same-page, positively overlapping boxes, in order. core/detect_context.py:3-39 is identical. |
| Contexts.GetAllContexts | core/extract_contexts.py:41-48 | The keys are exactly 0..n-1, and key i maps to the contexts of box i. |
| CsvLimit.FindMaxCsvFieldSize | core/csv_utils.py:3-16 | Terminates with a result in [1024, 2147483647]. The result is 1024 or accepted, and is the top of the range or its successor is refused, so it is 2147483647 when every size is accepted. The copy is at fix_format.py:7-19. |
| CsvLimit.ResultIsLargestAccepted | core/csv_utils.py:4-16 | When acceptance is downward closed and 1024 is accepted, the result is accepted and no larger size in range is. |
| JsonBbox.Transform | fix_format.py:25-49 | Lists keep their length, objects stay objects and scalars come back unchanged. |
| JsonBbox.TransformItemsAt | fix_format.py:44-47 | Item k of a list becomes the transform of item k. |
| JsonBbox.TransformEntriesAt | fix_format.py:40-42 | Entry k of an object keeps its key and gets the transform of its value. |
| JsonBbox.GetTransformEntries | fix_format.py:40-42 | Looking a key up after the value pass gives the transform of the value it had. |
| JsonBbox.BboxConverted | fix_format.py:29-38 | An object whose "bbox" is a list of at least 4 items gets x, y, width, height from its first four items, overwriting earlier ones, and loses "bbox". |
| JsonBbox.BboxKept | fix_format.py:29 | An object without such a "bbox" keeps its keys; only its values are transformed. |
| JsonBbox.OtherKeys | fix_format.py:40-42 | Keys other than the five rewritten ones keep their transformed value. |
| JsonBbox.NoLongBboxAfter | fix_format.py:29-38 | After the rewrite no object has a "bbox" list of at least four items. |
| JsonBbox.TransformIdempotent | fix_format.py:25-49 | Transforming the output again changes nothing. |
| TextPrep.NormalizeUnchanged | translate-pdf-app_BACKEND/core/preprocess_text.py:1-24 | Text of length ≤ 3, or without a space, comes back unchanged. |
| TextPrep.NormalizeOddSpaces | translate-pdf-app_BACKEND/core/preprocess_text.py:7-9 | When every odd position holds a space, the result is the even-indexed characters. |
| TextPrep.NormalizeSplitJoin | translate-pdf-app_BACKEND/core/preprocess_text.py:12-21 | Otherwise, with spaces ≥ non-spaces − 1, the result splits on single spaces and joins, each empty piece becoming one space. |
| TextPrep.SplitJoinNonSpaces | translate-pdf-app_BACKEND/core/preprocess_text.py:19-21 | The split and join keeps the non-space characters in order. |
| TextPrep.SplitJoinLength | translate-pdf-app_BACKEND/core/preprocess_text.py:19-21 | The join is at most one character longer than the text, and no longer once the text has a non-space character. |
| TextPrep.NormalizeKeepsLetters | translate-pdf-app_BACKEND/core/preprocess_text.py:1-24 | In every branch the non-space characters survive in order and the text never grows. pipeline.py:65-88, ocr_my_pdf.py:195-218 and fill_missing_rows.py:43-66 are the same function. |
| TextPrep.CleanedText | translate-pdf-app_BACKEND/core/preprocess_text.py:52-56 | The output holds no replaced character and no control character other than newline, return and tab, and is never longer. |
| TextPrep.RemoveAllChar | translate-pdf-app_BACKEND/core/preprocess_text.py:52-53 | Replacing a single character by '' drops every occurrence of it. |
| TextPrep.CleanedIsTwoFilters | translate-pdf-app_BACKEND/core/preprocess_text.py:51-56 | The replacement loop followed by the control-character filter keeps exactly the kept characters. |
| TextPrep.CleanText | translate-pdf-app_BACKEND/core/preprocess_text.py:27-56 | A non-string value comes back unchanged. A string comes back cleaned. pipeline.py:268-297 is the same function. |
| TextPrep.CleanedSubseq | translate-pdf-app_BACKEND/core/preprocess_text.py:52-56 | The output is a subsequence of the input, and holds a character if and only if the input does and it is kept. |
| TextPrep.CleanedFixed | translate-pdf-app_BACKEND/core/preprocess_text.py:55-56 | Text made only of kept characters is unchanged. |
| TextPrep.CleanedIdempotent | translate-pdf-app_BACKEND/core/preprocess_text.py:27-56 | Cleaning twice equals cleaning once. |
| TextPrep.NormalizeSpacedWords | translate-pdf-app_BACKEND/core/preprocess_text.py:1-21 | Two letter-spaced words separated by two spaces (the docstring's "F I N A N C I A L  S T A T E M E N T S") take the second branch and come back as the words joined by one space. |
| TextPrep.SpacedSplit | translate-pdf-app_BACKEND/core/preprocess_text.py:19-21 | Splitting a letter-spaced word followed by a space gives its letters one piece each, ahead of the pieces of the rest. |
| TextPrep.SpacedJoin | translate-pdf-app_BACKEND/core/preprocess_text.py:19-21 | Splitting and joining a letter-spaced word gives the word back. |
| TextPrep.SpacedWordsCount | translate-pdf-app_BACKEND/core/preprocess_text.py:14-18 | Two letter-spaced words separated by two spaces have as many spaces as letters. |
| TextPrep.NetLossHeading | translate-pdf-app_BACKEND/core/preprocess_text.py:1-21 | "N E T  L O S S" normalizes to "NET LOSS". |
| FontColor.IntToRgb | core/extract_font_color.py:1-14 | Four components, each in 0..255, and an alpha that is never 0. pipeline.py:49-62, ocr_my_pdf.py:180-193, fill_missing_rows.py:28-41 and detect_bbox.py:6-19 are the same function. |
| FontColor.BytesOfLow32 | core/extract_font_color.py:3-9 | Each of the four bytes read is that of the value masked to 32 bits. |
| FontColor.Low32Only | core/extract_font_color.py:3-9 | The output depends only on the input modulo 2^32. |
| FontColor.PackRoundTrip | core/extract_font_color.py:6-14 | A colour with r in bits 16–23, g in 8–15, b in 0–7 and a in 24–31 unpacks as [r, g, b, a], with alpha 0 turned into 255. |
| Language.MapUnchangedIff | core/translate_text.py:11-24 | A code comes back unchanged if and only if it is not a key of the table. The same holds for the shorter table of fill_missing_rows.py:364-375. |
| Language.ValuesAreNotKeys | core/translate_text.py:12-22 | No code the table produces is itself a key. |
| Language.ShortValuesAreNotKeys | fill_missing_rows.py:364-375 | The same for the seven-entry table. |
| Language.MapIdempotent | core/translate_text.py:11-24 | Mapping a mapped code again changes nothing, for both tables. |
| Language.ShortTableDiffers | fill_missing_rows.py:364-375 | The two tables agree except on "zh-hans" and "zh-hant", which the short table passes through. |
| Language.Group | core/translate_text.py:44-48 | A language group holds exactly the positions of the items in that language, in increasing order. |
| Language.SingleLanguage | core/translate_text.py:44-48 | Items all in one language form a single group holding every position. |
| Language.TranslateBatch | core/translate_text.py:68-84 | The inner loop over one batch, with the batch size it leaves: each text's translation, or the text itself when the call raises, and after a rate-limit error ("429" in the message, or "too many requests" once lower-cased) the batch size halves, never below 1. |
| Language.BatchCallsResults | core/translate_text.py:68-84 | A batch yields each text translated or, when its call raises, kept, in order, and never grows the batch size. |
| Language.BatchCallsUnlimited | core/translate_text.py:80-83 | Without a rate-limit error the batch size stays as it was. |
| Language.TranslateGroup | core/translate_text.py:62-90 | The translated_batch of a group outside the target language: strides at 0, s, 2s, … for the batch size s the range was built with, each taking as many texts as the current batch size allows. |
| Language.StridesUnlimited | core/translate_text.py:62-86 | Without rate-limit errors translated_batch is every text of the group, translated or kept, in order, and the batch size is unchanged. |
| Language.StridesLength | core/translate_text.py:64-86 | translated_batch is never longer than its group, and the batch size never grows. |
| Language.RateLimitDropsTexts | core/translate_text.py:64-83 | A rate-limit error on the first text of a group of more than one and a half strides (batch size at least 2) leaves translated_batch shorter than the group. |
| Language.CorrectedStridesComplete | core/translate_text.py:64-86 | Strides that advance by the batch they took yield every text of the group, translated or kept, in order, whatever the calls raise. |
| Language.WriteBack | core/translate_text.py:92-94 | Writes the pairs `zip` forms, in order, into the results list in place, and fails exactly when `WriteAll` does: at the first index outside the list, with Python's negative indexing. The loop at 52-53 is the same write. |
| Language.WriteAllZip | core/translate_text.py:93-94 | Only the pairs `zip` forms are written; the extra entries of the longer list are ignored. |
| Language.WriteAllNoneIff | core/translate_text.py:92-94 | With as many values as indices, the writes fail if and only if some index is outside the list. |
| Language.TranslateLangGroup | core/translate_text.py:50-94 | One language group on the results list in place. A group in the target language is copied. A batch size of 0 fails, since `range` raises ValueError. A negative one writes nothing. Otherwise the group is translated in strides and written back. |
| Language.BatchTranslateText | core/translate_text.py:27-96 | Returns the result of running the groups in order of first appearance from a list of "" slots, carrying the batch size from group to group. It is None when a write or a `range` raises, and otherwise has one slot per item. |
| Language.RunUnlimited | core/translate_text.py:50-94 | Without rate-limit errors, and with a positive batch size, the run writes each group's stored texts to its indices, and the batch size stays. |
| Language.NoRateLimitPlacement | core/translate_text.py:27-96 | With a positive batch size and no rate-limit error, the call fails (IndexError) exactly when some orig_idx is outside the list. Otherwise every slot is "" or the stored text of an item with that index. With distinct indices, every item's slot holds its stored text: the text itself in the target language, otherwise its translation, or the text when the call raises. |
| Language.LangsCover | core/translate_text.py:44-48 | Every item's language is a key of lang_groups. |
| Language.LangsDistinct | core/translate_text.py:44-48 | Each language is a key only once. |
| Language.RateLimitShiftsTranslations | core/translate_text.py:64-94 | Five English texts go to Vietnamese at batch size 2, and the call for the first is rate limited. The strides at 0, 2 and 4 take [a, b], [c] and [e]. The result is ["a", "b!", "c!", "e!", ""]: text 3 is never translated, slot 3 holds text 4's translation, and slot 4 stays "". |
| ApiManager.GetConfig | translate-pdf-app_BACKEND/core/api_manager.py:39-54 | The configuration names the requested model, and in every row the per-minute request limit is below the per-day one, which is below the per-minute token limit. |
| ApiManager.ApiKeyManager.constructor | translate-pdf-app_BACKEND/core/api_manager.py:57-63 | The four lists start empty. |
| ApiManager.ApiKeyManager.AddModel | translate-pdf-app_BACKEND/core/api_manager.py:65-71 | Appends the model and rate limiter, an available flag and a zero count, so the lists keep equal length. |
| ApiManager.ApiKeyManager.GetNextAvailableModel | translate-pdf-app_BACKEND/core/api_manager.py:84-112 | Returns the first available key with no workers if there is one, else the earliest available key with the fewest workers. Only that key's count changes, by +1, and no flag changes. With no available key nothing changes and the result is (None, None, −1). |
| ApiManager.ApiKeyManager.MarkBusy | translate-pdf-app_BACKEND/core/api_manager.py:114-122 | A no-op out of range. Marking busy clears the flag and keeps the count. Marking free sets the flag and decrements the count, floored at 0. |
| ApiManager.ApiKeyManager.Size | translate-pdf-app_BACKEND/core/api_manager.py:124-126 | The number of models, equal to the length of the other lists. |
| ApiManager.TakeThenRelease | translate-pdf-app_BACKEND/core/api_manager.py:114-122 | Taking a key and then releasing it restores its worker count. |
| ScaleLists.MultiplyList | detect_bbox.py:114-117 | Every entry of every row is multiplied by the multiplier, in place, and the row lengths are kept. |
| ScaleLists.ScaledByOne | detect_bbox.py:114-117 | A multiplier of 1 leaves a row unchanged. |
| ScaleLists.ScaleEntryOfRows | detect_bbox.py:119-125 | Succeeds exactly when every row has the entry. The entry is then multiplied, not added to, in every row, with the other entries and the row lengths unchanged. Otherwise the rows before the first short row are scaled and the rest are untouched (the IndexError). |
| ScaleLists.MoveDownList | detect_bbox.py:119-121 | Succeeds exactly when every row has entry 1, which is then multiplied by `down` in each row. Otherwise the rows before the first short row are updated and the rest are untouched. |
| ScaleLists.MoveRightList | detect_bbox.py:123-125 | Succeeds exactly when no row is empty, and entry 0 of each row is then multiplied by `right`. Otherwise the rows before the first empty row are updated and the rest are untouched. |

## Left out

- File and PDF I/O. This covers opening `pdf_coor.txt` and the cell JSON, `fitz.open`, the writes of export_math_boxes_and_text_cells, `save_filtered_boxes`, the file search and `eval` of remove_math_boxes.py's load_math_boxes, and logging. These are calls into the file system and libraries.
- `page.get_textbox` is the parameter `query` of the cut. What the PDF library returns for a rectangle is not visible.
- `float()` parsing of the tokens of a `pdf_coor.txt` line. Tokens arrive already parsed, as finite reals or as a token `float()` rejects. The tokens `inf` and `nan`, which `float()` accepts, are not modelled:
  - An `inf` id makes `int()` raise OverflowError, which the loader does not catch.
  - A `nan` id makes `int()` raise ValueError, which is caught at core/reconstruct_text_math_box.py:351, so the line is skipped.
  - `inf` or `nan` in a coordinate raises nothing; the box gets an infinite or NaN width or height (342-349).
- The R-tree of remove_overlapped_boxes. It is replaced by a scan of the kept list with `is_overlap`. The library's own boundary rule, under which boxes that only touch may count as hits, is a foreign library's behaviour and is not modelled.
- Python's sort algorithm. `sorted(..., reverse=True)` is modelled by a stable insertion sort proved sorted, permuting and stable, which is what Timsort guarantees.
- Floating point. Coordinates, areas and ratios are exact reals, so rounding and NaN are not modelled.
- Aliasing of dictionaries and lists. Cells, boxes, JSON values and detect_bbox rows are values. Mutating a dict that another list also holds, or a row shared between two outer slots, is not captured.
  - The JSON rewrite is modelled as a function returning the new tree, not as an in-place update.
  - A JSON object is a list of entries. Deleting "bbox" removes every entry with that key, as a Python dict holds only one.
- reconstruct_text_cell_from_file beyond its calls at core/reconstruct_text_math_box.py:478-482. The final list comprehension and concatenation at 484-486 are not modelled separately.
- A cell or math box missing one of its keys in reconstruct_text_math_box.py (a KeyError there). The cell and box datatypes always have every field.
- In batch_translate_text:
  - The translator is the function parameter `translate`, a function of the source language and the text. A call returns a translation or raises an exception, given by its message. The same text in the same language always gets the same outcome.
  - The delays and sleeps are left out: the doubling of `delay`, `time.sleep(5)` and the sleep between batches. The model assumes `delay >= 0`, and for such a delay they change timing, not what is stored. A negative `delay` is different. Doubling keeps its sign, and `time.sleep` at core/translate_text.py:90 raises ValueError on it. So whenever `i + batch_size < len(texts)` holds after a batch (core/translate_text.py:89), the whole call raises, although `Language.BatchTranslated` returns a result there. A NaN `delay` is among the float values left out above. The default `delay=0` (core/translate_text.py:27) meets the assumption, and translate_cells passes no delay (core/translate_text.py:137).
  - The rate-limit test lower-cases ASCII letters only, where Python's `lower()` folds every letter. The only non-ASCII letters that lower-case to ASCII ones become "i" and "k", neither of which is in "too many requests", so the test finds the phrase in the same messages.
  - The construction of GoogleTranslator, and any error it raises for an unsupported language, is not modelled.
  - Language.NoRateLimitPlacement is stated for a positive batch size with no rate-limit error. A batch size of 0 or below, and the effect of rate limits on placement, are covered by BatchTranslateText, TranslateLangGroup, RateLimitDropsTexts and RateLimitShiftsTranslations.
  - An orig_idx outside the list makes the whole call fail, so the writes made before the IndexError are not part of the result.
- translate_cells in core/translate_text.py is not part of this model. It indexes `results` by cell position while sizing it by the number of texts.
- In ApiKeyManager: the lock, the wait condition, the clock and the timeout loop. get_next_available_model is one selection pass; with no available key, that pass gives the values the timed-out call returns. Model handles and rate limiters are opaque type parameters.
- ApiManager.GetConfig: its contract states only the echoed model and the ordering of the limits; the six concrete rows are its body. The ValueError branch cannot be reached, because the argument has the six-value enum type.
- `csv.field_size_limit` is the parameter `accepts`. Its side effect of setting the limit, and the module-level call that sets it at import, are left out.
- get_pymupdf_boxes_from_context (core/extract_contexts.py:84, core/detect_context.py:84) is not part of this model. Its one-argument `list.insert` raises TypeError.
- core/extract_math_boxes.py is not part of this model. It builds each box but never appends it.
- The PDF layout detectors, the renderers, the rescalers, the OCR and the web front end and server are not part of this model.

## Findings

| source | as written | input that shows it | evidently intended | confidence | as-written member | corrected member |
|---|---|---|---|---|---|---|
| core/translate_text.py:64 | `range(0, len(texts), batch_size)` is built once per group, but a rate-limit error halves `batch_size` (83) for the slices at 65. Later strides still advance by the original step and take fewer texts, so texts are skipped. `zip` at 93 then pairs the shorter translated_batch with the indices, shifting translations into the wrong slots and leaving the last slots "". | 5 English texts, batch size 2, the first call rate limited: the result is ["a", "b!", "c!", "e!", ""]. With the default 25 and 40 texts, a 429 on text 0 leaves slots 37..39 "". | advance each stride by the batch it took, so every text is translated or kept in its own slot | not executed | Language.RateLimitShiftsTranslations | Language.CorrectedStridesComplete |
| core/reconstruct_text_math_box.py:512 | export_math_boxes_and_text_cells writes each merged box as `id x y width height`, which is what its own docstring (core/reconstruct_text_math_box.py:492) documents. So the writer does what it documents, and the clash is between two docstrings and the code around them. Every other reader and writer of a `pdf_coor.txt` file uses corner form: load_math_boxes (core/reconstruct_text_math_box.py:342-349) and core/extract_math_boxes.py:37-45 read the last two numbers as the far corner, and core/detect_math_images.py:36 and translate-pdf-app_BACKEND/core/detect_math_images.py:114 write scaled corners. Reading the exported file back therefore changes every box that does not start at the origin. | box 3 at (12.5, 13.4) of size 37.8 × 47.2 reads back as size 25.3 × 33.8 | write `id x_left y_left x_right y_right`, the corner form that both loaders and both other writers of `pdf_coor.txt` use, so that writing and loading returns the same boxes | not executed | MathBoxFile.WrittenLineMisread | MathBoxFile.CornerFileRoundTrip |
