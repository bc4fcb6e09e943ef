# A verified model of three small Python modules

This project models, in Dafny, three files of a small Python repository:

- `recursive_sum.py`:
  - `sum(x)`, a recursive list sum;
  - `merge_sort(nums1, m, nums2, n)`, which merges two ascending arrays in place, from the back, into `nums1`.
- `functional_programming.py`: the `FunctionalProgramming` helper class.
  - `map`;
  - `find_maxprofit`, the best buy-then-sell profit, computed by accumulator recursion.
- `pdf_editor.py`: the `EditPDF` class. It opens a PDF, finds a text in its spans, paints white boxes carrying new text over the matches, and saves the result under a generated name.

The PDF library is abstracted away:
- A document is a sequence of pages. A page holds blocks with a `type` and lines, and a line holds spans with a text and a bounding box.
- Every white box with its replacement text is recorded as an `Overlay` on the document.
- Things the class reaches outside itself are parameters:
  - `os.path.exists` is a set of existing paths;
  - `fitz.open` is a map from path to document;
  - `datetime.now()` is a `DateTime`;
  - whether `save` succeeds is a boolean.
- An exception the source raises is a `Failure`/`Fail` value naming its cause.

Modules:

| file | module | models |
|---|---|---|
| wrappers.dfy | `Wrappers` | `Option`, `Result` and `Outcome` |
| recursive_sum.dfy | `RecursiveSum` | `sum` as a function. `merge_sort` as an in-place method on `array<int>`, both as written and corrected. |
| functional_programming.dfy | `FunctionalProgramming` | `map` and `find_maxprofit` as functions |
| python_str.dfy | `PythonStr` | `str.strip()` with Python's whitespace set, and the substring test `in` |
| posix_path.dfy | `PosixPath` | `posixpath` `basename`, `dirname`, `splitext` and `join` |
| timestamp.dfy | `Timestamp` | `strftime("%Y%m%d_%H%M%S")` |
| pdf_search.dfy | `PdfSearch` | The document datatypes. Page validation. The search of `find_text_in_document` and what `replace_text` replaces, as functions. |
| pdf_editor.dfy | `PdfEditor` | the `EditPDF` class, whose methods update its fields |

Python truthiness is written out:
- A `fitz` document is truthy when it has pages, so a zero-page document counts as not open.
- A `target_page` of `None` or `0` is falsy, and then every page is searched.
- An `input_path` of `None` or `""` is falsy.

## Model

| member | source | states |
|---|---|---|
| RecursiveSum.Sum | recursive_sum.py:3-8 | On a non-empty list the result is the total of all elements, by an independent back-to-front fold. On the empty list `x[0]` raises IndexError, and the result is None. |
| RecursiveSum.Merged | recursive_sum.py:15-35 | The intended merge from the back, with a tie placing the nums1 element last. Its length is m + n. Sortedness and permutation are in MergedSorted and MergedPermutation. |
| RecursiveSum.Leftover | recursive_sum.py:19-28 | How many nums2 elements the comparison loop leaves unplaced when either side runs out, at most n. LeftoverCountsSmallElements says which ones they are. |
| RecursiveSum.MergedAsWritten | recursive_sum.py:19-33 | What merge_sort leaves in nums1's first m+n slots: the comparison loop as in Merged, then one tail step that copies only the last unplaced nums2 element. Its length is m + n. Its shape is in AsWrittenShape. |
| RecursiveSum.MergedPermutation | recursive_sum.py:15-35 | The intended merge is a permutation of the first m entries of nums1 together with the first n entries of nums2. |
| RecursiveSum.MergedSorted | recursive_sum.py:15-35 | The intended merge of two ascending inputs is ascending. |
| RecursiveSum.LeftoverCountsSmallElements | recursive_sum.py:19-28 | For ascending inputs with m > 0, the comparison loop stops with exactly as many nums2 elements unplaced as there are nums2 elements not above nums1[0]. Ties count, because the strict `>` places the nums1 element first. |
| RecursiveSum.AsWrittenShape | recursive_sum.py:19-33 | What merge_sort writes agrees with the intended merge from slot k up, where k is the loop's leftover count. Below k it holds k-1 untouched old nums1 slots, then nums2[k-1]. |
| RecursiveSum.AsWrittenMergesWhenLeftoverAtMostOne | recursive_sum.py:30-33 | The single tail `if` still yields the full merge when at most one nums2 element is left after the loop. |
| RecursiveSum.EmptyNums1LosesElements | recursive_sum.py:30-33 | With m = 0 and nums2 = [1, 2], nums1 ends as [0, 2] instead of [1, 2]. |
| RecursiveSum.TieLosesElement | recursive_sum.py:21-33 | With nums1 = [2, 0, 0], m = 1 and nums2 = [1, 1], nums1 ends as [2, 1, 2]: an element is lost and the result is not sorted. |
| RecursiveSum.RunAsWritten | recursive_sum.py:19-33 | nums1 after the comparison loop and the single tail step, run from ptr1 = i-1, ptr2 = j-1, ptr_merged = i+j-1, reading and writing the array as it goes. It has no contract of its own: RunAsWrittenComputes ties it to MergedAsWritten. |
| RecursiveSum.RunFixed | recursive_sum.py:19-33 | The same run with the tail step repeated while nums2 elements remain. It has no contract of its own: RunFixedComputes ties it to Merged. |
| RecursiveSum.RunAsWrittenComputes | recursive_sum.py:19-33 | Running merge_sort from any pointer state writes the as-written merge below ptr_merged + 1 and leaves the slots above it alone. |
| RecursiveSum.RunFixedComputes | recursive_sum.py:19-33 | Running the corrected merge from any pointer state writes the intended merge below ptr_merged + 1 and leaves the slots above it alone. |
| RecursiveSum.MergeSort | recursive_sum.py:15-35 | Models the code as written. nums1 is updated in place and returned. Its first m+n slots become the as-written merge, the later slots are unchanged, and nums2 is not modified. The loop keeps ptr_merged == ptr1 + ptr2 + 1. |
| RecursiveSum.MergeSortFixed | recursive_sum.py:15-35 | With the tail step as a loop, nums1's first m+n slots become the intended merge: sorted, and a permutation of both inputs, by MergedSorted and MergedPermutation. |
| FunctionalProgramming.Map | functional_programming.py:5-6 | The result has the input's length, and element i is func applied to element i. |
| FunctionalProgramming.FindMaxProfit | functional_programming.py:8-17 | An empty price list returns max_profit unchanged, and the result is never below the max_profit passed in. |
| FunctionalProgramming.BuyPrice | functional_programming.py:8-17 | Reference buy price for day j. It is at most min_price and at most every earlier price, and it is one of them. |
| FunctionalProgramming.FindMaxProfitIsBest | functional_programming.py:8-17 | The result is at least the profit of every day, sold at its best earlier buy price. It equals either max_profit or one of those profits. |
| FunctionalProgramming.FindMaxProfitFromFirstPrice | functional_programming.py:8-17 | Seeded with prices[0] and 0, the result is non-negative and at least prices[j] - prices[i] for every i < j. |
| PythonStr.TrimStartSpec | pdf_editor.py:139 | The left strip keeps a suffix and cuts only whitespace. What it keeps does not start with whitespace. |
| PythonStr.TrimEndSpec | pdf_editor.py:139 | The right strip keeps a prefix and cuts only whitespace. What it keeps does not end with whitespace. |
| PythonStr.StripSlice | pdf_editor.py:139-140 | `strip()` keeps a contiguous slice, and everything cut on either side is whitespace. |
| PythonStr.StripEnds | pdf_editor.py:139-140 | A non-empty stripped string neither starts nor ends with whitespace. |
| PythonStr.StripEmptyIffAllSpace | pdf_editor.py:118-119 | A text strips to nothing exactly when it is all whitespace: the blank test. |
| PythonStr.StripIdempotent | pdf_editor.py:139-140 | Stripping twice is stripping once. |
| PythonStr.Strip | pdf_editor.py:139 | `strip()` never lengthens its text. TrimStartSpec, TrimEndSpec, StripSlice and StripEnds state what it keeps and cuts. |
| PythonStr.Blank | pdf_editor.py:118 | `not old_text or not old_text.strip()` holds exactly when every character of the text is whitespace, the empty text included. |
| PythonStr.Contains | pdf_editor.py:140 | `needle in hay`, scanning from the left. It has no contract of its own: ContainsIffOccurs states what it computes. |
| PythonStr.ContainsIffOccurs | pdf_editor.py:140 | `needle in hay` holds exactly when the needle occurs at some index of hay. |
| PosixPath.RFind | pdf_editor.py:56-57 | The result is -1 or an index holding the character, and no later index holds it. |
| PosixPath.RStripSlashes | pdf_editor.py:56 | The result is a prefix, only '/' is cut, and it does not end in '/'. |
| PosixPath.Basename | pdf_editor.py:56-57 | The base name is a suffix of the path. |
| PosixPath.Dirname | pdf_editor.py:56 | The directory name is a prefix of the path. |
| PosixPath.SplitExt | pdf_editor.py:58 | The name and the extension put together give back the base name, and the extension is empty or starts with '.'. |
| PosixPath.Join | pdf_editor.py:60 | The second component always ends the result. When it is not absolute, the first component starts the result. |
| PosixPath.BasenameIsLastComponent | pdf_editor.py:57 | The base name holds no '/' and is the suffix after the last '/'. |
| PosixPath.SplitExtNoSlash | pdf_editor.py:58 | Splitting a '/'-free name gives '/'-free parts. |
| PosixPath.DirnameShape | pdf_editor.py:56 | A directory name is empty, all slashes, or does not end in '/'. |
| PosixPath.BasenameOfJoin | pdf_editor.py:57-60 | Joining a '/'-free name onto a directory gives a path whose base name is that name. |
| PosixPath.DirnameOfJoin | pdf_editor.py:56-60 | Joining a '/'-free name onto a directory name gives a path whose directory name is the one started from. |
| Timestamp.Digit | pdf_editor.py:59 | A digit value renders as a digit character. |
| Timestamp.Format | pdf_editor.py:59 | The timestamp is 15 characters: digits everywhere except an underscore at index 8. |
| Timestamp.ParseFormat | pdf_editor.py:59 | Reading the fields back from a rendered timestamp gives the original date and time. |
| Timestamp.FormatInjective | pdf_editor.py:59 | Different moments, to the second, render differently. |
| PdfSearch.ValidatePage | pdf_editor.py:79-91 | Fails with NotOpened exactly when no truthy document is held. Otherwise true exactly when 1 <= p <= page count. |
| PdfSearch.Range | pdf_editor.py:123 | `range(n)` has length n, and element i is i. |
| PdfSearch.PagesToSearch | pdf_editor.py:123 | The 0-based pages to search: only target_page - 1 for a truthy target, otherwise every page. It has no contract of its own: PagesToSearchLists states which pages it lists. |
| PdfSearch.Find | pdf_editor.py:104-145 | NotOpened comes first, then EmptySearchText for a blank text, then InvalidTargetPage for a truthy target page outside 1..page count. The search succeeds exactly when a document is open, the text is not blank, and a truthy target page is in range. |
| PdfSearch.Matches | pdf_editor.py:139-140 | A span is selected when `old_text.strip()` occurs in the span's stripped text. It has no contract of its own: StripSlice and ContainsIffOccurs state what strip and `in` compute. |
| PdfSearch.SpanHit | pdf_editor.py:139-142 | The innermost loop body: one occurrence with the page number and the span's bbox when the span matches, nothing otherwise. |
| PdfSearch.SpanHits | pdf_editor.py:138-142 | The span loop: each span's results, in span order. SpanHitsMembers states which occurrences it holds. |
| PdfSearch.LineHits | pdf_editor.py:137-142 | The line loop: each line's results, in line order. LineHitsMembers states which occurrences it holds. |
| PdfSearch.BlockHit | pdf_editor.py:135-142 | One block's results: its lines' results for a text block (`type == 0`), nothing for any other block. |
| PdfSearch.BlockHits | pdf_editor.py:135-142 | The block loop: each block's results, in block order. BlockHitsMembers and BlockHitsReported state which occurrences it holds. |
| PdfSearch.PageHit | pdf_editor.py:128-142 | One page's results, with its 1-based page number, for a 0-based index that names an existing page. Nothing for any other index. |
| PdfSearch.PageHits | pdf_editor.py:128-142 | The page loop: each listed page's results, in list order. PageHitsMembers, PageHitsReported and PageHitsOrdered state its contents and order. |
| PdfSearch.SpanHitsMembers | pdf_editor.py:138-142 | A line reports exactly its spans whose stripped text contains the needle, each with its page number and bbox. |
| PdfSearch.LineHitsMembers | pdf_editor.py:137-142 | A block reports exactly what its lines report. |
| PdfSearch.BlockHitsMembers | pdf_editor.py:135-142 | A page reports exactly what its text blocks (`type == 0`) report. |
| PdfSearch.PageHitsMembers | pdf_editor.py:128-142 | A page list reports exactly what its listed, existing pages report. |
| PdfSearch.BlockHitsReported | pdf_editor.py:135-142 | A page's results are exactly its matching spans in text blocks. |
| PdfSearch.PageHitsReported | pdf_editor.py:128-142 | The results of a page list are exactly the matching spans in text blocks of the listed pages. |
| PdfSearch.PagesToSearchLists | pdf_editor.py:123 | The searched page list names exactly the existing pages: every page, or only the truthy target page. |
| PdfSearch.FindReportsExactly | pdf_editor.py:104-145 | An occurrence is reported exactly when it is a span in a text block of a searched page whose stripped text contains the stripped search text, with that page's 1-based number. |
| PdfSearch.BlockHitsOnPage | pdf_editor.py:142 | Every result of a page carries that page's number. |
| PdfSearch.PageHitsOrdered | pdf_editor.py:128-142 | Searching pages in increasing order gives results ordered by page. |
| PdfSearch.FindOrdered | pdf_editor.py:104-145 | The search results are ordered by ascending page number. |
| PdfSearch.FindPagesInRange | pdf_editor.py:123-132 | Every result names an existing page, and names the target page when one is given. |
| PdfSearch.ReplaceTargets | pdf_editor.py:159-165 | NotOpened first, then EmptyReplacementText for a blank new text, then the search's own result and errors. |
| PdfSearch.OverlaysFor | pdf_editor.py:171-198 | One overlay per occurrence, in order, on its page and bbox, with the new text. |
| PdfSearch.ReplacedPagesInRange | pdf_editor.py:165-199 | Every page replace_text marks as modified exists, and is the target page when one is given. |
| PdfEditor.StampHasNoSlash | pdf_editor.py:59 | A timestamp contains no '/'. |
| PdfEditor.OutputPathFor | pdf_editor.py:56-60 | The output path built from the input path and the timestamp. It has no contract of its own: OutputPathShape and OutputPathInjective state its properties. |
| PdfEditor.OutputPathShape | pdf_editor.py:56-60 | The output path is in the input's directory. Its base name is name + "_modified_" + stamp + ext. It never equals the input path. |
| PdfEditor.OutputPathInjective | pdf_editor.py:56-60 | Stamps of equal length give the same output path only when they are equal. |
| PdfEditor.OutputPathsDiffer | pdf_editor.py:56-60 | Edits made at different seconds write different files. |
| PdfEditor.ScanSpans | pdf_editor.py:138-142 | The span loop appends exactly the line's results to the list built so far. |
| PdfEditor.ScanLines | pdf_editor.py:137-142 | The line loop appends exactly the block's results. |
| PdfEditor.ScanBlocks | pdf_editor.py:135-142 | The block loop appends exactly the results of the page's text blocks. |
| PdfEditor.ScanPages | pdf_editor.py:121-145 | The page loop fails with InvalidTargetPage on a truthy out-of-range target. Otherwise it returns the results of the searched pages, in order. |
| PdfEditor.Opened | pdf_editor.py:62-69 | The document held after open_document on a truthy input path: the opened document, or the one held before when opening fails. |
| PdfEditor.Replaced | pdf_editor.py:224-225 | The document opens and replace_text replaces at least one occurrence, so the `if` at line 225 is taken. |
| PdfEditor.EditResult | pdf_editor.py:219-234 | What process_edit returns once the input path is set: the output path when a replacement was made and saved, otherwise None. It has no contract of its own: EditResultPath and EditResultFoundText state its properties. |
| PdfEditor.EditResultPath | pdf_editor.py:216-236 | A path process_edit returns is a new file next to the input, named from it with "_modified_" and the timestamp. |
| PdfEditor.EditResultFoundText | pdf_editor.py:224-229 | process_edit returns a path only when the document opened and the search text occurs in a text span of a searched page. |
| PdfEditor.EditPdf.constructor | pdf_editor.py:10-22 | Stores the input path. No document, no page, no modified pages and no output path. |
| PdfEditor.EditPdf.SetInputPath | pdf_editor.py:35-44 | Accepts an existing path. Otherwise FileNotFound, with the input path unchanged. Nothing else changes. |
| PdfEditor.EditPdf.OpenDocument | pdf_editor.py:62-69 | NoInputPath for a falsy path. OpenFailed keeps the held document. Success replaces the held document. The page, modified pages and output path are never touched. |
| PdfEditor.EditPdf.Enter | pdf_editor.py:24-29 | Rejects a falsy input path with NoInputPath, then opens the document as OpenDocument does. |
| PdfEditor.EditPdf.CloseDocument | pdf_editor.py:71-77 | A truthy document is dropped, and the page and the modified pages are cleared. Otherwise nothing changes. No truthy document remains, so a second close is a no-op. |
| PdfEditor.EditPdf.Exit | pdf_editor.py:31-33 | Same effect as CloseDocument. |
| PdfEditor.EditPdf.LoadPage | pdf_editor.py:93-102 | NotOpened, then InvalidPage outside 1..page count. Otherwise the current page becomes page p. |
| PdfEditor.EditPdf.FindTextInDocument | pdf_editor.py:104-145 | The checks and nested loops compute exactly Find, whose properties are proved above. |
| PdfEditor.EditPdf.ReplaceText | pdf_editor.py:147-202 | Errors are those of ReplaceTargets, and the result says whether anything matched. On a match, one overlay per occurrence is appended and exactly the occurrences' pages are added to modified pages. Otherwise nothing changes. Modified pages keep naming existing pages. |
| PdfEditor.EditPdf.DrawReplacements | pdf_editor.py:171-200 | The loop appends the occurrences' overlays in order and adds their pages to the modified set. |
| PdfEditor.EditPdf.GenerateOutputPath | pdf_editor.py:46-60 | NoInputPath exactly when the input path is falsy. Otherwise a path in the input's directory, named name + "_modified_" + timestamp + ext, distinct from the input. |
| PdfEditor.EditPdf.SaveDocument | pdf_editor.py:238-252 | NotOpened without a truthy document. Otherwise it succeeds exactly when writing succeeds, and fails with SaveFailed. |
| PdfEditor.EditPdf.ProcessEdit | pdf_editor.py:204-236 | Only a falsy input path is an error, and then nothing changes. Otherwise the result is Success(EditResult): the output path when a match was replaced and saved, None otherwise. The output path is recorded even when saving fails. Any document left truthy is closed, and a falsy one is left as it was. |

## Left out

- The `fitz` library itself: `open`, `load_page`, `get_text("dict")`, `draw_rect`, `insert_text`, `get_text_length`, `save` and `close`. Pages are given as data, and opening and saving are parameters (a path-to-document map and a success flag).
- The white-box and text-position geometry of `replace_text` (pdf_editor.py:174-198). It is floating-point arithmetic on font metrics. An overlay records only the page, the matched bbox and the new text.
- Drawing overlays does not change the page's searchable text: a later search in the same session sees the original spans. In the library, inserted text would become searchable.
- `print` diagnostics throughout pdf_editor.py: they are a side channel with no effect on state or results.
- `os.path.exists` and `datetime.now()`: parameters. A directory or an unreadable file passes the existence check exactly as in the source, and then fails to open.
- Missing keys in the `get_text("dict")` output: modelled as typed fields that are always present. A span without `bbox` would raise KeyError in the source.
- `pdf_editor.py` on Windows: only POSIX path rules (`posixpath`) are modelled.
- Timestamp: years below 1000 are excluded by `ValidDateTime`, because `%Y` renders them with fewer than four digits on some platforms.
- test.py and #001.py are not part of this model. test.py is a driver that calls methods EditPDF does not define. #001.py is an unrelated exercise.
- RecursiveSum.MergeSort: the call with nums1 and nums2 the same list is excluded by `nums1 != nums2`. The requires `0 <= m`, `0 <= n <= len(nums2)` and `m + n <= len(nums1)` also exclude three behaviours of the source. With n <= 0 the source returns nums1 untouched whatever m is, but the model does not accept m < 0, n < 0 or m > len(nums1) there. With n >= 1 and m < 0, the loop is skipped and the tail writes nums2[n-1] to nums1[m+n-1]. That is an ordinary index when 0 <= m+n-1 < len(nums1), and it counts from the end of the list only when m + n <= 0. IndexError is raised when n > len(nums2) or m+n-1 lies outside -len(nums1)..len(nums1)-1. With n >= 1 and m >= 0, the source raises IndexError when m + n > len(nums1) or n > len(nums2).
- RecursiveSum.MergeSortFixed: the same requires, for the same reasons.
- RecursiveSum.MergeSortFixed: the per-iteration "sorted suffix" invariant is not stated on its own. The final state is proved equal to the intended merge, which is proved sorted and a permutation.
- RecursiveSum.Sum: Python's recursion-depth limit is not modelled, and elements are integers (float sums are left out).
- FunctionalProgramming.FindMaxProfit: prices are integers rather than floats, and the recursion-depth limit is not modelled. That `min_price` only decreases along the recursion is visible in the body, not stated as a lemma.
- FunctionalProgramming.Map: `func` is a total function. An exception raised by `func` is not modelled.

## Findings

| source | as written | input that shows it | evidently intended | confidence | as-written member | corrected member |
|---|---|---|---|---|---|---|
| recursive_sum.py:30-33 | After the comparison loop, a single `if ptr2 >= 0` copies one remaining nums2 element. Any other remaining elements are never copied, and the slots below keep nums1's old contents. | nums1 = [0, 0], m = 0, nums2 = [1, 2], n = 2 gives [0, 2]. nums1 = [2, 0, 0], m = 1, nums2 = [1, 1], n = 2 gives [2, 1, 2]. | `while ptr2 >= 0`, copying every remaining nums2 element so that nums1[:m+n] is the sorted merge | high (not executed) | RecursiveSum.MergeSort, RecursiveSum.EmptyNums1LosesElements, RecursiveSum.TieLosesElement | RecursiveSum.MergeSortFixed, RecursiveSum.MergedSorted, RecursiveSum.MergedPermutation |
