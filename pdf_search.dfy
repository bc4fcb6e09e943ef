/**
 * The document model the PDF editor works on, and the text search of
 * `EditPDF.find_text_in_document` as a specification function.
 *
 * A document is the sequence of its pages. Each page is what
 * `page.get_text("dict")` reports: blocks with a `type` and lines, each line
 * a sequence of spans with a text and a bounding box. The bounding box is
 * carried along and never inspected. The white boxes and new text that
 * `replace_text` draws are recorded as overlays on the document.
 */
module PdfSearch {
  import opened Wrappers
  import opened PythonStr

  datatype BBox = BBox(x0: real, y0: real, x1: real, y1: real)
  datatype Span = Span(text: string, bbox: BBox)
  datatype Line = Line(spans: seq<Span>)
  /** `kind` is the block's `type`: 0 for a text block. */
  datatype Block = Block(kind: int, lines: seq<Line>)
  datatype Page = Page(blocks: seq<Block>)
  /** A white box drawn over `at` on 1-based page `page`, with `text` written into it. */
  datatype Overlay = Overlay(page: int, at: BBox, text: string)
  datatype Document = Document(pages: seq<Page>, overlays: seq<Overlay>)
  /** One search hit: the 1-based page number and the bounding box of the span. */
  datatype Occurrence = Occurrence(page: int, bbox: BBox)

  /** The exceptions the editor raises, one constructor per distinct cause. */
  datatype Error =
    | NoInputPath          // "Input path must be set ..." / "Input path not set"
    | FileNotFound         // set_input_path on a path that does not exist
    | OpenFailed           // "Failed to open PDF document"
    | NotOpened            // "PDF document not opened"
    | EmptySearchText      // "Search text cannot be empty"
    | EmptyReplacementText // "Replacement text cannot be empty"
    | InvalidPage          // "Invalid page number"
    | InvalidTargetPage    // "Invalid target page number"
    | SaveFailed           // "Failed to save PDF"

  /**
   * `if self.pdf_document:` — an open document is truthy exactly when it has
   * pages, because a document's truth value is its page count.
   */
  predicate IsOpen(doc: Option<Document>)
  {
    doc.Some? && |doc.value.pages| > 0
  }

  /** `if target_page:` — None and 0 are both falsy. */
  predicate PageTruthy(target: Option<int>)
  {
    target.Some? && target.value != 0
  }

  /** `validate_page_number(p)` on the document held by the editor. */
  function ValidatePage(doc: Option<Document>, p: int): (r: Result<bool, Error>)
    ensures r.Failure? <==> !IsOpen(doc)
    ensures r.Failure? ==> r.error == NotOpened
    ensures r.Success? ==> (r.value <==> 1 <= p <= |doc.value.pages|)
  {
    if !IsOpen(doc) then Failure(NotOpened) else Success(1 <= p <= |doc.value.pages|)
  }

  // ---------------------------------------------------------------------------
  // The search, block by line by span
  // ---------------------------------------------------------------------------

  /** A span is a hit when the stripped search text occurs in its stripped text. */
  predicate Matches(needle: string, s: Span)
  {
    Contains(Strip(s.text), needle)
  }

  /**
   * The results of a loop that appends each element's own results in turn:
   * the concatenation of the parts, in order.
   */
  function Flatten(parts: seq<seq<Occurrence>>): seq<Occurrence>
  {
    if |parts| == 0 then [] else Flatten(parts[..|parts| - 1]) + parts[|parts| - 1]
  }

  /** The result of the innermost loop body for one span. */
  function SpanHit(needle: string, s: Span, pageNo: int): seq<Occurrence>
  {
    if Matches(needle, s) then [Occurrence(pageNo, s.bbox)] else []
  }

  function SpanHits(needle: string, spans: seq<Span>, pageNo: int): seq<Occurrence>
  {
    Flatten(seq(|spans|, k requires 0 <= k < |spans| => SpanHit(needle, spans[k], pageNo)))
  }

  function LineHits(needle: string, lines: seq<Line>, pageNo: int): seq<Occurrence>
  {
    Flatten(seq(|lines|, l requires 0 <= l < |lines| => SpanHits(needle, lines[l].spans, pageNo)))
  }

  /** Only text blocks (`type == 0`) are searched. */
  function BlockHit(needle: string, b: Block, pageNo: int): seq<Occurrence>
  {
    if b.kind == 0 then LineHits(needle, b.lines, pageNo) else []
  }

  function BlockHits(needle: string, blocks: seq<Block>, pageNo: int): seq<Occurrence>
  {
    Flatten(seq(|blocks|, b requires 0 <= b < |blocks| => BlockHit(needle, blocks[b], pageNo)))
  }

  /** The hits of the page with 0-based index p, reported with its 1-based number. */
  function PageHit(needle: string, pages: seq<Page>, p: int): seq<Occurrence>
  {
    if 0 <= p < |pages| then BlockHits(needle, pages[p].blocks, p + 1) else []
  }

  /** The hits of the listed 0-based page indices, in list order. */
  function PageHits(needle: string, pages: seq<Page>, nums: seq<int>): seq<Occurrence>
  {
    Flatten(seq(|nums|, i requires 0 <= i < |nums| => PageHit(needle, pages, nums[i])))
  }

  /** `range(n)`. */
  function Range(n: nat): (r: seq<int>)
    ensures |r| == n
    ensures forall i :: 0 <= i < n ==> r[i] == i
  {
    if n == 0 then [] else Range(n - 1) + [n - 1]
  }

  /** `[target_page - 1] if target_page else range(page_count)`. */
  function PagesToSearch(doc: Document, target: Option<int>): seq<int>
  {
    if PageTruthy(target) then [target.value - 1] else Range(|doc.pages|)
  }

  /**
   * `find_text_in_document(old_text, target_page)`. The checks come in the
   * source's order: no open document, then a blank search text, then (only
   * for a truthy target page) a target page out of range.
   */
  function Find(doc: Option<Document>, oldText: string, target: Option<int>): (r: Result<seq<Occurrence>, Error>)
    ensures !IsOpen(doc) ==> r == Failure(NotOpened)
    ensures IsOpen(doc) && Blank(oldText) ==> r == Failure(EmptySearchText)
    ensures IsOpen(doc) && !Blank(oldText) && PageTruthy(target) && !(1 <= target.value <= |doc.value.pages|)
            ==> r == Failure(InvalidTargetPage)
    ensures r.Success? <==> IsOpen(doc) && !Blank(oldText)
                            && (PageTruthy(target) ==> 1 <= target.value <= |doc.value.pages|)
  {
    if !IsOpen(doc) then Failure(NotOpened)
    else if Blank(oldText) then Failure(EmptySearchText)
    else if PageTruthy(target) && !ValidatePage(doc, target.value).value then Failure(InvalidTargetPage)
    else Success(PageHits(Strip(oldText), doc.value.pages, PagesToSearch(doc.value, target)))
  }

  // ---------------------------------------------------------------------------
  // One loop step at a time
  // ---------------------------------------------------------------------------

  lemma FlattenSnoc(parts: seq<seq<Occurrence>>, k: nat)
    requires k < |parts|
    ensures Flatten(parts[..k + 1]) == Flatten(parts[..k]) + parts[k]
  {
    assert parts[..k + 1][..k] == parts[..k];
  }

  lemma SpanHitsSnoc(needle: string, spans: seq<Span>, k: nat, pageNo: int)
    requires k < |spans|
    ensures SpanHits(needle, spans[..k + 1], pageNo) == SpanHits(needle, spans[..k], pageNo) + SpanHit(needle, spans[k], pageNo)
  {
    var parts := seq(k + 1, i requires 0 <= i < k + 1 => SpanHit(needle, spans[..k + 1][i], pageNo));
    FlattenSnoc(parts, k);
    assert parts[..k] == seq(k, i requires 0 <= i < k => SpanHit(needle, spans[..k][i], pageNo));
  }

  lemma LineHitsSnoc(needle: string, lines: seq<Line>, k: nat, pageNo: int)
    requires k < |lines|
    ensures LineHits(needle, lines[..k + 1], pageNo) == LineHits(needle, lines[..k], pageNo) + SpanHits(needle, lines[k].spans, pageNo)
  {
    var parts := seq(k + 1, i requires 0 <= i < k + 1 => SpanHits(needle, lines[..k + 1][i].spans, pageNo));
    FlattenSnoc(parts, k);
    assert parts[..k] == seq(k, i requires 0 <= i < k => SpanHits(needle, lines[..k][i].spans, pageNo));
  }

  lemma BlockHitsSnoc(needle: string, blocks: seq<Block>, k: nat, pageNo: int)
    requires k < |blocks|
    ensures BlockHits(needle, blocks[..k + 1], pageNo) == BlockHits(needle, blocks[..k], pageNo) + BlockHit(needle, blocks[k], pageNo)
  {
    var parts := seq(k + 1, i requires 0 <= i < k + 1 => BlockHit(needle, blocks[..k + 1][i], pageNo));
    FlattenSnoc(parts, k);
    assert parts[..k] == seq(k, i requires 0 <= i < k => BlockHit(needle, blocks[..k][i], pageNo));
  }

  lemma PageHitsSnoc(needle: string, pages: seq<Page>, nums: seq<int>, k: nat)
    requires k < |nums|
    ensures PageHits(needle, pages, nums[..k + 1]) == PageHits(needle, pages, nums[..k]) + PageHit(needle, pages, nums[k])
  {
    var parts := seq(k + 1, i requires 0 <= i < k + 1 => PageHit(needle, pages, nums[..k + 1][i]));
    FlattenSnoc(parts, k);
    assert parts[..k] == seq(k, i requires 0 <= i < k => PageHit(needle, pages, nums[..k][i]));
  }

  // ---------------------------------------------------------------------------
  // What the search reports
  // ---------------------------------------------------------------------------

  /** An element of the concatenation is an element of one of the parts. */
  lemma {:induction false} FlattenMembers(parts: seq<seq<Occurrence>>, o: Occurrence)
    ensures o in Flatten(parts) <==> exists i :: 0 <= i < |parts| && o in parts[i]
  {
    if |parts| > 0 {
      var n := |parts| - 1;
      var init := parts[..n];
      FlattenMembers(init, o);
      if o in Flatten(init) {
        var i :| 0 <= i < |init| && o in init[i];
        assert parts[i] == init[i];
      }
      if exists i :: 0 <= i < |parts| && o in parts[i] {
        var i :| 0 <= i < |parts| && o in parts[i];
        if i < n {
          assert parts[i] == init[i];
        }
      }
    }
  }

  /**
   * Span `k` of line `l` of block `b` of page `page` is a hit: the block is a
   * text block and the needle occurs in the span's stripped text.
   */
  predicate HitAt(needle: string, page: Page, b: int, l: int, k: int)
  {
    0 <= b < |page.blocks| && page.blocks[b].kind == 0
    && 0 <= l < |page.blocks[b].lines|
    && 0 <= k < |page.blocks[b].lines[l].spans|
    && Matches(needle, page.blocks[b].lines[l].spans[k])
  }

  /** `o` is what the search reports for some hit on page `page`, numbered `pageNo`. */
  ghost predicate ReportedOn(needle: string, page: Page, pageNo: int, o: Occurrence)
  {
    exists b, l, k :: HitAt(needle, page, b, l, k) && o == Occurrence(pageNo, page.blocks[b].lines[l].spans[k].bbox)
  }

  /** The hits of one line are its matching spans. */
  lemma SpanHitsMembers(needle: string, spans: seq<Span>, pageNo: int, o: Occurrence)
    ensures o in SpanHits(needle, spans, pageNo)
            <==> exists k :: 0 <= k < |spans| && Matches(needle, spans[k]) && o == Occurrence(pageNo, spans[k].bbox)
  {
    var parts := seq(|spans|, k requires 0 <= k < |spans| => SpanHit(needle, spans[k], pageNo));
    FlattenMembers(parts, o);
    if o in SpanHits(needle, spans, pageNo) {
      var k :| 0 <= k < |parts| && o in parts[k];
      assert parts[k] == SpanHit(needle, spans[k], pageNo);
    }
    if exists k :: 0 <= k < |spans| && Matches(needle, spans[k]) && o == Occurrence(pageNo, spans[k].bbox) {
      var k :| 0 <= k < |spans| && Matches(needle, spans[k]) && o == Occurrence(pageNo, spans[k].bbox);
      assert o in parts[k];
    }
  }

  /** The hits of one block are the hits of its lines. */
  lemma LineHitsMembers(needle: string, lines: seq<Line>, pageNo: int, o: Occurrence)
    ensures o in LineHits(needle, lines, pageNo)
            <==> exists l :: 0 <= l < |lines| && o in SpanHits(needle, lines[l].spans, pageNo)
  {
    var parts := seq(|lines|, l requires 0 <= l < |lines| => SpanHits(needle, lines[l].spans, pageNo));
    FlattenMembers(parts, o);
    if exists l :: 0 <= l < |lines| && o in SpanHits(needle, lines[l].spans, pageNo) {
      var l :| 0 <= l < |lines| && o in SpanHits(needle, lines[l].spans, pageNo);
      assert o in parts[l];
    }
  }

  /** The hits of one page are the hits of its text blocks. */
  lemma BlockHitsMembers(needle: string, blocks: seq<Block>, pageNo: int, o: Occurrence)
    ensures o in BlockHits(needle, blocks, pageNo)
            <==> exists b :: 0 <= b < |blocks| && blocks[b].kind == 0 && o in LineHits(needle, blocks[b].lines, pageNo)
  {
    var parts := seq(|blocks|, b requires 0 <= b < |blocks| => BlockHit(needle, blocks[b], pageNo));
    FlattenMembers(parts, o);
    if o in BlockHits(needle, blocks, pageNo) {
      var b :| 0 <= b < |parts| && o in parts[b];
      assert parts[b] == BlockHit(needle, blocks[b], pageNo);
    }
    if exists b :: 0 <= b < |blocks| && blocks[b].kind == 0 && o in LineHits(needle, blocks[b].lines, pageNo) {
      var b :| 0 <= b < |blocks| && blocks[b].kind == 0 && o in LineHits(needle, blocks[b].lines, pageNo);
      assert o in parts[b];
    }
  }

  /** The hits of a page list are the hits of its pages that exist. */
  lemma PageHitsMembers(needle: string, pages: seq<Page>, nums: seq<int>, o: Occurrence)
    ensures o in PageHits(needle, pages, nums)
            <==> exists i :: 0 <= i < |nums| && 0 <= nums[i] < |pages|
                             && o in BlockHits(needle, pages[nums[i]].blocks, nums[i] + 1)
  {
    var parts := seq(|nums|, i requires 0 <= i < |nums| => PageHit(needle, pages, nums[i]));
    FlattenMembers(parts, o);
    if o in PageHits(needle, pages, nums) {
      var i :| 0 <= i < |parts| && o in parts[i];
      assert parts[i] == PageHit(needle, pages, nums[i]);
    }
    if exists i :: 0 <= i < |nums| && 0 <= nums[i] < |pages| && o in BlockHits(needle, pages[nums[i]].blocks, nums[i] + 1) {
      var i :| 0 <= i < |nums| && 0 <= nums[i] < |pages| && o in BlockHits(needle, pages[nums[i]].blocks, nums[i] + 1);
      assert o in parts[i];
    }
  }

  /** The hits of one page are exactly the spans HitAt selects. */
  lemma BlockHitsReported(needle: string, page: Page, pageNo: int, o: Occurrence)
    ensures o in BlockHits(needle, page.blocks, pageNo) <==> ReportedOn(needle, page, pageNo, o)
  {
    BlockHitsMembers(needle, page.blocks, pageNo, o);
    if o in BlockHits(needle, page.blocks, pageNo) {
      var b :| 0 <= b < |page.blocks| && page.blocks[b].kind == 0 && o in LineHits(needle, page.blocks[b].lines, pageNo);
      LineHitsMembers(needle, page.blocks[b].lines, pageNo, o);
      var l :| 0 <= l < |page.blocks[b].lines| && o in SpanHits(needle, page.blocks[b].lines[l].spans, pageNo);
      SpanHitsMembers(needle, page.blocks[b].lines[l].spans, pageNo, o);
      var k :| 0 <= k < |page.blocks[b].lines[l].spans| && Matches(needle, page.blocks[b].lines[l].spans[k])
               && o == Occurrence(pageNo, page.blocks[b].lines[l].spans[k].bbox);
      assert HitAt(needle, page, b, l, k);
    }
    if ReportedOn(needle, page, pageNo, o) {
      var b, l, k :| HitAt(needle, page, b, l, k) && o == Occurrence(pageNo, page.blocks[b].lines[l].spans[k].bbox);
      SpanHitsMembers(needle, page.blocks[b].lines[l].spans, pageNo, o);
      LineHitsMembers(needle, page.blocks[b].lines, pageNo, o);
    }
  }

  /** The hits of a page list are the hits HitAt selects on the listed pages that exist. */
  lemma PageHitsReported(needle: string, pages: seq<Page>, nums: seq<int>, o: Occurrence)
    ensures o in PageHits(needle, pages, nums)
            <==> exists i :: 0 <= i < |nums| && 0 <= nums[i] < |pages| && ReportedOn(needle, pages[nums[i]], nums[i] + 1, o)
  {
    if o in PageHits(needle, pages, nums) {
      PageHitReported(needle, pages, nums, o);
    } else if exists i :: 0 <= i < |nums| && 0 <= nums[i] < |pages| && ReportedOn(needle, pages[nums[i]], nums[i] + 1, o) {
      var i :| 0 <= i < |nums| && 0 <= nums[i] < |pages| && ReportedOn(needle, pages[nums[i]], nums[i] + 1, o);
      ReportedPageHit(needle, pages, nums, i, o);
    }
  }

  /** Each hit of a page list is reported on one of its listed pages. */
  lemma PageHitReported(needle: string, pages: seq<Page>, nums: seq<int>, o: Occurrence)
    requires o in PageHits(needle, pages, nums)
    ensures exists i :: 0 <= i < |nums| && 0 <= nums[i] < |pages| && ReportedOn(needle, pages[nums[i]], nums[i] + 1, o)
  {
    PageHitsMembers(needle, pages, nums, o);
    var i :| 0 <= i < |nums| && 0 <= nums[i] < |pages| && o in BlockHits(needle, pages[nums[i]].blocks, nums[i] + 1);
    BlockHitsReported(needle, pages[nums[i]], nums[i] + 1, o);
  }

  /** What is reported on a listed, existing page is a hit of the page list. */
  lemma ReportedPageHit(needle: string, pages: seq<Page>, nums: seq<int>, i: int, o: Occurrence)
    requires 0 <= i < |nums| && 0 <= nums[i] < |pages| && ReportedOn(needle, pages[nums[i]], nums[i] + 1, o)
    ensures o in PageHits(needle, pages, nums)
  {
    BlockHitsReported(needle, pages[nums[i]], nums[i] + 1, o);
    PageHitsMembers(needle, pages, nums, o);
  }

  /** Page p is searched: it exists, and it is the target page when one is given. */
  predicate Searched(pages: seq<Page>, target: Option<int>, p: int)
  {
    0 <= p < |pages| && (PageTruthy(target) ==> p == target.value - 1)
  }

  /** The searched page list names exactly the searched pages. */
  lemma PagesToSearchLists(doc: Document, target: Option<int>, p: int)
    requires PageTruthy(target) ==> 1 <= target.value <= |doc.pages|
    ensures Searched(doc.pages, target, p)
            <==> exists i :: 0 <= i < |PagesToSearch(doc, target)| && PagesToSearch(doc, target)[i] == p
    ensures forall i :: 0 <= i < |PagesToSearch(doc, target)| ==> 0 <= PagesToSearch(doc, target)[i] < |doc.pages|
  {
    var nums := PagesToSearch(doc, target);
    if Searched(doc.pages, target, p) {
      var i := if PageTruthy(target) then 0 else p;
      assert nums[i] == p;
    }
  }

  /**
   * A successful search reports exactly the hits on the searched pages: on
   * the target page when one is given (truthy), on every page otherwise.
   */
  lemma FindReportsExactly(doc: Option<Document>, oldText: string, target: Option<int>, o: Occurrence)
    requires Find(doc, oldText, target).Success?
    ensures o in Find(doc, oldText, target).value
            <==> exists p :: Searched(doc.value.pages, target, p) && ReportedOn(Strip(oldText), doc.value.pages[p], p + 1, o)
  {
    var d, needle := doc.value, Strip(oldText);
    var nums := PagesToSearch(d, target);
    assert Find(doc, oldText, target).value == PageHits(needle, d.pages, nums);
    if o in PageHits(needle, d.pages, nums) {
      PageHitsReported(needle, d.pages, nums, o);
      var i :| 0 <= i < |nums| && 0 <= nums[i] < |d.pages| && ReportedOn(needle, d.pages[nums[i]], nums[i] + 1, o);
      PagesToSearchLists(d, target, nums[i]);
    } else if exists p :: Searched(d.pages, target, p) && ReportedOn(needle, d.pages[p], p + 1, o) {
      var p :| Searched(d.pages, target, p) && ReportedOn(needle, d.pages[p], p + 1, o);
      PagesToSearchLists(d, target, p);
      var i :| 0 <= i < |nums| && nums[i] == p;
      PageHitsReported(needle, d.pages, nums, o);
    }
  }

  // ---------------------------------------------------------------------------
  // The order of the results
  // ---------------------------------------------------------------------------

  predicate PageOrdered(occ: seq<Occurrence>)
  {
    forall i, j :: 0 <= i < j < |occ| ==> occ[i].page <= occ[j].page
  }

  predicate StrictlyIncreasing(nums: seq<int>)
  {
    forall i, j :: 0 <= i < j < |nums| ==> nums[i] < nums[j]
  }

  /** Every hit of one page carries that page's number. */
  lemma BlockHitsOnPage(needle: string, blocks: seq<Block>, pageNo: int)
    ensures forall o :: o in BlockHits(needle, blocks, pageNo) ==> o.page == pageNo
  {
    forall o | o in BlockHits(needle, blocks, pageNo)
      ensures o.page == pageNo
    {
      BlockHitsMembers(needle, blocks, pageNo, o);
      var b :| 0 <= b < |blocks| && blocks[b].kind == 0 && o in LineHits(needle, blocks[b].lines, pageNo);
      LineHitsMembers(needle, blocks[b].lines, pageNo, o);
      var l :| 0 <= l < |blocks[b].lines| && o in SpanHits(needle, blocks[b].lines[l].spans, pageNo);
      SpanHitsMembers(needle, blocks[b].lines[l].spans, pageNo, o);
    }
  }

  /** Concatenating parts whose page keys never decrease keeps the results ordered by page. */
  lemma {:induction false} FlattenOrdered(parts: seq<seq<Occurrence>>, keys: seq<int>)
    requires |keys| == |parts|
    requires forall i, j :: 0 <= i < j < |keys| ==> keys[i] <= keys[j]
    requires forall i, o :: 0 <= i < |parts| && o in parts[i] ==> o.page == keys[i]
    ensures PageOrdered(Flatten(parts))
    ensures |parts| > 0 ==> forall o :: o in Flatten(parts) ==> o.page <= keys[|keys| - 1]
  {
    if |parts| > 0 {
      var n := |parts| - 1;
      var front, back := Flatten(parts[..n]), parts[n];
      FlattenOrdered(parts[..n], keys[..n]);
      assert forall o :: o in front ==> o.page <= keys[n] by {
        if n > 0 {
          assert keys[..n][n - 1] <= keys[n];
        }
      }
      var r := front + back;
      forall i, j | 0 <= i < j < |r|
        ensures r[i].page <= r[j].page
      {
        if j < |front| {
          assert r[i] == front[i] && r[j] == front[j];
        } else if i < |front| {
          assert r[i] in front && r[j] in back;
        } else {
          assert r[i] in back && r[j] in back;
        }
      }
      forall o | o in r
        ensures o.page <= keys[n]
      {
        assert o in front || o in back;
      }
    }
  }

  /** Searching the pages in increasing order gives results ordered by page. */
  lemma PageHitsOrdered(needle: string, pages: seq<Page>, nums: seq<int>)
    requires StrictlyIncreasing(nums)
    ensures PageOrdered(PageHits(needle, pages, nums))
  {
    var parts := seq(|nums|, i requires 0 <= i < |nums| => PageHit(needle, pages, nums[i]));
    var keys := seq(|nums|, i requires 0 <= i < |nums| => nums[i] + 1);
    forall i, o: Occurrence | 0 <= i < |parts| && o in parts[i]
      ensures o.page == keys[i]
    {
      if 0 <= nums[i] < |pages| {
        BlockHitsOnPage(needle, pages[nums[i]].blocks, nums[i] + 1);
      }
    }
    FlattenOrdered(parts, keys);
  }

  /** Results come ordered by page number, ascending. */
  lemma FindOrdered(doc: Option<Document>, oldText: string, target: Option<int>)
    requires Find(doc, oldText, target).Success?
    ensures PageOrdered(Find(doc, oldText, target).value)
  {
    PageHitsOrdered(Strip(oldText), doc.value.pages, PagesToSearch(doc.value, target));
  }

  /** Every result names an existing page, and the target page when one is given. */
  lemma FindPagesInRange(doc: Option<Document>, oldText: string, target: Option<int>)
    requires Find(doc, oldText, target).Success?
    ensures forall o :: o in Find(doc, oldText, target).value ==> Searched(doc.value.pages, target, o.page - 1)
  {
    var d, needle := doc.value, Strip(oldText);
    assert Find(doc, oldText, target).value == PageHits(needle, d.pages, PagesToSearch(d, target));
    forall o | o in PageHits(needle, d.pages, PagesToSearch(d, target))
      ensures Searched(d.pages, target, o.page - 1)
    {
      SearchedPageHit(needle, d, target, o);
    }
  }

  /** A hit of the searched page list lies on a searched page. */
  lemma SearchedPageHit(needle: string, d: Document, target: Option<int>, o: Occurrence)
    requires PageTruthy(target) ==> 1 <= target.value <= |d.pages|
    requires o in PageHits(needle, d.pages, PagesToSearch(d, target))
    ensures Searched(d.pages, target, o.page - 1)
  {
    var nums := PagesToSearch(d, target);
    PageHitsMembers(needle, d.pages, nums, o);
    var i :| 0 <= i < |nums| && 0 <= nums[i] < |d.pages| && o in BlockHits(needle, d.pages[nums[i]].blocks, nums[i] + 1);
    BlockHitsOnPage(needle, d.pages[nums[i]].blocks, nums[i] + 1);
    PagesToSearchLists(d, target, nums[i]);
  }

  // ---------------------------------------------------------------------------
  // replace_text, as a function of the document
  // ---------------------------------------------------------------------------

  /**
   * What `replace_text` finds to replace: no open document first, then a
   * blank replacement text, then whatever the search reports.
   */
  function ReplaceTargets(doc: Option<Document>, oldText: string, newText: string, target: Option<int>): (r: Result<seq<Occurrence>, Error>)
    ensures !IsOpen(doc) ==> r == Failure(NotOpened)
    ensures IsOpen(doc) && Blank(newText) ==> r == Failure(EmptyReplacementText)
    ensures IsOpen(doc) && !Blank(newText) ==> r == Find(doc, oldText, target)
  {
    if !IsOpen(doc) then Failure(NotOpened)
    else if Blank(newText) then Failure(EmptyReplacementText)
    else Find(doc, oldText, target)
  }

  /** One overlay per occurrence, in order, each carrying the replacement text. */
  function OverlaysFor(occ: seq<Occurrence>, text: string): (r: seq<Overlay>)
    ensures |r| == |occ|
    ensures forall i :: 0 <= i < |occ| ==> r[i] == Overlay(occ[i].page, occ[i].bbox, text)
  {
    if |occ| == 0 then [] else OverlaysFor(occ[..|occ| - 1], text) + [Overlay(occ[|occ| - 1].page, occ[|occ| - 1].bbox, text)]
  }

  /** The set of page numbers among the occurrences. */
  function PagesOf(occ: seq<Occurrence>): set<int>
  {
    set i | 0 <= i < |occ| :: occ[i].page
  }

  /** The pages replace_text marks as modified all exist, and are the target page when one is given. */
  lemma ReplacedPagesInRange(doc: Option<Document>, oldText: string, newText: string, target: Option<int>)
    requires ReplaceTargets(doc, oldText, newText, target).Success?
    ensures forall p :: p in PagesOf(ReplaceTargets(doc, oldText, newText, target).value) ==>
              Searched(doc.value.pages, target, p - 1)
  {
    var occ := ReplaceTargets(doc, oldText, newText, target).value;
    FindPagesInRange(doc, oldText, target);
    forall p | p in PagesOf(occ)
      ensures Searched(doc.value.pages, target, p - 1)
    {
      var i :| 0 <= i < |occ| && occ[i].page == p;
      assert occ[i] in occ;
    }
  }
}
