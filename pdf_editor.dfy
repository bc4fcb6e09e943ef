/**
 * pdf_editor.py: the EditPDF class, whose methods update its fields in place.
 *
 * What the class reaches outside itself becomes a parameter: the files that
 * exist (`os.path.exists`), the documents `fitz.open` can open, keyed by
 * path, the current time, and whether writing the output file succeeds.
 * An exception the source raises is a `Failure`/`Fail` result carrying the
 * cause, and the state is left as the source leaves it at that point.
 */
module PdfEditor {
  import opened Wrappers
  import opened PythonStr
  import opened PosixPath
  import opened Timestamp
  import opened PdfSearch

  /** `if not self.input_path:` — None and the empty string are both falsy. */
  predicate InputTruthy(p: Option<string>)
  {
    p.Some? && |p.value| > 0
  }

  // ---------------------------------------------------------------------------
  // generate_output_path
  // ---------------------------------------------------------------------------

  /** The output name: `<name>_modified_<stamp><ext>` in the input's directory. */
  function OutputPathFor(input: string, stamp: string): string
  {
    var (name, ext) := SplitExt(Basename(input));
    Join(Dirname(input), name + "_modified_" + stamp + ext)
  }

  /** A timestamp holds digits and one underscore, never a '/'. */
  lemma StampHasNoSlash(d: DateTime)
    requires ValidDateTime(d)
    ensures '/' !in Format(d)
  {
    var s := Format(d);
    forall k | 0 <= k < |s|
      ensures s[k] != '/'
    {
      if k != 8 {
        assert IsDigit(s[k]);
      }
    }
  }

  /**
   * The output path sits in the input's directory, its base name is the
   * input's name, "_modified_", the stamp and the input's extension, and it
   * never names the input file itself.
   */
  lemma OutputPathShape(input: string, stamp: string)
    requires '/' !in stamp
    ensures Dirname(OutputPathFor(input, stamp)) == Dirname(input)
    ensures Basename(OutputPathFor(input, stamp))
            == SplitExt(Basename(input)).0 + "_modified_" + stamp + SplitExt(Basename(input)).1
    ensures OutputPathFor(input, stamp) != input
  {
    var base := Basename(input);
    var b := SplitExt(base).0 + "_modified_" + stamp + SplitExt(base).1;
    BasenameIsLastComponent(input);
    ModifiedName(base, stamp);
    DirnameShape(input);
    BasenameOfJoin(Dirname(input), b);
    DirnameOfJoin(Dirname(input), b);
  }

  /** The new base name of a '/'-free base name is '/'-free and strictly longer. */
  lemma ModifiedName(base: string, stamp: string)
    requires '/' !in base && '/' !in stamp
    ensures var b := SplitExt(base).0 + "_modified_" + stamp + SplitExt(base).1;
            '/' !in b && |b| == |base| + 10 + |stamp|
  {
    SplitExtNoSlash(base);
    assert '/' !in "_modified_";
  }

  /** Two stamps of the same length give the same output path only when they are equal. */
  lemma OutputPathInjective(input: string, s1: string, s2: string)
    requires '/' !in s1 && '/' !in s2 && |s1| == |s2|
    requires OutputPathFor(input, s1) == OutputPathFor(input, s2)
    ensures s1 == s2
  {
    OutputPathShape(input, s1);
    OutputPathShape(input, s2);
    var name, ext := SplitExt(Basename(input)).0, SplitExt(Basename(input)).1;
    var b1, b2 := name + "_modified_" + s1 + ext, name + "_modified_" + s2 + ext;
    assert b1 == b2;
    var lo := |name| + 10;
    assert b1[lo..lo + |s1|] == s1;
    assert b2[lo..lo + |s2|] == s2;
  }

  /** Edits made at different moments (to the second) are written to different files. */
  lemma OutputPathsDiffer(input: string, d1: DateTime, d2: DateTime)
    requires ValidDateTime(d1) && ValidDateTime(d2) && d1 != d2
    ensures OutputPathFor(input, Format(d1)) != OutputPathFor(input, Format(d2))
  {
    StampHasNoSlash(d1);
    StampHasNoSlash(d2);
    FormatInjective(d1, d2);
    if OutputPathFor(input, Format(d1)) == OutputPathFor(input, Format(d2)) {
      OutputPathInjective(input, Format(d1), Format(d2));
    }
  }

  // ---------------------------------------------------------------------------
  // The search loops of find_text_in_document, appending to one result list
  // ---------------------------------------------------------------------------

  /** `for span in line.get("spans", [])`: append every matching span of one line. */
  method ScanSpans(needle: string, spans: seq<Span>, pageNo: int, acc: seq<Occurrence>) returns (occ: seq<Occurrence>)
    ensures occ == acc + SpanHits(needle, spans, pageNo)
  {
    occ := acc;
    var k := 0;
    while k < |spans|
      invariant 0 <= k <= |spans|
      invariant occ == acc + SpanHits(needle, spans[..k], pageNo)
    {
      var spanText := Strip(spans[k].text);
      if Contains(spanText, needle) {
        occ := occ + [Occurrence(pageNo, spans[k].bbox)];
      }
      SpanHitsSnoc(needle, spans, k, pageNo);
      k := k + 1;
    }
    assert spans[..k] == spans;
  }

  /** `for line in block.get("lines", [])`. */
  method ScanLines(needle: string, lines: seq<Line>, pageNo: int, acc: seq<Occurrence>) returns (occ: seq<Occurrence>)
    ensures occ == acc + LineHits(needle, lines, pageNo)
  {
    occ := acc;
    var l := 0;
    while l < |lines|
      invariant 0 <= l <= |lines|
      invariant occ == acc + LineHits(needle, lines[..l], pageNo)
    {
      occ := ScanSpans(needle, lines[l].spans, pageNo, occ);
      LineHitsSnoc(needle, lines, l, pageNo);
      l := l + 1;
    }
    assert lines[..l] == lines;
  }

  /** `for block in text_instances.get("blocks", [])`, skipping blocks that are not text. */
  method ScanBlocks(needle: string, blocks: seq<Block>, pageNo: int, acc: seq<Occurrence>) returns (occ: seq<Occurrence>)
    ensures occ == acc + BlockHits(needle, blocks, pageNo)
  {
    occ := acc;
    var b := 0;
    while b < |blocks|
      invariant 0 <= b <= |blocks|
      invariant occ == acc + BlockHits(needle, blocks[..b], pageNo)
    {
      if blocks[b].kind == 0 {
        occ := ScanLines(needle, blocks[b].lines, pageNo, occ);
      }
      BlockHitsSnoc(needle, blocks, b, pageNo);
      b := b + 1;
    }
    assert blocks[..b] == blocks;
  }

  /**
   * The page loop of `find_text_in_document` over an open document: the
   * target page, when truthy, is validated inside the loop, and the hits of
   * every page searched are appended in turn.
   */
  method ScanPages(doc: Document, needle: string, target: Option<int>) returns (r: Result<seq<Occurrence>, Error>)
    requires |doc.pages| > 0
    ensures PageTruthy(target) && !(1 <= target.value <= |doc.pages|) ==> r == Failure(InvalidTargetPage)
    ensures !(PageTruthy(target) && !(1 <= target.value <= |doc.pages|)) ==>
              r == Success(PageHits(needle, doc.pages, PagesToSearch(doc, target)))
  {
    var pagesToSearch := if PageTruthy(target) then [target.value - 1] else Range(|doc.pages|);
    var occurrences := [];
    var i := 0;
    while i < |pagesToSearch|
      invariant 0 <= i <= |pagesToSearch|
      invariant i > 0 && PageTruthy(target) ==> 1 <= target.value <= |doc.pages|
      invariant occurrences == PageHits(needle, doc.pages, pagesToSearch[..i])
    {
      if PageTruthy(target) && !ValidatePage(Some(doc), target.value).value {
        return Failure(InvalidTargetPage);
      }
      var pageNum := pagesToSearch[i];
      var page := doc.pages[pageNum];
      occurrences := ScanBlocks(needle, page.blocks, pageNum + 1, occurrences);
      PageHitsSnoc(needle, doc.pages, pagesToSearch, i);
      assert PageHit(needle, doc.pages, pageNum) == BlockHits(needle, page.blocks, pageNum + 1);
      i := i + 1;
    }
    assert pagesToSearch[..i] == pagesToSearch;
    return Success(occurrences);
  }

  /** Adding one more occurrence adds its page to the set of pages. */
  lemma PagesOfSnoc(occ: seq<Occurrence>, k: nat)
    requires k < |occ|
    ensures PagesOf(occ[..k + 1]) == PagesOf(occ[..k]) + {occ[k].page}
  {
    var front, all := occ[..k], occ[..k + 1];
    forall p | p in PagesOf(all)
      ensures p in PagesOf(front) + {occ[k].page}
    {
      var i :| 0 <= i < |all| && all[i].page == p;
      if i < k {
        assert front[i] == all[i];
      }
    }
    forall p | p in PagesOf(front)
      ensures p in PagesOf(all)
    {
      var i :| 0 <= i < |front| && front[i].page == p;
      assert all[i] == front[i];
    }
    assert all[k] == occ[k];
  }

  /** Adding one more occurrence adds its overlay at the end. */
  lemma OverlaysForSnoc(occ: seq<Occurrence>, k: nat, text: string)
    requires k < |occ|
    ensures OverlaysFor(occ[..k + 1], text) == OverlaysFor(occ[..k], text) + [Overlay(occ[k].page, occ[k].bbox, text)]
  {
    assert occ[..k + 1][..k] == occ[..k];
  }

  // ---------------------------------------------------------------------------
  // process_edit, as a function of the state it starts from
  // ---------------------------------------------------------------------------

  /** `open_document()` on a truthy input path: the document it opens, or the one already held if opening fails. */
  function Opened(input: string, library: map<string, Document>, held: Option<Document>): Option<Document>
  {
    if input in library then Some(library[input]) else held
  }

  /** The document opens and `replace_text` replaces at least one occurrence. */
  predicate Replaced(input: string, library: map<string, Document>, oldText: string, newText: string, target: Option<int>)
  {
    input in library
    && var t := ReplaceTargets(Some(library[input]), oldText, newText, target);
    t.Success? && |t.value| > 0
  }

  /**
   * What `process_edit` returns once the input path is set: the output path
   * when a replacement was made and saved, and None when opening, replacing
   * or saving raised (the exception is caught) or nothing matched.
   */
  function EditResult(input: string, library: map<string, Document>, oldText: string, newText: string,
                      target: Option<int>, now: DateTime, writeOk: bool): Option<string>
    requires ValidDateTime(now)
  {
    if Replaced(input, library, oldText, newText, target) && writeOk then Some(OutputPathFor(input, Format(now))) else None
  }

  /**
   * A path process_edit returns is a new file next to the input, named after
   * it with "_modified_" and the timestamp of `now`.
   */
  lemma EditResultPath(input: string, library: map<string, Document>, oldText: string, newText: string,
                       target: Option<int>, now: DateTime, writeOk: bool)
    requires ValidDateTime(now)
    requires EditResult(input, library, oldText, newText, target, now, writeOk).Some?
    ensures var p := EditResult(input, library, oldText, newText, target, now, writeOk).value;
            p != input && Dirname(p) == Dirname(input)
            && Basename(p) == SplitExt(Basename(input)).0 + "_modified_" + Format(now) + SplitExt(Basename(input)).1
  {
    StampHasNoSlash(now);
    OutputPathShape(input, Format(now));
  }

  /** Some span of a text block on the page contains the needle. */
  ghost predicate HasHit(needle: string, page: Page)
  {
    exists b, l, k :: HitAt(needle, page, b, l, k)
  }

  /**
   * process_edit returns a path only when the search text occurs in some span
   * of a text block on a searched page of the opened document.
   */
  lemma EditResultFoundText(input: string, library: map<string, Document>, oldText: string, newText: string,
                            target: Option<int>, now: DateTime, writeOk: bool)
    requires ValidDateTime(now)
    requires EditResult(input, library, oldText, newText, target, now, writeOk).Some?
    ensures input in library
    ensures exists p :: Searched(library[input].pages, target, p) && HasHit(Strip(oldText), library[input].pages[p])
  {
    var doc := Some(library[input]);
    var occ := Find(doc, oldText, target).value;
    FindReportsExactly(doc, oldText, target, occ[0]);
    assert occ[0] in occ;
    var p :| Searched(library[input].pages, target, p) && ReportedOn(Strip(oldText), library[input].pages[p], p + 1, occ[0]);
    assert HasHit(Strip(oldText), library[input].pages[p]);
  }

  /**
   * The editor. `pdfDocument` is the open document, `currentPage` the page
   * `load_page` loaded, `modifiedPages` the 1-based numbers of the pages
   * `replace_text` drew on, and `outputPath` the last generated output path.
   */
  class EditPdf {
    var inputPath: Option<string>
    var pdfDocument: Option<Document>
    var currentPage: Option<Page>
    var modifiedPages: set<int>
    var outputPath: Option<string>

    /**
     * Every page marked modified exists in the document held. This is not a
     * class invariant: opening a shorter document keeps the marked pages and
     * can break it. ReplaceText preserves it and closing an open document
     * establishes it.
     */
    predicate ModifiedPagesExist()
      reads this
    {
      forall p :: p in modifiedPages ==> pdfDocument.Some? && 1 <= p <= |pdfDocument.value.pages|
    }

    /** `EditPDF(input_path)`: nothing opened, nothing modified, no output yet. */
    constructor(inputPath: Option<string>)
      ensures this.inputPath == inputPath
      ensures pdfDocument == None && currentPage == None && modifiedPages == {} && outputPath == None
      ensures ModifiedPagesExist()
    {
      this.inputPath := inputPath;
      pdfDocument := None;
      currentPage := None;
      modifiedPages := {};
      outputPath := None;
    }

    /** `set_input_path(path)`: accepted only when the path exists. */
    method SetInputPath(path: string, existing: set<string>) returns (r: Outcome<Error>)
      modifies this
      ensures path in existing ==> r == Pass && inputPath == Some(path)
      ensures path !in existing ==> r == Fail(FileNotFound) && inputPath == old(inputPath)
      ensures pdfDocument == old(pdfDocument) && currentPage == old(currentPage)
      ensures modifiedPages == old(modifiedPages) && outputPath == old(outputPath)
    {
      if path !in existing {
        return Fail(FileNotFound);
      }
      inputPath := Some(path);
      return Pass;
    }

    /**
     * `open_document()`: needs a truthy input path; on success the opened
     * document replaces the one held, and a failed open leaves it in place.
     * Neither touches the current page or the modified pages.
     */
    method OpenDocument(library: map<string, Document>) returns (r: Outcome<Error>)
      modifies this
      ensures !InputTruthy(inputPath) ==> r == Fail(NoInputPath) && pdfDocument == old(pdfDocument)
      ensures InputTruthy(inputPath) && inputPath.value !in library ==> r == Fail(OpenFailed) && pdfDocument == old(pdfDocument)
      ensures InputTruthy(inputPath) && inputPath.value in library ==> r == Pass && pdfDocument == Some(library[inputPath.value])
      ensures inputPath == old(inputPath) && currentPage == old(currentPage)
      ensures modifiedPages == old(modifiedPages) && outputPath == old(outputPath)
    {
      if !InputTruthy(inputPath) {
        return Fail(NoInputPath);
      }
      var path := inputPath.value;
      if path !in library {
        return Fail(OpenFailed);
      }
      pdfDocument := Some(library[path]);
      return Pass;
    }

    /** `__enter__`: refuses an unset input path, then opens the document. */
    method Enter(library: map<string, Document>) returns (r: Outcome<Error>)
      modifies this
      ensures !InputTruthy(inputPath) ==> r == Fail(NoInputPath) && pdfDocument == old(pdfDocument)
      ensures InputTruthy(inputPath) && inputPath.value !in library ==> r == Fail(OpenFailed) && pdfDocument == old(pdfDocument)
      ensures InputTruthy(inputPath) && inputPath.value in library ==> r == Pass && pdfDocument == Some(library[inputPath.value])
      ensures inputPath == old(inputPath) && currentPage == old(currentPage)
      ensures modifiedPages == old(modifiedPages) && outputPath == old(outputPath)
    {
      if !InputTruthy(inputPath) {
        return Fail(NoInputPath);
      }
      r := OpenDocument(library);
    }

    /**
     * `close_document()`: a truthy document is closed and the page and the
     * modified pages are cleared; otherwise nothing happens. Either way no
     * truthy document is left, so a second close changes nothing.
     */
    method CloseDocument()
      modifies this
      ensures !IsOpen(pdfDocument)
      ensures old(IsOpen(pdfDocument)) ==> pdfDocument == None && currentPage == None && modifiedPages == {}
      ensures !old(IsOpen(pdfDocument)) ==>
                pdfDocument == old(pdfDocument) && currentPage == old(currentPage) && modifiedPages == old(modifiedPages)
      ensures old(IsOpen(pdfDocument)) ==> ModifiedPagesExist()
      ensures inputPath == old(inputPath) && outputPath == old(outputPath)
    {
      if IsOpen(pdfDocument) {
        pdfDocument := None;
        currentPage := None;
        modifiedPages := {};
      }
    }

    /** `__exit__`: closes the document. */
    method Exit()
      modifies this
      ensures !IsOpen(pdfDocument)
      ensures old(IsOpen(pdfDocument)) ==> pdfDocument == None && currentPage == None && modifiedPages == {}
      ensures !old(IsOpen(pdfDocument)) ==>
                pdfDocument == old(pdfDocument) && currentPage == old(currentPage) && modifiedPages == old(modifiedPages)
      ensures inputPath == old(inputPath) && outputPath == old(outputPath)
    {
      CloseDocument();
    }

    /** `load_page(p)`: the 1-based page p becomes the current page when it exists. */
    method LoadPage(p: int) returns (r: Outcome<Error>)
      modifies this
      ensures !IsOpen(pdfDocument) ==> r == Fail(NotOpened) && currentPage == old(currentPage)
      ensures IsOpen(pdfDocument) && !(1 <= p <= |pdfDocument.value.pages|) ==> r == Fail(InvalidPage) && currentPage == old(currentPage)
      ensures IsOpen(pdfDocument) && 1 <= p <= |pdfDocument.value.pages| ==> r == Pass && currentPage == Some(pdfDocument.value.pages[p - 1])
      ensures inputPath == old(inputPath) && pdfDocument == old(pdfDocument)
      ensures modifiedPages == old(modifiedPages) && outputPath == old(outputPath)
    {
      var valid := ValidatePage(pdfDocument, p);
      if valid.Failure? {
        return Fail(valid.error);
      }
      if !valid.value {
        return Fail(InvalidPage);
      }
      currentPage := Some(pdfDocument.value.pages[p - 1]);
      return Pass;
    }

    /**
     * `find_text_in_document(old_text, target_page)`: the document and the
     * search text are checked first, then the pages are scanned.
     */
    method FindTextInDocument(oldText: string, target: Option<int>) returns (r: Result<seq<Occurrence>, Error>)
      ensures r == Find(pdfDocument, oldText, target)
    {
      if !IsOpen(pdfDocument) {
        return Failure(NotOpened);
      }
      if Blank(oldText) {
        return Failure(EmptySearchText);
      }
      r := ScanPages(pdfDocument.value, Strip(oldText), target);
    }

    /**
     * `replace_text(old_text, new_text, target_page)`: on success, one
     * overlay per occurrence, in order, and the occurrences' pages marked
     * modified; the result says whether anything was replaced. Pages marked
     * modified keep existing.
     */
    method ReplaceText(oldText: string, newText: string, target: Option<int>) returns (r: Result<bool, Error>)
      modifies this
      ensures var t := ReplaceTargets(old(pdfDocument), oldText, newText, target);
              (t.Failure? ==> r == Failure(t.error)) && (t.Success? ==> r == Success(|t.value| > 0))
      ensures r == Success(true) ==>
                var t := ReplaceTargets(old(pdfDocument), oldText, newText, target);
                pdfDocument == Some(Document(old(pdfDocument).value.pages,
                                             old(pdfDocument).value.overlays + OverlaysFor(t.value, newText)))
                && modifiedPages == old(modifiedPages) + PagesOf(t.value)
      ensures r != Success(true) ==> pdfDocument == old(pdfDocument) && modifiedPages == old(modifiedPages)
      ensures old(ModifiedPagesExist()) ==> ModifiedPagesExist()
      ensures inputPath == old(inputPath) && currentPage == old(currentPage) && outputPath == old(outputPath)
    {
      if !IsOpen(pdfDocument) {
        return Failure(NotOpened);
      }
      if Blank(newText) {
        return Failure(EmptyReplacementText);
      }
      var found := FindTextInDocument(oldText, target);
      if found.Failure? {
        return Failure(found.error);
      }
      var occ := found.value;
      if |occ| == 0 {
        return Success(false);
      }
      ReplacedPagesInRange(pdfDocument, oldText, newText, target);
      DrawReplacements(occ, newText);
      return Success(true);
    }

    /**
     * The loop of `replace_text` over the occurrences: a white box with the
     * new text over each one, in order, and its page marked modified.
     */
    method DrawReplacements(occ: seq<Occurrence>, newText: string)
      requires pdfDocument.Some?
      modifies this
      ensures pdfDocument == Some(Document(old(pdfDocument).value.pages,
                                           old(pdfDocument).value.overlays + OverlaysFor(occ, newText)))
      ensures modifiedPages == old(modifiedPages) + PagesOf(occ)
      ensures inputPath == old(inputPath) && currentPage == old(currentPage) && outputPath == old(outputPath)
    {
      ghost var doc0, pages0 := pdfDocument.value, modifiedPages;
      var k := 0;
      assert OverlaysFor(occ[..0], newText) == [] && doc0.overlays + [] == doc0.overlays;
      while k < |occ|
        invariant 0 <= k <= |occ|
        invariant pdfDocument == Some(Document(doc0.pages, doc0.overlays + OverlaysFor(occ[..k], newText)))
        invariant modifiedPages == pages0 + PagesOf(occ[..k])
        invariant inputPath == old(inputPath) && currentPage == old(currentPage) && outputPath == old(outputPath)
      {
        var pageNum, bbox := occ[k].page, occ[k].bbox;
        var doc := pdfDocument.value;
        pdfDocument := Some(Document(doc.pages, doc.overlays + [Overlay(pageNum, bbox, newText)]));
        modifiedPages := modifiedPages + {pageNum};
        OverlaysForSnoc(occ, k, newText);
        assert doc.overlays + [Overlay(pageNum, bbox, newText)]
               == doc0.overlays + (OverlaysFor(occ[..k], newText) + [Overlay(pageNum, bbox, newText)]);
        PagesOfSnoc(occ, k);
        k := k + 1;
      }
      assert occ[..k] == occ;
    }

    /** `generate_output_path()` at the moment `now`. */
    function GenerateOutputPath(now: DateTime): (r: Result<string, Error>)
      reads this
      requires ValidDateTime(now)
      ensures r.Failure? <==> !InputTruthy(inputPath)
      ensures r.Failure? ==> r.error == NoInputPath
      ensures r.Success? ==> r.value != inputPath.value && Dirname(r.value) == Dirname(inputPath.value)
      ensures r.Success? ==> Basename(r.value) == SplitExt(Basename(inputPath.value)).0 + "_modified_"
                                                 + Format(now) + SplitExt(Basename(inputPath.value)).1
    {
      if !InputTruthy(inputPath) then Failure(NoInputPath)
      else
        StampHasNoSlash(now);
        OutputPathShape(inputPath.value, Format(now));
        Success(OutputPathFor(inputPath.value, Format(now)))
    }

    /** `save_document(path)`: needs an open document; `writeOk` is whether writing succeeds. */
    method SaveDocument(path: string, writeOk: bool) returns (r: Outcome<Error>)
      ensures !IsOpen(pdfDocument) ==> r == Fail(NotOpened)
      ensures IsOpen(pdfDocument) ==> (r == Pass <==> writeOk) && (r != Pass ==> r == Fail(SaveFailed))
    {
      if !IsOpen(pdfDocument) {
        return Fail(NotOpened);
      }
      if !writeOk {
        return Fail(SaveFailed);
      }
      return Pass;
    }

    /**
     * `process_edit(old_text, new_text, target_page)`: open, replace,
     * generate the output path and save, then close whatever document is
     * held. Only an unset input path escapes as an error; every later
     * failure is caught and gives None.
     */
    method ProcessEdit(oldText: string, newText: string, target: Option<int>,
                       library: map<string, Document>, now: DateTime, writeOk: bool)
      returns (r: Result<Option<string>, Error>)
      requires ValidDateTime(now)
      modifies this
      ensures !InputTruthy(old(inputPath)) ==> r == Failure(NoInputPath) && unchanged(this)
      ensures InputTruthy(old(inputPath)) ==>
                r == Success(EditResult(old(inputPath).value, library, oldText, newText, target, now, writeOk))
      ensures InputTruthy(old(inputPath)) ==>
                outputPath == if Replaced(old(inputPath).value, library, oldText, newText, target)
                              then Some(OutputPathFor(old(inputPath).value, Format(now))) else old(outputPath)
      ensures InputTruthy(old(inputPath)) ==>
                var held := Opened(old(inputPath).value, library, old(pdfDocument));
                (IsOpen(held) ==> pdfDocument == None && currentPage == None && modifiedPages == {})
                && (!IsOpen(held) ==> pdfDocument == held && currentPage == old(currentPage)
                                      && modifiedPages == old(modifiedPages))
      ensures inputPath == old(inputPath)
    {
      if !InputTruthy(inputPath) {
        return Failure(NoInputPath);
      }
      var result: Option<string> := None;
      var openResult := OpenDocument(library);
      if openResult.Pass? {
        var replaced := ReplaceText(oldText, newText, target);
        if replaced == Success(true) {
          var path := GenerateOutputPath(now);
          outputPath := Some(path.value);
          var saved := SaveDocument(path.value, writeOk);
          if saved.Pass? {
            result := Some(path.value);
          }
        }
      }
      CloseDocument();
      return Success(result);
    }
  }
}
