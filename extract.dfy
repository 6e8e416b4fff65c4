/** The fallback chain of `extract_text_from_pdf` in rag.py. The PDF libraries
    themselves are outside the model: each strategy is given as what it
    produced, `None` when the library could not open the document (or could
    not be loaded) and otherwise one result per page, a page whose extraction
    raised being `PageFailed`. */
module Extraction {
  import opened Py
  import opened Whitespace

  datatype PageResult = PageText(text: string) | PageFailed

  /** The texts the per-page loop appends: failed pages contribute nothing
      (`except Exception: continue`). */
  function PageTexts(pages: seq<PageResult>): (ts: seq<string>)
    ensures |ts| <= |pages|
  {
    if pages == [] then []
    else match pages[0]
      case PageText(t) => [t] + PageTexts(pages[1..])
      case PageFailed => PageTexts(pages[1..])
  }

  /** What one strategy yields: its page texts joined by newlines, normalized. */
  function StrategyText(pages: seq<PageResult>): string {
    NormalizeWs(JoinWith(PageTexts(pages), "\n"))
  }

  /** Every text in `ts` is empty or only whitespace. */
  ghost predicate BlankTexts(ts: seq<string>) {
    forall i :: 0 <= i < |ts| ==> AllSpace(ts[i])
  }

  /** Every page the strategy read was empty or only whitespace. */
  ghost predicate AllBlank(pages: seq<PageResult>) {
    forall i :: 0 <= i < |pages| && pages[i].PageText? ==> AllSpace(pages[i].text)
  }

  /** pypdf, then PyMuPDF, then OCR over the PyMuPDF document. The first two
      count only when their normalized text is non-empty; the OCR text is
      returned as it is, empty or not; when PyMuPDF cannot open the document
      the answer is `""` and OCR is not consulted. */
  function ExtractText(pypdf: Option<seq<PageResult>>, mupdf: Option<seq<PageResult>>,
                       ocr: Option<seq<PageResult>>): (r: string)
    ensures Normalized(r)
    ensures pypdf.Some? && StrategyText(pypdf.value) != [] ==> r == StrategyText(pypdf.value)
    ensures (pypdf.None? || StrategyText(pypdf.value) == []) && mupdf.None? ==> r == []
    ensures (pypdf.None? || StrategyText(pypdf.value) == []) && mupdf.Some? ==>
      r == if StrategyText(mupdf.value) != [] then StrategyText(mupdf.value)
           else if ocr.Some? then StrategyText(ocr.value) else []
  {
    var first := if pypdf.Some? then StrategyText(pypdf.value) else [];
    if first != [] then
      NormalizeWsShape(JoinWith(PageTexts(pypdf.value), "\n"));
      first
    else match mupdf
      case None => []
      case Some(pages) =>
        var second := StrategyText(pages);
        NormalizeWsShape(JoinWith(PageTexts(pages), "\n"));
        if second != [] then second
        else match ocr
          case None => []
          case Some(scanned) =>
            NormalizeWsShape(JoinWith(PageTexts(scanned), "\n"));
            StrategyText(scanned)
  }

  lemma {:induction false} PageTextsAppend(a: seq<PageResult>, b: seq<PageResult>)
    ensures PageTexts(a + b) == PageTexts(a) + PageTexts(b)
  {
    if a == [] {
      assert a + b == b;
    } else {
      assert (a + b)[0] == a[0] && (a + b)[1..] == a[1..] + b;
      PageTextsAppend(a[1..], b);
    }
  }

  /** A page whose extraction raised is simply left out: the strategy reads
      the same text as if that page were not there. */
  lemma DropFailedPage(before: seq<PageResult>, after: seq<PageResult>)
    ensures StrategyText(before + [PageFailed] + after) == StrategyText(before + after)
  {
    PageTextsAppend(before + [PageFailed], after);
    PageTextsAppend(before, [PageFailed]);
    PageTextsAppend(before, after);
    assert PageTexts([PageFailed]) == PageTexts([]) == [];
    assert PageTexts(before + [PageFailed]) == PageTexts(before);
  }

  lemma {:induction false} JoinLinesBlank(ts: seq<string>)
    ensures AllSpace(JoinWith(ts, "\n")) <==> BlankTexts(ts)
  {
    if |ts| > 1 {
      JoinLinesBlank(ts[1..]);
      var rest := JoinWith(ts[1..], "\n");
      var j := ts[0] + "\n" + rest;
      assert JoinWith(ts, "\n") == j;
      assert AllSpace(j) <==> AllSpace(ts[0]) && AllSpace(rest) by {
        if AllSpace(ts[0]) && AllSpace(rest) {
          forall k | 0 <= k < |j| ensures IsSpace(j[k]) {
            if k < |ts[0]| { assert j[k] == ts[0][k]; }
            else if k == |ts[0]| { assert j[k] == '\n'; }
            else { assert j[k] == rest[k - |ts[0]| - 1]; }
          }
        }
        if AllSpace(j) {
          forall k | 0 <= k < |ts[0]| ensures IsSpace(ts[0][k]) { assert ts[0][k] == j[k]; }
          forall k | 0 <= k < |rest| ensures IsSpace(rest[k]) { assert rest[k] == j[k + |ts[0]| + 1]; }
        }
      }
      assert BlankTexts(ts) <==> AllSpace(ts[0]) && BlankTexts(ts[1..]) by {
        if BlankTexts(ts[1..]) {
          forall i | 1 <= i < |ts| ensures AllSpace(ts[i]) { assert ts[i] == ts[1..][i - 1]; }
        }
      }
    }
  }

  lemma {:induction false} PageTextsBlank(pages: seq<PageResult>)
    ensures BlankTexts(PageTexts(pages)) <==> AllBlank(pages)
  {
    if pages != [] {
      PageTextsBlank(pages[1..]);
      var tail := pages[1..];
      assert AllBlank(pages) <==>
        (pages[0].PageText? ==> AllSpace(pages[0].text)) && AllBlank(tail) by {
        if (pages[0].PageText? ==> AllSpace(pages[0].text)) && AllBlank(tail) {
          forall i | 0 <= i < |pages| && pages[i].PageText? ensures AllSpace(pages[i].text) {
            if i > 0 { assert pages[i] == tail[i - 1]; }
          }
        }
        if AllBlank(pages) {
          forall i | 0 <= i < |tail| && tail[i].PageText? ensures AllSpace(tail[i].text) {
            assert tail[i] == pages[i + 1];
          }
        }
      }
      var rest := PageTexts(tail);
      if pages[0].PageText? {
        var ts := PageTexts(pages);
        assert ts == [pages[0].text] + rest;
        assert BlankTexts(ts) <==> AllSpace(pages[0].text) && BlankTexts(rest) by {
          if AllSpace(pages[0].text) && BlankTexts(rest) {
            forall i | 0 <= i < |ts| ensures AllSpace(ts[i]) {
              if i > 0 { assert ts[i] == rest[i - 1]; }
            }
          }
          if BlankTexts(ts) {
            assert AllSpace(ts[0]);
            forall i | 0 <= i < |rest| ensures AllSpace(rest[i]) { assert rest[i] == ts[i + 1]; }
          }
        }
      } else {
        assert PageTexts(pages) == rest;
      }
    }
  }

  /** A strategy falls through to the next one exactly when every page it
      managed to read is empty or whitespace (pages joined with `"\n"`). */
  lemma StrategyTextBlank(pages: seq<PageResult>)
    ensures StrategyText(pages) == [] <==> AllBlank(pages)
  {
    var ts := PageTexts(pages);
    NormalizeWsEmpty(JoinWith(ts, "\n"));
    JoinLinesBlank(ts);
    PageTextsBlank(pages);
  }

  /** Extraction gives `""` exactly when pypdf read nothing but whitespace
      (or failed), and then either PyMuPDF could not open the document, or it
      also read only whitespace and OCR was unavailable or read only
      whitespace. */
  lemma ExtractEmpty(pypdf: Option<seq<PageResult>>, mupdf: Option<seq<PageResult>>,
                     ocr: Option<seq<PageResult>>)
    ensures ExtractText(pypdf, mupdf, ocr) == [] <==>
      && (pypdf.None? || AllBlank(pypdf.value))
      && (mupdf.None? || (AllBlank(mupdf.value) && (ocr.None? || AllBlank(ocr.value))))
  {
    if pypdf.Some? { StrategyTextBlank(pypdf.value); }
    if mupdf.Some? { StrategyTextBlank(mupdf.value); }
    if ocr.Some? { StrategyTextBlank(ocr.value); }
  }
}
