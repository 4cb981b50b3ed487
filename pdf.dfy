/** `extractTextFromPdf` (services/pdf.ts): the text of a PDF document, page
    by page. Parsing is done by a library that is not part of this model; a
    document is given as the item strings of each of its pages, or `None`
    when the library failed. */
module Pdf {
  import opened Wrappers
  import opened Strings
  import opened Types

  /** The one error every failure is turned into. */
  const ParseFailed: string := "Failed to parse PDF file."

  const PageBreak: string := "\n\n"

  /** `textContent.items.map(item => item.str).join(' ')`. */
  function PageText(items: seq<string>): string {
    Join(items, " ")
  }

  /** `fullText` after the loop: each page's text followed by a blank line,
      pages in order, so at least two characters per page. */
  function RawText(pages: seq<seq<string>>): (r: string)
    ensures |r| >= |PageBreak| * |pages|
  {
    if |pages| == 0 then ""
    else RawText(pages[..|pages| - 1]) + PageText(pages[|pages| - 1]) + PageBreak
  }

  /** The text of the pages is the text of the first `k` pages followed by
      the text of the rest. */
  lemma {:induction false} RawTextSplit(pages: seq<seq<string>>, k: nat)
    requires k <= |pages|
    ensures RawText(pages) == RawText(pages[..k]) + RawText(pages[k..])
    decreases |pages| - k
  {
    if k == |pages| {
      assert pages[..k] == pages && pages[k..] == [];
    } else {
      var n := |pages|;
      var init, rest := pages[..n - 1], pages[k..];
      RawTextSplit(init, k);
      assert init[..k] == pages[..k];
      assert rest[..|rest| - 1] == init[k..] && rest[|rest| - 1] == pages[n - 1];
      RawTextLast(pages);
      RawTextLast(rest);
      Associate(RawText(pages[..k]), RawText(init[k..]), PageText(pages[n - 1]) + PageBreak);
    }
  }

  /** The last page contributes its text and a blank line at the end. */
  lemma RawTextLast(pages: seq<seq<string>>)
    requires |pages| > 0
    ensures RawText(pages) == RawText(pages[..|pages| - 1]) + (PageText(pages[|pages| - 1]) + PageBreak)
  {
  }

  lemma Associate(a: string, b: string, c: string)
    ensures (a + b) + c == a + (b + c)
  {
  }

  /** Taking one more page adds that page's text and a blank line. */
  lemma RawTextPrefix(pages: seq<seq<string>>, i: nat)
    requires i < |pages|
    ensures RawText(pages[..i + 1]) == RawText(pages[..i]) + PageText(pages[i]) + PageBreak
  {
    var upTo := pages[..i + 1];
    assert upTo[..i] == pages[..i] && upTo[i] == pages[i];
  }

  /** Page `i` contributes its text and a blank line, between the pages
      before it and the pages after it. */
  lemma RawTextPage(pages: seq<seq<string>>, i: nat)
    requires i < |pages|
    ensures RawText(pages)
      == RawText(pages[..i]) + PageText(pages[i]) + PageBreak + RawText(pages[i + 1..])
  {
    RawTextSplit(pages, i + 1);
    RawTextPrefix(pages, i);
  }

  /** Items are separated by exactly one space: when no item holds a space,
      splitting a page's text at spaces gives back its items. */
  lemma PageTextSplits(items: seq<string>)
    requires |items| >= 1
    requires forall k :: 0 <= k < |items| ==> ' ' !in items[k]
    ensures Split(PageText(items), " ") == items
  {
    SplitJoinChar(items, ' ');
  }

  /** `extractTextFromPdf(file)`: the pages' text, trimmed; any failure is
      the single parse error. */
  method ExtractTextFromPdf(document: Option<seq<seq<string>>>) returns (r: Result<string, JsError>)
    ensures document.None? ==> r == Failure(JsError("Error", ParseFailed))
    ensures document.Some? ==> r == Success(Trim(RawText(document.value)))
    ensures document == Some([]) ==> r == Success("")
    ensures r.Success? && |r.value| > 0 ==>
      !IsWhitespace(r.value[0]) && !IsWhitespace(r.value[|r.value| - 1])
  {
    if document.None? {
      return Failure(JsError("Error", ParseFailed));
    }
    var pdf := document.value;
    var fullText := "";
    var i := 1;
    while i <= |pdf|
      invariant 1 <= i <= |pdf| + 1
      invariant fullText == RawText(pdf[..i - 1])
    {
      var pageText := PageText(pdf[i - 1]);
      assert pdf[..i] == pdf[..i - 1] + [pdf[i - 1]];
      fullText := fullText + pageText + PageBreak;
      i := i + 1;
    }
    assert pdf[..i - 1] == pdf;
    return Success(Trim(fullText));
  }
}
