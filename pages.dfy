/**
 * Text extraction from a downloaded attachment (`download_and_parse_pdf`).
 *
 * The download, the temporary file and the PDF reader are not modelled: the
 * reader's outcome is given as the texts of the documents `load_and_split`
 * returns, in order, or `None` when the download or the reading failed. The
 * source calls these documents pages; they are pieces produced by a text
 * splitter and need not be whole PDF pages, so "page" below means one of them.
 */
module PdfText {
  import opened Wrappers

  /** The page texts joined in page order with nothing between them. */
  function Concat(pages: seq<string>): string {
    if pages == [] then "" else Concat(pages[..|pages| - 1]) + pages[|pages| - 1]
  }

  /** The number of characters on all pages together, counted from the first page. */
  function TotalLength(pages: seq<string>): nat {
    if pages == [] then 0 else |pages[0]| + TotalLength(pages[1..])
  }

  /**
   * `download_and_parse_pdf` after the reader has run: the loop of lines
   * 80-82 appends each page's content to `full_text`. A failure anywhere in
   * the download or the reading gives `None`.
   */
  method DownloadAndParsePdf(loaded: Option<seq<string>>) returns (fullText: Option<string>)
    ensures loaded.None? ==> fullText == None
    ensures loaded.Some? ==> fullText == Some(Concat(loaded.value))
  {
    if loaded.None? {
      return None;
    }
    var pages := loaded.value;
    var text := "";
    for i := 0 to |pages|
      invariant text == Concat(pages[..i])
    {
      assert pages[..i + 1][..i] == pages[..i];
      text := text + pages[i];
    }
    assert pages[..|pages|] == pages;
    fullText := Some(text);
  }

  /** Joining two runs of pages is joining each run and putting the results side by side. */
  lemma {:induction false} ConcatAppend(a: seq<string>, b: seq<string>)
    ensures Concat(a + b) == Concat(a) + Concat(b)
  {
    if b == [] {
      assert a + b == a;
    } else {
      var n := |b| - 1;
      ConcatAppend(a, b[..n]);
      assert (a + b)[..|a + b| - 1] == a + b[..n];
      assert (a + b)[|a + b| - 1] == b[n];
    }
  }

  /** No separator is added: the text is exactly as long as all pages together. */
  lemma {:induction false} ConcatLength(pages: seq<string>)
    ensures |Concat(pages)| == TotalLength(pages)
  {
    if pages != [] {
      ConcatAppend([pages[0]], pages[1..]);
      assert [pages[0]] + pages[1..] == pages;
      assert [pages[0]][..0] == [];
      ConcatLength(pages[1..]);
    }
  }

  /** Page k sits in the text right after the text of the pages before it. */
  lemma PageAt(pages: seq<string>, k: nat)
    requires k < |pages|
    ensures |Concat(pages[..k])| + |pages[k]| <= |Concat(pages)|
    ensures Concat(pages)[|Concat(pages[..k])|..|Concat(pages[..k])| + |pages[k]|] == pages[k]
  {
    assert pages == pages[..k] + ([pages[k]] + pages[k + 1..]);
    ConcatAppend(pages[..k], [pages[k]] + pages[k + 1..]);
    ConcatAppend([pages[k]], pages[k + 1..]);
    assert [pages[k]][..0] == [];
  }

  /** The text is empty exactly when every page is empty (then nothing is loaded into the session). */
  lemma {:induction false} ConcatEmptyIff(pages: seq<string>)
    ensures Concat(pages) == "" <==> forall k :: 0 <= k < |pages| ==> pages[k] == ""
  {
    if pages != [] {
      var n := |pages| - 1;
      ConcatEmptyIff(pages[..n]);
      assert forall k :: 0 <= k < n ==> pages[..n][k] == pages[k];
    }
  }
}
