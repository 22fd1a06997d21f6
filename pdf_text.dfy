/** How app.py's `read_pdf_content` assembles the document text from the
    pages the PDF library hands it. The library is not modelled: each page is
    represented by what reading it yielded. */
module PdfText {

  /** What reading one page yielded: the page's text, no text (`None`), or
      an exception. An exception while opening the file is a `Failed` first
      page. */
  datatype PageRead = Page(text: string) | NoPageText | Failed

  /** What one readable page adds: its text and a newline, or nothing when
      the text is empty (an empty string is falsy). */
  function PageContribution(text: string): string
  {
    if text != [] then text + "\n" else []
  }

  /** The document text: page contributions in page order, up to the first
      page that failed; what was read before the failure is kept. */
  function DocumentText(pages: seq<PageRead>): string
    decreases |pages|
  {
    if pages == [] then []
    else
      match pages[0]
      case Failed => []
      case NoPageText => DocumentText(pages[1..])
      case Page(t) => PageContribution(t) + DocumentText(pages[1..])
  }

  /** `read_pdf_content`: the page loop, left at the first exception. */
  method ReadPdfContent(pages: seq<PageRead>) returns (text: string)
    ensures text == DocumentText(pages)
  {
    text := [];
    var i := 0;
    while i < |pages|
      invariant 0 <= i <= |pages|
      invariant text + DocumentText(pages[i..]) == DocumentText(pages)
    {
      if pages[i].Failed? {
        break;
      }
      assert pages[i..][1..] == pages[i + 1..];
      if pages[i].Page? && pages[i].text != [] {
        text := text + pages[i].text + "\n";
      }
      i := i + 1;
    }
  }

  /** Nothing after the first failing page reaches the document text. */
  lemma {:induction false} StopsAtFailure(pages: seq<PageRead>, k: nat)
    requires k < |pages| && pages[k].Failed?
    ensures DocumentText(pages) == DocumentText(pages[..k])
    decreases k
  {
    if k > 0 {
      StopsAtFailure(pages[1..], k - 1);
      assert pages[1..][..k - 1] == pages[..k][1..];
    }
  }

  /** Without failures the text of consecutive page runs is the
      concatenation of their texts: pages contribute independently and in order. */
  lemma {:induction false} Concatenates(a: seq<PageRead>, b: seq<PageRead>)
    requires forall i :: 0 <= i < |a| ==> !a[i].Failed?
    ensures DocumentText(a + b) == DocumentText(a) + DocumentText(b)
    decreases |a|
  {
    if a != [] {
      Concatenates(a[1..], b);
      assert (a + b)[0] == a[0] && (a + b)[1..] == a[1..] + b;
      if a[0].Page? {
        var c := PageContribution(a[0].text);
        assert c + (DocumentText(a[1..]) + DocumentText(b)) == (c + DocumentText(a[1..])) + DocumentText(b);
      }
    } else {
      assert a + b == b;
    }
  }

  /** A non-empty document text always ends with a newline. */
  lemma {:induction false} EndsWithNewline(pages: seq<PageRead>)
    ensures DocumentText(pages) != [] ==> DocumentText(pages)[|DocumentText(pages)| - 1] == '\n'
    decreases |pages|
  {
    if pages != [] && !pages[0].Failed? {
      EndsWithNewline(pages[1..]);
    }
  }
}
