/**
 The page choice inside `display_pdf_pages` of somnath.py: given the strings
 the PDF viewer's canvas yields (`viewer.canvas.strings`, which the code calls
 `pages`) and a 1-based page number, either report an invalid page number or
 yield the string at that position. The PDF rendering that produces the
 strings is not modelled; they arrive as a sequence.
 */
module PdfPages {

  datatype PageChoice = PageText(text: string) | InvalidPageNumber

  /** The entry numbered `pageNumber`, counting from 1, or `InvalidPageNumber`
      when the number is below 1 or beyond the last entry. */
  function SelectPage(pages: seq<string>, pageNumber: int): (r: PageChoice)
    ensures r.PageText? <==> 1 <= pageNumber <= |pages|
    ensures r.PageText? ==> r.text == pages[pageNumber - 1]
  {
    if pageNumber < 1 || pageNumber > |pages| then InvalidPageNumber
    else PageText(pages[pageNumber - 1])
  }

  /** Numbers 1 .. |pages| reach every entry, in order, and no other number
      reaches one: numbering from 1 is a bijection onto positions. */
  lemma {:induction false} PageNumbersCoverPages(pages: seq<string>)
    ensures |set n | 1 <= n <= |pages| && SelectPage(pages, n).PageText?| == |pages|
    ensures forall i :: 0 <= i < |pages| ==> SelectPage(pages, i + 1) == PageText(pages[i])
    decreases |pages|
  {
    if |pages| > 0 {
      var m := |pages| - 1;
      PageNumbersCoverPages(pages[..m]);
      var small := set n | 1 <= n <= m && SelectPage(pages[..m], n).PageText?;
      var big := set n | 1 <= n <= |pages| && SelectPage(pages, n).PageText?;
      assert big == small + {|pages|};
    }
  }
}
