/**
 * Text acquisition, shared by the four applications. PyMuPDF (`fitz.open`,
 * `page.get_text`) and EasyOCR (`Reader.readtext(..., detail=0)`) are outside
 * the model: the page texts and the recognised spans are given sequences.
 */
module Acquisition {
  import opened PyText

  /** What `read_image` returns in the second and fourth application when OCR finds nothing. */
  const NoTextSentinel: string := "No text detected"

  /** `read_pdf`: `"\n".join(page.get_text("text") for page in doc)`. */
  function ReadPdf(pages: seq<string>): (text: string)
    ensures IsJoin("\n", pages, text)
    ensures pages == [] ==> text == ""
  {
    JoinLayout("\n", pages);
    Join("\n", pages)
  }

  /** The layout pins the text down: any string laid out as the pages joined by newlines is `ReadPdf(pages)`. */
  lemma ReadPdfDetermined(pages: seq<string>, text: string)
    requires IsJoin("\n", pages, text)
    ensures text == ReadPdf(pages)
  {
    JoinUnique("\n", pages, text);
  }

  /** Pages without line breaks of their own are recovered by splitting on newlines. */
  lemma ReadPdfRecoversPages(pages: seq<string>)
    requires |pages| >= 1
    requires forall i :: 0 <= i < |pages| ==> '\n' !in pages[i]
    ensures Split(ReadPdf(pages), '\n') == pages
  {
    SplitJoin('\n', pages);
  }

  /** `n` pages contribute exactly `n - 1` newline separators on top of their own. */
  lemma ReadPdfSeparators(pages: seq<string>)
    requires |pages| >= 1
    ensures Count('\n', ReadPdf(pages)) == |pages| - 1 + SumCount('\n', pages)
  {
    JoinCount('\n', pages);
  }

  /**
   * A page without text between two others does not fail or vanish: it leaves two
   * newlines side by side where it starts.
   */
  lemma ReadPdfBlankPage(pages: seq<string>, i: nat)
    requires 0 < i < |pages| - 1 && pages[i] == ""
    ensures var text, o := ReadPdf(pages), Offset("\n", pages, i);
            1 <= o && o + 1 <= |text| && text[o - 1..o + 1] == "\n\n"
  {
    var text := ReadPdf(pages);
    var o := Offset("\n", pages, i);
    OffsetStep("\n", pages, i);
    assert PieceAt("\n", pages, text, i - 1);
    assert PieceAt("\n", pages, text, i);
    assert text[o - 1..o] == "\n" && text[o..o + 1] == "\n";
    assert text[o - 1..o + 1] == text[o - 1..o] + text[o..o + 1];
  }

  /** `read_image` in the second and fourth application: `" ".join(text) if text else "No text detected"`. */
  function ReadImage(spans: seq<string>): (text: string)
    ensures spans == [] ==> text == NoTextSentinel
    ensures spans != [] ==> IsJoin(" ", spans, text)
  {
    if spans == [] then NoTextSentinel
    else
      JoinLayout(" ", spans);
      Join(" ", spans)
  }

  /** Spans without spaces of their own are recovered by splitting the text on single spaces. */
  lemma ReadImageRecoversSpans(spans: seq<string>)
    requires spans != []
    requires forall i :: 0 <= i < |spans| ==> ' ' !in spans[i]
    ensures Split(ReadImage(spans), ' ') == spans
  {
    SplitJoin(' ', spans);
  }

  /** The joined string the third application computes after its first OCR pass: `""` for no spans. */
  function JoinedTextV3(spans: seq<string>): (text: string)
    ensures spans == [] ==> text == ""
    ensures spans != [] ==> IsJoin(" ", spans, text)
  {
    if spans == [] then ""
    else
      JoinLayout(" ", spans);
      Join(" ", spans)
  }

  /**
   * `read_image` in the third application: it joins the first pass into `text`,
   * never uses it, and returns the span list of a second `readtext` call.
   */
  function ReadImageV3(firstPass: seq<string>, secondPass: seq<string>): (spans: seq<string>)
    ensures spans == secondPass
  {
    var text := JoinedTextV3(firstPass);
    secondPass
  }

  /** The first pass has no influence on the result, and its joined text for no spans is not the sentinel. */
  lemma ReadImageV3IgnoresFirstPass(first1: seq<string>, first2: seq<string>, second: seq<string>)
    ensures ReadImageV3(first1, second) == ReadImageV3(first2, second)
    ensures JoinedTextV3([]) == "" && JoinedTextV3([]) != NoTextSentinel
  {
  }
}
