/**
  The resume reader's one piece of logic: the text extracted from each PDF
  page (`None` when a page yields no text) is joined into a single string,
  with one line feed between neighbouring pages.
 */
module ResumeReader {
  import opened Wrappers
  import opened PyText

  /** `page.extract_text() or ""`: a page without text contributes the empty string. */
  function PageText(page: Option<string>): string {
    page.GetOr("")
  }

  /** The per-page texts, in page order. */
  function PageTexts(pages: seq<Option<string>>): (texts: seq<string>)
    ensures |texts| == |pages|
    ensures forall i :: 0 <= i < |pages| ==> texts[i] == (if pages[i].Some? then pages[i].value else "")
  {
    seq(|pages|, i requires 0 <= i < |pages| => PageText(pages[i]))
  }

  /** `"\n".join(page.extract_text() or "" for page in reader.pages)`. */
  function ExtractText(pages: seq<Option<string>>): string {
    Join("\n", PageTexts(pages))
  }

  /** A document without pages yields the empty string. */
  lemma NoPagesNoText()
    ensures ExtractText([]) == ""
  {
  }

  /**
    The text of page `i` stands unchanged in the result, after every earlier
    page's text and one line feed per earlier page; every page but the last
    is followed by exactly one line feed.
   */
  lemma {:induction false} PagesInOrder(pages: seq<Option<string>>, i: nat)
    requires i < |pages|
    ensures var at := Offset("\n", PageTexts(pages), i);
            var text := PageText(pages[i]);
            && at + |text| <= |ExtractText(pages)|
            && ExtractText(pages)[at..at + |text|] == text
            && (i + 1 < |pages| ==> at + |text| < |ExtractText(pages)| && ExtractText(pages)[at + |text|] == '\n')
  {
    var texts := PageTexts(pages);
    JoinPieceAt("\n", texts, i);
    var at := Offset("\n", texts, i);
    var text := texts[i];
    if i + 1 < |pages| {
      assert ExtractText(pages)[at + |text|..at + |text| + 1][0] == ExtractText(pages)[at + |text|];
    }
  }

  /** The result is as long as all page texts plus one line feed between each pair of pages. */
  lemma ExtractedLength(pages: seq<Option<string>>)
    requires pages != []
    ensures |ExtractText(pages)| == TotalLength(PageTexts(pages)) + |pages| - 1
  {
    JoinLength("\n", PageTexts(pages));
  }

  /** Joining `k >= 1` pages inserts exactly `k - 1` line feeds beyond those in the pages. */
  lemma InsertedLineFeeds(pages: seq<Option<string>>)
    requires pages != []
    ensures Count('\n', ExtractText(pages)) == TotalCount('\n', PageTexts(pages)) + |pages| - 1
  {
    JoinCount('\n', PageTexts(pages));
  }

  /**
    The separator goes between pages, not after each one: adding one final
    line feed gives the form in which every page's text is followed by a line feed.
   */
  lemma SeparatorBetweenNotAfter(pages: seq<Option<string>>)
    requires pages != []
    ensures ExtractText(pages) + "\n" == Terminated("\n", PageTexts(pages))
  {
    JoinThenSeparator("\n", PageTexts(pages));
  }
}
