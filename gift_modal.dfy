/** The gift modal of script.js: clicking a gift shows one of ten fixed lines,
    "next" steps to the following line, and close, a backdrop click or Escape
    hide the modal. The Santa modal beside it is a second show/hide flag. */
module GiftModal {

  import opened Optional
  import opened QuoteIndex

  /** The table of lines a gift can show. */
  const GIFT_LINES: seq<string> := [
    "May your days be merry and your heart stay warm.",
    "Small moments of kindness make the grandest memories.",
    "You are the quiet magic in a noisy world.",
    "Let hope be the ribbon that ties your year together.",
    "Lights may fade, but the warmth we share will not.",
    "Carry gentleness—it travels farther than you think.",
    "In every winter, there is a soft promise of spring.",
    "The best gifts are the stories we create together.",
    "May your path be lined with grace and good humor.",
    "You are more treasured than the brightest ornament."
  ]

  const SANTA_TEXT: string := "Ho ho ho! Hello there!"

  /** The table has one line per index of LINE_COUNT. */
  lemma TableSize()
    ensures |GIFT_LINES| == LINE_COUNT
  {
  }

  /** The idx-th line of the table, or None (JavaScript's undefined) outside it. */
  function LineAt(idx: int): (line: Option<string>)
    ensures line.Some? <==> 0 <= idx < LINE_COUNT
    ensures line.Some? ==> line.value in GIFT_LINES
  {
    TableSize();
    if 0 <= idx < LINE_COUNT then Some(GIFT_LINES[idx]) else None
  }

  /** The quote modal: `currentLine`, the modal's `hidden` flag and the text shown. */
  class QuoteModal {
    var currentLine: int
    var hidden: bool
    /** The entry of the table last written into the quote text. None covers two
        page states: before the first click, when the markup's own text shows,
        and after a negative index wrote undefined, which the page shows as an
        empty text; the model does not tell them apart. */
    var text: Option<string>

    constructor (startHidden: bool)
      ensures currentLine == 0 && hidden == startHidden && text == None
    {
      currentLine := 0;
      hidden := startHidden;
      text := None;
    }

    method ShowQuote(lineIdx: int)
      modifies this
      ensures currentLine == LineIndex(lineIdx)
      ensures text == LineAt(currentLine)
      ensures !hidden
    {
      var idx := LineIndex(lineIdx);
      currentLine := idx;
      text := LineAt(idx);
      hidden := false;
    }

    method HideQuote()
      modifies this
      ensures hidden
      ensures currentLine == old(currentLine) && text == old(text)
    {
      hidden := true;
    }

    /** A click on a gift button with its parsed `data-gift` value. */
    method ClickGift(v: GiftValue)
      modifies this
      ensures currentLine == LineIndex(GiftIndex(v))
      ensures text == LineAt(currentLine) && !hidden
    {
      ShowQuote(GiftIndex(v));
    }

    /** The "next" button. */
    method ClickNext()
      modifies this
      ensures currentLine == NextLine(old(currentLine))
      ensures text == LineAt(currentLine) && !hidden
    {
      ShowQuote(currentLine + 1);
    }

    /** The close button. */
    method ClickClose()
      modifies this
      ensures hidden
      ensures currentLine == old(currentLine) && text == old(text)
    {
      HideQuote();
    }

    /** A click inside the modal; only a click on the backdrop itself hides it. */
    method ClickModal(onBackdrop: bool)
      modifies this
      ensures hidden == (onBackdrop || old(hidden))
      ensures currentLine == old(currentLine) && text == old(text)
    {
      if onBackdrop {
        HideQuote();
      }
    }

    /** The quote modal's keydown listener: Escape hides a visible modal. */
    method KeyDown(key: string)
      modifies this
      ensures hidden == (old(hidden) || key == "Escape")
      ensures currentLine == old(currentLine) && text == old(text)
    {
      if key == "Escape" && !hidden {
        HideQuote();
      }
    }
  }

  /** The Santa modal opened by the star button. */
  class SantaModal {
    var hidden: bool
    var text: Option<string>

    constructor (startHidden: bool)
      ensures hidden == startHidden && text == None
    {
      hidden := startHidden;
      text := None;
    }

    method ShowSanta()
      modifies this
      ensures !hidden && text == Some(SANTA_TEXT)
    {
      text := Some(SANTA_TEXT);
      hidden := false;
    }

    method HideSanta()
      modifies this
      ensures hidden && text == old(text)
    {
      hidden := true;
    }

    /** A click inside the modal; only a click on the backdrop itself hides it. */
    method ClickModal(onBackdrop: bool)
      modifies this
      ensures hidden == (onBackdrop || old(hidden)) && text == old(text)
    {
      if onBackdrop {
        HideSanta();
      }
    }

    /** The Santa modal's keydown listener: Escape hides a visible modal. */
    method KeyDown(key: string)
      modifies this
      ensures hidden == (old(hidden) || key == "Escape") && text == old(text)
    {
      if key == "Escape" && !hidden {
        HideSanta();
      }
    }
  }

  /** A keydown on the window runs both listeners in the order they were added. */
  method WindowKeyDown(quote: QuoteModal, santa: SantaModal, key: string)
    modifies quote, santa
    ensures quote.hidden == (old(quote.hidden) || key == "Escape")
    ensures santa.hidden == (old(santa.hidden) || key == "Escape")
    ensures quote.currentLine == old(quote.currentLine) && quote.text == old(quote.text)
    ensures santa.text == old(santa.text)
  {
    quote.KeyDown(key);
    santa.KeyDown(key);
  }
}
