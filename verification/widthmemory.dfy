/**
  The translation table and the width memory of EternalRedirect.cpp. The width
  memory is the global `g_largestCopiedStrSinceResize`, a TranslationEntry that
  remembers the widest translated line copied since the last draw request.
 */
module WidthMemory {

  type uint32 = x: int | 0 <= x < 0x1_0000_0000

  /** One line of translated text and its rendered width in pixels. */
  datatype TranslationEntry = TranslationEntry(text: string, pixelLength: uint32) {

    /** `entry < n`: compares the width only. */
    predicate Less(other: uint32) {
      pixelLength < other
    }

    /** `entry > n`: compares the width only. */
    predicate Greater(other: uint32) {
      pixelLength > other
    }
  }

  /** `clear()`: the entry goes back to its default, which no width comparison can prefer. */
  function Clear(e: TranslationEntry): (r: TranslationEntry)
    ensures r.text == [] && r.pixelLength == 0
    ensures forall w: uint32 :: !r.Greater(w) && (r.Less(w) <==> w > 0)
  {
    TranslationEntry("", 0)
  }

  /** The value of an entry of the translation file: the translated text and the
      expected width of each of its lines. */
  datatype Translation = Translation(text: string, pixelLengths: seq<uint32>)

  /** The loaded translations, keyed by the UTF-8 form of the original text. */
  type Table = map<string, Translation>

  /** The width hint the measurement routine uses: the first recorded width, or 0. */
  function WidthHint(t: Translation): (w: uint32)
    ensures |t.pixelLengths| > 0 ==> w == t.pixelLengths[0]
    ensures |t.pixelLengths| == 0 ==> w == 0
  {
    if |t.pixelLengths| == 0 then 0 else t.pixelLengths[0]
  }

  /** The comparisons look at the width alone, never at the text. */
  lemma CompareByWidthOnly(a: TranslationEntry, b: TranslationEntry, w: uint32)
    requires a.pixelLength == b.pixelLength
    ensures a.Less(w) == b.Less(w) && a.Greater(w) == b.Greater(w)
    ensures a.Less(w) <==> a.pixelLength < w
    ensures a.Greater(w) <==> a.pixelLength > w
  {
  }

  /** One step of the copy routine's loop: the line replaces the memory only when it is
      strictly wider. */
  function Offer(e: TranslationEntry, line: string, width: uint32): (r: TranslationEntry)
    ensures r.pixelLength == if width > e.pixelLength then width else e.pixelLength
    ensures r == e || r == TranslationEntry(line, width)
    ensures width <= e.pixelLength ==> r == e
  {
    if e.Less(width) then TranslationEntry(line, width) else e
  }

  /** How many lines have a recorded width: `min(|lines|, |widths|)`. */
  function Paired(lines: seq<string>, widths: seq<uint32>): nat {
    if |lines| < |widths| then |lines| else |widths|
  }

  /** The copy routine's loop over the lines of a translation: every line `i` with a
      recorded width `widths[i]` is offered in order. The result is the first widest
      line when it beats the prior memory, and the prior memory otherwise. */
  function OfferLines(e: TranslationEntry, lines: seq<string>, widths: seq<uint32>): (r: TranslationEntry)
    decreases |lines|
    ensures r.pixelLength >= e.pixelLength
    ensures forall j :: 0 <= j < |lines| && j < |widths| ==> widths[j] <= r.pixelLength
    ensures r == e || exists i :: 0 <= i < |lines| && i < |widths| && e.pixelLength < widths[i] &&
                                  r == TranslationEntry(lines[i], widths[i]) &&
                                  forall j :: 0 <= j < i ==> widths[j] < widths[i]
  {
    if |lines| == 0 then e
    else
      var prev := OfferLines(e, lines[..|lines| - 1], widths);
      var i := |lines| - 1;
      if i < |widths| then Offer(prev, lines[i], widths[i]) else prev
  }

  /** Line `i` is the first of the widest lines that have a recorded width. */
  ghost predicate FirstWidest(lines: seq<string>, widths: seq<uint32>, i: int) {
    && 0 <= i < Paired(lines, widths)
    && (forall j :: 0 <= j < Paired(lines, widths) ==> widths[j] <= widths[i])
    && (forall j :: 0 <= j < i ==> widths[j] < widths[i])
  }

  /** Starting from a cleared memory, the lines leave an entry wider than `hint` exactly
      when some line is wider than `hint`, and that entry is then the first widest line. */
  lemma OfferLinesAgainstHint(lines: seq<string>, widths: seq<uint32>, hint: uint32)
    ensures var r := OfferLines(TranslationEntry("", 0), lines, widths);
            (r.Greater(hint) <==> exists j :: 0 <= j < Paired(lines, widths) && widths[j] > hint) &&
            (r.Greater(hint) ==> exists i :: FirstWidest(lines, widths, i) && r.text == lines[i])
  {
    var r := OfferLines(TranslationEntry("", 0), lines, widths);
    if r.Greater(hint) {
      var i :| 0 <= i < |lines| && i < |widths| && r == TranslationEntry(lines[i], widths[i]) &&
               forall k :: 0 <= k < i ==> widths[k] < widths[i];
      assert FirstWidest(lines, widths, i);
    }
  }
}
