/**
  How the three interception routines interact through the width memory when the
  game calls them one after another: a draw request opens an epoch, copies deposit
  the widest translated line, and the next measurement consumes it.
 */
module HookSequences {
  import opened Wrappers
  import opened Utils
  import opened CStrings
  import opened WidthMemory
  import opened Detours

  /** With an empty table (the translation file could not be opened) the copy and the
      measurement pass their text argument on and keep the memory, and the draw passes on
      the formatted buffer. */
  lemma EmptyTablePassthrough(mem: TranslationEntry, host: Host, a1: Ptr, a2: string, a3: int,
                              formatString: string, x: int, y: int, color: uint32, fontHandle: int)
    ensures var c := CopyFunc(mem, map[], host, a1, a2, a3);
            c.memory == mem && c.forwarded == a2 && c.result == host.realCopy(a1, a2, a3)
    ensures var c := GetDrawFormatStringWidth(mem, map[], host, formatString);
            c.memory == mem && c.forwarded == formatString && c.result == host.realWidth(formatString)
    ensures var c := DrawFormatVStringToHandle(mem, map[], host, x, y, color, fontHandle, formatString);
            var buffer := FormatBuffer(host.vformat(Content(formatString)));
            c.forwarded == buffer && c.result == host.realDraw(x, y, color, fontHandle, buffer)
  {
  }

  /** Two measurements of translated strings with no copy in between: the second never
      uses stored text, because the first left the memory cleared. */
  lemma MeasureTwice(mem: TranslationEntry, table: Table, host: Host, first: string, second: string)
    requires Key(host, first) in table && Key(host, second) in table
    ensures var c1 := GetDrawFormatStringWidth(mem, table, host, first);
            var c2 := GetDrawFormatStringWidth(c1.memory, table, host, second);
            c2.forwarded == Terminate(table[Key(host, second)].text)
  {
  }

  /** A draw request followed by a measurement with no copy in between measures the
      table's own translation. */
  lemma DrawThenMeasure(mem: TranslationEntry, table: Table, host: Host,
                        x: int, y: int, color: uint32, fontHandle: int, drawn: string, measured: string)
    requires Key(host, measured) in table
    ensures var d := DrawFormatVStringToHandle(mem, table, host, x, y, color, fontHandle, drawn);
            var w := GetDrawFormatStringWidth(d.memory, table, host, measured);
            w.forwarded == Terminate(table[Key(host, measured)].text)
  {
  }

  /** Draw, copy, measure: the measurement uses the first widest copied line exactly when
      some copied line is wider than the measured translation's first width hint, and the
      measured translation otherwise. */
  lemma DrawCopyMeasure(mem: TranslationEntry, table: Table, host: Host,
                        x: int, y: int, color: uint32, fontHandle: int, drawn: string,
                        a1: Ptr, a2: string, a3: int, measured: string)
    requires Key(host, a2) in table && Key(host, measured) in table
    ensures var d := DrawFormatVStringToHandle(mem, table, host, x, y, color, fontHandle, drawn);
            var c := CopyFunc(d.memory, table, host, a1, a2, a3);
            var w := GetDrawFormatStringWidth(c.memory, table, host, measured);
            var copied := table[Key(host, a2)];
            var lines := Split(copied.text, '\n');
            var hint := WidthHint(table[Key(host, measured)]);
            && ((forall j :: 0 <= j < Paired(lines, copied.pixelLengths) ==> copied.pixelLengths[j] <= hint) ==>
                  w.forwarded == Terminate(table[Key(host, measured)].text))
            && ((exists j :: 0 <= j < Paired(lines, copied.pixelLengths) && copied.pixelLengths[j] > hint) ==>
                  exists i :: FirstWidest(lines, copied.pixelLengths, i) && w.forwarded == Terminate(lines[i]))
  {
    var copied := table[Key(host, a2)];
    OfferLinesAgainstHint(Split(copied.text, '\n'), copied.pixelLengths, WidthHint(table[Key(host, measured)]));
  }

  /** The lines of the multi-line example. */
  lemma SplitTwoLines()
    ensures Split("line1\nline2", '\n') == ["line1", "line2"]
  {
    var s := "line1\nline2";
    assert IndexOf(s, '\n', 5) == Some(5);
    assert IndexOf(s, '\n', 0) == Some(5);
    assert IndexOf(s, '\n', 6) == None by {
      assert '\n' !in s[6..];
    }
    SplitFromStep(s, '\n', 0, 5);
    SplitFromLast(s, '\n', 6);
    assert s[0..5] == "line1" && s[6..] == "line2";
  }

  /** The multi-line example: with "line1\nline2" and widths [10, 20], both lines are
      offered in order and the memory ends up holding ("line2", 20). */
  lemma CopyOffersEveryLine(mem: TranslationEntry, host: Host, a1: Ptr, a2: string, a3: int)
    requires mem.pixelLength == 0
    requires Key(host, a2) == "key"
    ensures var table := map["key" := Translation("line1\nline2", [10, 20])];
            CopyFunc(mem, table, host, a1, a2, a3).memory == TranslationEntry("line2", 20)
  {
    SplitTwoLines();
    var lines := ["line1", "line2"];
    assert lines[..1] == ["line1"];
    assert OfferLines(mem, lines[..1], [10, 20]) == TranslationEntry("line1", 10);
  }

  /** The example end to end: "Hello" translates to "Bonjour" with width 7. Drawing
      "Hello" draws "Bonjour"; measuring "Hello" right after measures "Bonjour". */
  lemma HelloBonjour(mem: TranslationEntry, host: Host, x: int, y: int, color: uint32, fontHandle: int)
    requires host.toUtf8("Hello") == "Hello" && host.vformat("Hello") == "Hello"
    ensures var table := map["Hello" := Translation("Bonjour", [7])];
            var d := DrawFormatVStringToHandle(mem, table, host, x, y, color, fontHandle, Terminate("Hello"));
            var w := GetDrawFormatStringWidth(d.memory, table, host, Terminate("Hello"));
            d.forwarded == Terminate("Bonjour") && w.forwarded == Terminate("Bonjour") &&
            w.result == host.realWidth(Terminate("Bonjour"))
  {
    ContentOfTerminated("Hello");
  }
}
