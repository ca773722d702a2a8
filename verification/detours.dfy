/**
  The three interception routines of EternalRedirect.cpp. Each is a function from
  the width memory and the call's arguments to the memory afterwards, the argument
  it hands to the real function, and the real function's result, which it returns
  unchanged. The code the routines call but that is not part of this model is a
  `Host`: encoding conversion, printf formatting and the three real functions.
 */
module Detours {
  import opened Utils
  import opened CStrings
  import opened WidthMemory

  /** An opaque pointer value. */
  type Ptr = nat

  /** The routines' collaborators.
      - `toUtf8`: sjis2utf8, the code page 932 to UTF-8 conversion;
      - `vformat`: vsnprintf of a format string with the call's own variadic arguments,
        before any truncation;
      - `realDraw`, `realCopy`, `realWidth`: the original game functions. */
  datatype Host = Host(
    toUtf8: string -> string,
    vformat: string -> string,
    realDraw: (int, int, uint32, int, string) -> int,
    realCopy: (Ptr, string, int) -> Ptr,
    realWidth: string -> int)

  /** What one intercepted call does: the width memory afterwards, the text argument
      passed to the real function, and the result returned to the game. */
  datatype Call<R> = Call(memory: TranslationEntry, forwarded: string, result: R)

  /** The table key of a `char*` argument: its bytes, converted to UTF-8. */
  function Key(host: Host, buf: string): string {
    host.toUtf8(Content(buf))
  }

  /** Mine_GetDrawFormatStringWidth. On a table hit the stored line is measured instead
      of the translation exactly when it is wider than the translation's first width hint,
      and the memory is cleared either way; on a miss the call passes through. */
  function GetDrawFormatStringWidth(mem: TranslationEntry, table: Table, host: Host, formatString: string)
    : (c: Call<int>)
    ensures c.result == host.realWidth(c.forwarded)
    ensures Key(host, formatString) !in table ==> c.forwarded == formatString && c.memory == mem
    ensures Key(host, formatString) in table ==> c.memory.text == [] && c.memory.pixelLength == 0
    ensures Key(host, formatString) in table ==>
              var entry := table[Key(host, formatString)];
              (mem.pixelLength > WidthHint(entry) ==> c.forwarded == Terminate(mem.text)) &&
              (mem.pixelLength <= WidthHint(entry) ==> c.forwarded == Terminate(entry.text))
  {
    var key := Key(host, formatString);
    if key in table then
      var entry := table[key];
      var tStr := if mem.Greater(WidthHint(entry)) then mem.text else entry.text;
      var forwarded := Terminate(tStr);
      Call(Clear(mem), forwarded, host.realWidth(forwarded))
    else
      Call(mem, formatString, host.realWidth(formatString))
  }

  /** Mine_CopyFunc. On a table hit every line of the translation that has a width is
      offered to the memory, and a NUL-terminated copy of the translation is passed on
      with `a1` and `a3`; on a miss the call passes through and the memory is untouched. */
  function CopyFunc(mem: TranslationEntry, table: Table, host: Host, a1: Ptr, a2: string, a3: int)
    : (c: Call<Ptr>)
    ensures c.result == host.realCopy(a1, c.forwarded, a3)
    ensures Key(host, a2) !in table ==> c.forwarded == a2 && c.memory == mem
    ensures Key(host, a2) in table ==>
              var entry := table[Key(host, a2)];
              c.forwarded == Terminate(entry.text) &&
              c.memory == OfferLines(mem, Split(entry.text, '\n'), entry.pixelLengths)
  {
    var key := Key(host, a2);
    if key in table then
      var entry := table[key];
      var lines := Split(entry.text, '\n');
      var memory := OfferLines(mem, lines, entry.pixelLengths);
      var buffer := Terminate(entry.text);
      Call(memory, buffer, host.realCopy(a1, buffer, a3))
    else
      Call(mem, a2, host.realCopy(a1, a2, a3))
  }

  /** Mine_DrawFormatVStringToHandle. The formatted text lands in a 4096-byte buffer; the
      memory is cleared on every call; the translation is drawn on a hit and the formatted
      buffer otherwise. */
  function DrawFormatVStringToHandle(
    mem: TranslationEntry, table: Table, host: Host,
    x: int, y: int, color: uint32, fontHandle: int, formatString: string)
    : (c: Call<int>)
    ensures c.result == host.realDraw(x, y, color, fontHandle, c.forwarded)
    ensures c.memory.text == [] && c.memory.pixelLength == 0
    ensures var buffer := FormatBuffer(host.vformat(Content(formatString)));
            var key := Key(host, buffer);
            (key in table ==> c.forwarded == Terminate(table[key].text)) &&
            (key !in table ==> c.forwarded == buffer)
  {
    var buffer := FormatBuffer(host.vformat(Content(formatString)));
    var key := Key(host, buffer);
    var memory := Clear(mem);
    var forwarded := if key in table then Terminate(table[key].text) else buffer;
    Call(memory, forwarded, host.realDraw(x, y, color, fontHandle, forwarded))
  }
}
