# EternalRedirect, modelled in Dafny

EternalRedirect is a DLL injected into a game. It finds three internal game functions by
scanning the game's image for byte signatures, detours them, and substitutes translated
text at draw, copy and width-measurement time. Translations come from a table keyed by
the UTF-8 form of the original Shift-JIS text. Each value holds the translated text and
one pixel width per line.

This project models the core of that module:

- `Utils` (`utils.dfy`): the string helpers of `Utils.hpp`. It covers `std::string::find`
  as the module uses it, `splitString` and `replaceAll`. `splitString` and `replaceAll` are
  each given as a functional definition and as a loop that mirrors the source, with proofs
  that the two agree; `find` is given as recursive functions whose contracts pin the first
  occurrence.
- `Scanner` (`scanner.dfy`): the byte-pattern search of `findFunction`. One version is
  modelled exactly as written; a corrected version is given next to it (see Findings).
- `CStrings` (`cstrings.dfy`): how `char*` arguments are read up to their NUL, what
  `c_str()` hands on, and the 4096-byte `vsnprintf` buffer.
- `WidthMemory` (`widthmemory.dfy`): `TranslationEntry`, the translation table, and the
  global "largest copied string since resize" with its strictly-greater replacement rule.
- `Detours` (`detours.dfy`): the three interception routines. Each is a pure function from
  (width memory, table, collaborators, call arguments) to (new width memory, argument
  forwarded to the real function, result returned).
- `HookSequences` (`sequences.dfy`): what happens when the routines run one after another.
- `Attach` (`attach.dfy`): `DetRealName`, and `SetupHook`'s treatment of the scanner's
  all-ones "not found" value.

The width memory is an explicit value threaded through the routines. It is not a global.
The collaborators the routines call are fields of a `Host` value of total functions:
`sjis2utf8`, `vsnprintf` applied to the call's variadic arguments, and the three real game
functions. Text is `string`, with one `char` per byte of the C string. Machine code is
`seq<bv8>`.

The measurement routine clears the stored line on every table hit, whether or not it
measured it (`EternalRedirect.cpp:135-136`).

## Model

| member | source | states |
|---|---|---|
| `Utils.Find` | EternalRedirect/Utils.hpp:75 | `find(from, pos)` returns the first offset at or after `pos` where `from` occurs, with no occurrence between `pos` and it; it returns nothing only when no occurrence exists at or after `pos` |
| `Utils.IndexOf` | EternalRedirect/Utils.hpp:88-94 | `find(delimiter, start)` returns the first index at or after `start` that holds the delimiter, and no earlier one in between holds it; nothing means that no delimiter remains |
| `Utils.SplitString` | EternalRedirect/Utils.hpp:84-99 | the find-and-cut loop returns exactly the functional split. The tokens rejoin with the delimiter to the input, none contains the delimiter, and there is one token more than there are delimiters |
| `Utils.SplitJoin` | EternalRedirect/Utils.hpp:84-99 | joining the tokens with the delimiter reproduces the input, and no token contains the delimiter |
| `Utils.SplitCount` | EternalRedirect/Utils.hpp:90-97 | the number of tokens is the number of delimiters plus one |
| `Utils.SplitEmpty` | EternalRedirect/Utils.hpp:90-98 | splitting the empty string gives one empty token |
| `Utils.SplitTrailingDelimiter` | EternalRedirect/Utils.hpp:92-97 | an input ending in the delimiter has an empty last token |
| `Utils.ReplaceAll` | EternalRedirect/Utils.hpp:71-82 | with a non-empty `from`, the find-and-splice loop terminates and returns the left-to-right, non-overlapping replacement of the input; the input comes back unchanged when `from` does not occur |
| `Utils.ReplacedFirstOccurrence` | EternalRedirect/Utils.hpp:75-78 | the first occurrence is replaced by `to` verbatim, and replacement continues on the input text after that occurrence, so inserted text is never rescanned |
| `Utils.ReplacedWithoutMatch` | EternalRedirect/Utils.hpp:73-81 | a string in which `from` does not occur is returned unchanged |
| `Scanner.ScanBound` | EternalRedirect/Utils.hpp:118-122 | the loop bound `procMemLength - tarLength` is a DWORD: it is the difference when the pattern fits, and the difference plus 2^32 when it does not |
| `Scanner.FindFunction` | EternalRedirect/Utils.hpp:118-133 | as written, the scan returns `start + i` for the smallest `i < L - T` at which all `T` pattern bytes match. It returns the all-ones value exactly when no such `i` exists. Every byte it reads lies inside the region |
| `Scanner.MissesMatchAtLastOffset` | EternalRedirect/Utils.hpp:122 | a one-byte region equal to the one-byte pattern contains the pattern, but the scan as written reports the all-ones value |
| `Scanner.ScanBoundWrapsPastRegion` | EternalRedirect/Utils.hpp:118-122 | when the pattern is longer than the region, the wrapped loop bound exceeds the region length |
| `Scanner.FindPattern` | EternalRedirect/Utils.hpp:122-133 | the corrected scan returns the address of the first occurrence anywhere in the region, and the all-ones value exactly when the pattern does not occur |
| `Scanner.FindsMatchAtLastOffset` | EternalRedirect/Utils.hpp:122 | the corrected scan finds the match that the scan as written misses |
| `CStrings.Content` | EternalRedirect/Utils.hpp:35-38 | a `char*` argument is read up to its first NUL: the result holds no NUL, is a prefix of the buffer, and is followed by a NUL when shorter than the buffer |
| `CStrings.ContentEndsAtFirstNul` | EternalRedirect/EternalRedirect.cpp:222-223 | the content of a buffer ends at its first NUL |
| `CStrings.Terminate` | EternalRedirect/EternalRedirect.cpp:169-170 | the copy handed on holds the string's bytes followed by one NUL |
| `CStrings.ContentOfTerminated` | EternalRedirect/EternalRedirect.cpp:169-171 | reading a terminated copy of a NUL-free string gives the string back |
| `CStrings.FormatBuffer` | EternalRedirect/EternalRedirect.cpp:186-190 | the `vsnprintf` buffer holds at most 4095 bytes of the formatted output, as a prefix of it, followed by NUL. Output shorter than 4096 bytes is kept whole |
| `WidthMemory.Clear` | EternalRedirect/EternalRedirect.cpp:58-62 | `clear()` sets the text to "" and the width to 0, so the cleared entry is never greater than any width |
| `WidthMemory.CompareByWidthOnly` | EternalRedirect/EternalRedirect.cpp:64-72 | `<` and `>` against an integer compare the pixel width only; entries with equal widths compare alike whatever their text |
| `WidthMemory.WidthHint` | EternalRedirect/EternalRedirect.cpp:118-120 | the measurement hint is the first recorded width, or 0 when the list is empty |
| `WidthMemory.Offer` | EternalRedirect/EternalRedirect.cpp:165-166 | a line replaces the stored entry only when it is strictly wider; the stored width becomes the maximum of the two |
| `WidthMemory.OfferLines` | EternalRedirect/EternalRedirect.cpp:159-167 | after the loop, the stored width is at least the prior width and at least every `pixel_lengths[i]` with `i < min(lines, widths)`. The entry is either unchanged or the earliest line of maximal width, and that line beats the prior width |
| `WidthMemory.OfferLinesAgainstHint` | EternalRedirect/EternalRedirect.cpp:159-167 | from a cleared memory, the offered lines leave an entry wider than a given width exactly when some line with a recorded width is wider, and that entry is then the first of the widest lines |
| `Detours.GetDrawFormatStringWidth` | EternalRedirect/EternalRedirect.cpp:107-146 | on a hit the stored text is measured iff the stored width exceeds the first hint, else the table text, and the memory is left cleared. On a miss the format string is forwarded and the memory is unchanged. The real result is returned |
| `Detours.CopyFunc` | EternalRedirect/EternalRedirect.cpp:148-180 | on a hit every line that has a width is offered to the memory, and a NUL-terminated copy of the translation goes out with `a1` and `a3`. On a miss `a2` goes out and the memory is untouched. The real result is returned |
| `Detours.DrawFormatVStringToHandle` | EternalRedirect/EternalRedirect.cpp:182-208 | the memory is cleared on hit and miss. The translation is drawn on a hit and the formatted buffer on a miss. The real result is returned |
| `HookSequences.EmptyTablePassthrough` | EternalRedirect/EternalRedirect.cpp:140-143 | with an empty table, copy and measurement forward their argument unchanged and keep the memory; the draw forwards the formatted buffer; every real result is returned |
| `HookSequences.MeasureTwice` | EternalRedirect/EternalRedirect.cpp:135-136 | two measurements of translated strings with no copy in between: the second measures the table text, never stored text |
| `HookSequences.DrawThenMeasure` | EternalRedirect/EternalRedirect.cpp:194 | a measurement right after a draw measures the table text |
| `HookSequences.DrawCopyMeasure` | EternalRedirect/EternalRedirect.cpp:126-133 | after draw and copy, the measurement uses the first widest copied line iff some copied line is wider than the measured entry's hint, and the table text otherwise |
| `HookSequences.SplitTwoLines` | EternalRedirect/Utils.hpp:84-99 | splitting "line1\nline2" at the newline gives the two tokens "line1" and "line2" |
| `HookSequences.CopyOffersEveryLine` | EternalRedirect/EternalRedirect.cpp:160-167 | copying "line1\nline2" with widths [10, 20] from an empty memory leaves ("line2", 20) stored |
| `HookSequences.HelloBonjour` | EternalRedirect/EternalRedirect.cpp:197-200 | with "Hello" translated as "Bonjour" (width 7), drawing "Hello" draws "Bonjour", and measuring "Hello" afterwards measures "Bonjour" |
| `Attach.DetRealName` | EternalRedirect/EternalRedirect.cpp:217-230 | the returned offset starts a suffix of the C string made only of ASCII letters and digits; the character before it, if any, is not one |
| `Attach.SetupHook` | EternalRedirect/EternalRedirect.cpp:302-312 | the all-ones scanner result leaves the real-function pointer as it was; any other result is stored in it |
| `Attach.ResolveHook` | EternalRedirect/EternalRedirect.cpp:302-312 | scanning then SetupHook: a pointer starting null stays null exactly when the signature is absent, and otherwise points at the signature's first occurrence |
| `Attach.SetupHooks` | EternalRedirect/EternalRedirect.cpp:345-347 | over the corrected scanner, after the three SetupHook calls each real-function pointer is null exactly when its signature is absent from the region, and otherwise points at the signature's first match |
| `Attach.ResolveHookAsWritten` | EternalRedirect/EternalRedirect.cpp:302-312 | scanning with findFunction as written, then SetupHook: a pointer starting null stays null exactly when no match of the signature starts before offset `procMemLength - tarLength`, and otherwise points at the first match |
| `Attach.SetupHooksAsWritten` | EternalRedirect/EternalRedirect.cpp:345-347 | with findFunction as written, each real-function pointer is null exactly when its signature has no match starting before offset `procMemLength - tarLength`, and otherwise points at the first such match; a signature found only at the last possible offset leaves the pointer null |

## Findings

| source | as written | input that shows it | evidently intended | confidence | as-written member | corrected member |
|---|---|---|---|---|---|---|
| EternalRedirect/Utils.hpp:122 | candidate offsets run while `i < procMemLength - tarLength`, so a match starting at offset `procMemLength - tarLength` is never examined | region `[0x90]`, pattern `[0x90]`: the whole region is the pattern, yet the all-ones value is returned | `i <= procMemLength - tarLength`, so every match that fits in the region is found | high (not executed) | `Scanner.MissesMatchAtLastOffset` | `Scanner.FindPattern` |
| EternalRedirect/Utils.hpp:118-122 | `procMemLength - tarLength` is a DWORD subtraction that wraps when the pattern is longer than the region | a 4-byte region and a 10-byte pattern: the bound becomes 2^32 - 6, and offset 4, outside the region, is read | report "not found" when the pattern cannot fit | medium (not executed; the shipped patterns are 10 to 22 bytes and the region is a whole executable image) | `Scanner.ScanBoundWrapsPastRegion` | `Scanner.FindPattern` |

`Attach.ResolveHook` and `Attach.SetupHooks` use the corrected scanner. `Attach.ResolveHookAsWritten` and `Attach.SetupHooksAsWritten` use the scanner as written.

## Left out

- `Scanner.FindFunction`: requires the pattern to be no longer than the region. Beyond that the source's bound wraps and it reads memory outside the region, which is not modelled (second finding).
- `Utils.ReplaceAll`: requires a non-empty `from`. With an empty `from` the source never terminates.
- `Attach.ResolveHook`: models SetupHook over the corrected scanner, not the scanner as written.
- `Attach.SetupHooks`: models the three SetupHook calls over the corrected scanner, so it finds a signature that occurs only at offset `procMemLength - tarLength`, which the source misses (first finding). `Attach.SetupHooksAsWritten` states the source's outcome.
- `Attach.ResolveHookAsWritten`: requires the signature to be no longer than the region, for the reason given for `Scanner.FindFunction`.
- `Attach.SetupHooksAsWritten`: requires each signature to be no longer than the region, for the reason given for `Scanner.FindFunction`.
- Shift-JIS/UTF-8 conversion (`sjis2utf8`, `utf82sjis`): thin wrappers over Win32 code-page conversion. `sjis2utf8` is the abstract `Host.toUtf8`. `utf82sjis` is not used by the core. No encoding round trip can be proved from this code.
- Variadic arguments of the real functions: `Host.realDraw` and `Host.realWidth` depend only on the forwarded text, and the routines pass the real functions no variadic arguments (`EternalRedirect.cpp:138`, `142`, `200`, `204`). A `%` conversion left in the forwarded text is therefore read by the real function with nothing behind it; what that draws or measures is not modelled.
- `vsnprintf` and variadic arguments: the abstract `Host.vformat`. Only the 4096-byte buffer and its truncation are modelled. A negative return (encoding error) is not.
- The `VirtualQuery` walk and `GetModuleHandleW` in `findFunction`: OS memory queries. The region arrives as `mem`, already cut to the DWORD length, with its base `start`.
- Loading `tr.json` with `nlohmann::json` and `std::ifstream`: I/O. The table is a given immutable map whose entries all have `text` and `pixel_lengths`. A malformed entry, which makes the source throw, is not modelled.
- The `new[]`/`delete[]` of the copy buffer: the buffer is a value.
- Detours transactions (`DetAttach`, `DetDetach`, `AttachDetours`, `DetachDetours`), `DllMain`, `ProcessAttach`/`ProcessDetach` beyond the SetupHook calls, and `ThreadAttach`/`ThreadDetach`: interception machinery and lifecycle plumbing.
- `Logging.cpp`: diagnostic logging.
- Concurrent calls into the routines: the width memory is modelled for one sequential caller.
