/**
  The pieces of attach-time logic in EternalRedirect.cpp that are not interception
  machinery: DetRealName, which finds the bare function name at the end of a
  qualified name for diagnostics, and SetupHook's handling of the scanner's
  "not found" value.
 */
module Attach {
  import opened Utils
  import opened CStrings
  import opened Detours
  import Scanner

  /** The value of a function pointer no address has been stored in. */
  const Null: Ptr := 0

  /** The signatures searched for at attach time: the first bytes of the three game functions. */
  const DrawFormatVStringSignature: seq<Scanner.byte> :=
    [0x40, 0x53, 0x55, 0x56, 0x41, 0x56, 0x41, 0x57, 0x48, 0x81]
  const CopyFuncSignature: seq<Scanner.byte> :=
    [0x48, 0x89, 0x5C, 0x24, 0x10, 0x57, 0x48, 0x83, 0xEC, 0x20, 0x48, 0x8B, 0xF9, 0x48, 0xC7, 0xC3]
  const GetDrawFormatStringWidthSignature: seq<Scanner.byte> :=
    [0x48, 0x89, 0x4C, 0x24, 0x08, 0x48, 0x89, 0x54, 0x24, 0x10, 0x4C, 0x89, 0x44, 0x24, 0x18,
     0x4C, 0x89, 0x4C, 0x24, 0x20, 0x53, 0x56]

  /** An ASCII letter or digit. */
  predicate IsNameChar(c: char) {
    ('A' <= c <= 'Z') || ('a' <= c <= 'z') || ('0' <= c <= '9')
  }

  /** DetRealName: walk to the terminator, then back over letters and digits. The result is
      the offset `k` of the returned pointer; `Content(psz)[k..]` is the trailing run of
      letters and digits of the C string, and it cannot be extended to the left. */
  method DetRealName(psz: string) returns (k: nat)
    requires NUL in psz
    ensures k <= |Content(psz)|
    ensures forall i :: k <= i < |Content(psz)| ==> IsNameChar(psz[i])
    ensures k > 0 ==> !IsNameChar(psz[k - 1])
  {
    var end: nat := 0;
    while psz[end] != NUL
      invariant end < |psz|
      invariant NUL !in psz[..end]
      invariant NUL in psz[end..]
      decreases |psz| - end
    {
      assert psz[end..] == [psz[end]] + psz[end + 1..];
      assert psz[..end + 1] == psz[..end] + [psz[end]];
      end := end + 1;
    }
    ContentEndsAtFirstNul(psz, end);
    k := end;
    while k > 0 && IsNameChar(psz[k - 1])
      invariant k <= end
      invariant forall i :: k <= i < end ==> IsNameChar(psz[i])
    {
      k := k - 1;
    }
  }

  /** SetupHook: a function pointer is set to the scanner's address unless the scanner
      reported the all-ones "not found" value, in which case it keeps its old value. */
  function SetupHook(realFuncPtr: Ptr, funcAddr: nat): (p: Ptr)
    ensures funcAddr == Scanner.NotFound ==> p == realFuncPtr
    ensures funcAddr != Scanner.NotFound ==> p == funcAddr
  {
    if funcAddr == Scanner.NotFound then realFuncPtr else funcAddr
  }

  /** Resolving one real function: scan for its signature, then SetupHook. A pointer that
      starts out null stays null exactly when the signature is absent from the region;
      otherwise it points at the first match. */
  method ResolveHook(mem: seq<Scanner.byte>, start: nat, funcBytes: seq<Scanner.byte>, realFuncPtr: Ptr)
    returns (p: Ptr)
    requires 0 < start && start + |mem| < Scanner.NotFound
    ensures !Occurs(mem, funcBytes) ==> p == realFuncPtr
    ensures Occurs(mem, funcBytes) ==>
              start <= p && MatchesAt(mem, funcBytes, p - start) &&
              forall i: nat :: i < p - start ==> !MatchesAt(mem, funcBytes, i)
    ensures realFuncPtr == Null ==> (p == Null <==> !Occurs(mem, funcBytes))
  {
    var funcAddr := Scanner.FindPattern(mem, start, funcBytes);
    p := SetupHook(realFuncPtr, funcAddr);
  }

  /** The three SetupHook calls of process attach, from null pointers, over the corrected
      scanner: each real-function pointer ends up at its signature's first match, or stays
      null when the signature is absent. */
  method SetupHooks(mem: seq<Scanner.byte>, start: nat) returns (draw: Ptr, copy: Ptr, width: Ptr)
    requires 0 < start && start + |mem| < Scanner.NotFound
    ensures draw == Null <==> !Occurs(mem, DrawFormatVStringSignature)
    ensures copy == Null <==> !Occurs(mem, CopyFuncSignature)
    ensures width == Null <==> !Occurs(mem, GetDrawFormatStringWidthSignature)
    ensures draw != Null ==>
              start <= draw && MatchesAt(mem, DrawFormatVStringSignature, draw - start) &&
              forall i: nat :: i < draw - start ==> !MatchesAt(mem, DrawFormatVStringSignature, i)
    ensures copy != Null ==>
              start <= copy && MatchesAt(mem, CopyFuncSignature, copy - start) &&
              forall i: nat :: i < copy - start ==> !MatchesAt(mem, CopyFuncSignature, i)
    ensures width != Null ==>
              start <= width && MatchesAt(mem, GetDrawFormatStringWidthSignature, width - start) &&
              forall i: nat :: i < width - start ==> !MatchesAt(mem, GetDrawFormatStringWidthSignature, i)
  {
    draw := ResolveHook(mem, start, DrawFormatVStringSignature, Null);
    copy := ResolveHook(mem, start, CopyFuncSignature, Null);
    width := ResolveHook(mem, start, GetDrawFormatStringWidthSignature, Null);
  }

  /** Resolving one real function with findFunction as written, then SetupHook. A pointer
      that starts out null stays null exactly when no match starts before `|mem| - |sig|`;
      otherwise it points at the first match. */
  method ResolveHookAsWritten(mem: seq<Scanner.byte>, start: nat, sig: seq<Scanner.byte>, realFuncPtr: Ptr)
    returns (p: Ptr)
    requires 0 < start && start + |mem| < Scanner.NotFound
    requires |mem| < Scanner.DwordLimit && |sig| <= |mem|
    ensures (forall i: nat :: !Scanner.ScannedMatch(mem, sig, i)) ==> p == realFuncPtr
    ensures (exists i: nat :: Scanner.ScannedMatch(mem, sig, i)) ==>
              start <= p && Scanner.ScannedMatch(mem, sig, p - start) &&
              forall i: nat :: i < p - start ==> !MatchesAt(mem, sig, i)
    ensures realFuncPtr == Null ==> (p == Null <==> forall i: nat :: !Scanner.ScannedMatch(mem, sig, i))
  {
    var funcAddr := Scanner.FindFunction(mem, start, sig);
    if funcAddr != Scanner.NotFound {
      assert Scanner.ScannedMatch(mem, sig, funcAddr - start);
    }
    p := SetupHook(realFuncPtr, funcAddr);
  }

  /** The three SetupHook calls of process attach with findFunction as written: a pointer
      stays null exactly when its signature has no match starting before `|mem| - |sig|`,
      and otherwise points at the first such match, so a signature that occurs only at the region's last possible offset is missed. */
  method SetupHooksAsWritten(mem: seq<Scanner.byte>, start: nat) returns (draw: Ptr, copy: Ptr, width: Ptr)
    requires 0 < start && start + |mem| < Scanner.NotFound && |mem| < Scanner.DwordLimit
    requires |DrawFormatVStringSignature| <= |mem|
    requires |CopyFuncSignature| <= |mem|
    requires |GetDrawFormatStringWidthSignature| <= |mem|
    ensures draw == Null <==> forall i: nat :: !Scanner.ScannedMatch(mem, DrawFormatVStringSignature, i)
    ensures copy == Null <==> forall i: nat :: !Scanner.ScannedMatch(mem, CopyFuncSignature, i)
    ensures width == Null <==> forall i: nat :: !Scanner.ScannedMatch(mem, GetDrawFormatStringWidthSignature, i)
    ensures draw != Null ==>
              start <= draw && Scanner.ScannedMatch(mem, DrawFormatVStringSignature, draw - start) &&
              forall i: nat :: i < draw - start ==> !MatchesAt(mem, DrawFormatVStringSignature, i)
    ensures copy != Null ==>
              start <= copy && Scanner.ScannedMatch(mem, CopyFuncSignature, copy - start) &&
              forall i: nat :: i < copy - start ==> !MatchesAt(mem, CopyFuncSignature, i)
    ensures width != Null ==>
              start <= width && Scanner.ScannedMatch(mem, GetDrawFormatStringWidthSignature, width - start) &&
              forall i: nat :: i < width - start ==> !MatchesAt(mem, GetDrawFormatStringWidthSignature, i)
  {
    draw := ResolveHookAsWritten(mem, start, DrawFormatVStringSignature, Null);
    copy := ResolveHookAsWritten(mem, start, CopyFuncSignature, Null);
    width := ResolveHookAsWritten(mem, start, GetDrawFormatStringWidthSignature, Null);
  }
}
