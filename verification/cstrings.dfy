/**
  C-string conventions at the boundary between the interception routines and the
  host. A `char*` argument is modelled as the buffer it points at (one `char` per
  byte); a routine reads it up to the first NUL. `std::string::c_str()` and the
  zero-filled copy buffer both hand the callee the string's bytes plus a NUL.
 */
module CStrings {
  import opened Wrappers
  import opened Utils

  const NUL: char := '\0'

  /** Capacity of the stack buffer the draw routine formats into. */
  const BufferSize: nat := 4096

  /** The bytes a `const char*` denotes: everything before the first NUL. */
  function Content(buf: string): (r: string)
    ensures NUL !in r
    ensures r <= buf
    ensures |r| < |buf| ==> buf[|r|] == NUL
  {
    match IndexOf(buf, NUL, 0)
    case None => buf
    case Some(i) => buf[..i]
  }

  /** The first NUL of a buffer ends its content. */
  lemma ContentEndsAtFirstNul(buf: string, n: nat)
    requires n < |buf| && buf[n] == NUL && NUL !in buf[..n]
    ensures Content(buf) == buf[..n]
  {
  }

  /** The buffer `c_str()` exposes for a std::string: its bytes and a terminating NUL. */
  function Terminate(s: string): (r: string)
    ensures |r| == |s| + 1 && r[..|s|] == s && r[|s|] == NUL
  {
    s + [NUL]
  }

  /** Reading back a terminated string that holds no NUL gives the string itself. */
  lemma ContentOfTerminated(s: string)
    requires NUL !in s
    ensures Content(Terminate(s)) == s
  {
    assert Terminate(s)[..|s|] == s;
  }

  /** The contents of `char buffer[4096]` after vsnprintf wrote `formatted` into it:
      at most 4095 bytes of the output, then the terminator. */
  function FormatBuffer(formatted: string): (buf: string)
    ensures 0 < |buf| <= BufferSize
    ensures buf[|buf| - 1] == NUL
    ensures buf[..|buf| - 1] <= formatted
    ensures |formatted| < BufferSize ==> buf[..|buf| - 1] == formatted
    ensures |formatted| >= BufferSize ==> |buf| == BufferSize
  {
    Terminate(if |formatted| < BufferSize then formatted else formatted[..BufferSize - 1])
  }
}
