/**
  The signature scanner of findFunction: a naive byte-pattern search over the
  readable region that starts at the module base. The region walk that finds
  the region's end (VirtualQuery) is not modelled; the region arrives as `mem`,
  whose length is the DWORD `procMemLength` of the source.
 */
module Scanner {
  import opened Utils

  type byte = bv8

  /** One more than the largest DWORD. */
  const DwordLimit: nat := 0x1_0000_0000

  /** static_cast<uintptr_t>(-1): the all-ones 64-bit value reporting "not found". */
  const NotFound: nat := 0xFFFF_FFFF_FFFF_FFFF

  /** `procMemLength - tarLength` evaluated on DWORDs, wrapping modulo 2^32. */
  function ScanBound(procMemLength: nat, tarLength: nat): (b: nat)
    requires procMemLength < DwordLimit && tarLength < DwordLimit
    ensures b < DwordLimit
    ensures tarLength <= procMemLength ==> b == procMemLength - tarLength
    ensures tarLength > procMemLength ==> b == procMemLength + DwordLimit - tarLength
  {
    (procMemLength - tarLength) % DwordLimit
  }

  /** A match of `tarBytes` that findFunction as written examines: one starting strictly
      before `|mem| - |tarBytes|`. */
  predicate ScannedMatch(mem: seq<byte>, tarBytes: seq<byte>, i: nat) {
    i < |mem| - |tarBytes| && MatchesAt(mem, tarBytes, i)
  }

  /** findFunction as written: candidate offsets run strictly below `procMemLength - tarLength`;
      the address of the first full match is returned, or the all-ones value. Every byte read
      is at an offset below `|mem|`, which the sequence indexing proves. */
  method FindFunction(mem: seq<byte>, start: nat, tarBytes: seq<byte>) returns (addr: nat)
    requires |mem| < DwordLimit
    requires |tarBytes| <= |mem|
    requires start + |mem| < NotFound
    ensures addr != NotFound <==> exists i: nat :: ScannedMatch(mem, tarBytes, i)
    ensures addr != NotFound ==> start <= addr && ScannedMatch(mem, tarBytes, addr - start)
    ensures addr != NotFound ==> forall k: nat :: k < addr - start ==> !MatchesAt(mem, tarBytes, k)
  {
    var procMemLength := |mem|;
    var tarLength := |tarBytes|;
    var bound := ScanBound(procMemLength, tarLength);
    var i: nat := 0;
    while i < bound
      invariant i <= bound
      invariant forall k: nat :: k < i ==> !MatchesAt(mem, tarBytes, k)
    {
      var j: nat := 0;
      while j <= tarLength
        invariant j <= tarLength
        invariant forall m :: 0 <= m < j ==> mem[i + m] == tarBytes[m]
      {
        if j == tarLength {
          assert ScannedMatch(mem, tarBytes, i);
          return start + i;
        } else if mem[i + j] != tarBytes[j] {
          break;
        }
        j := j + 1;
      }
      i := i + 1;
    }
    return NotFound;
  }

  /** findFunction with the inclusive bound it evidently intends: every offset at which the
      pattern fits is a candidate, and a pattern longer than the region is reported as not
      found instead of wrapping the bound. */
  method FindPattern(mem: seq<byte>, start: nat, tarBytes: seq<byte>) returns (addr: nat)
    requires start + |mem| < NotFound
    ensures addr != NotFound <==> Occurs(mem, tarBytes)
    ensures addr != NotFound ==> start <= addr && MatchesAt(mem, tarBytes, addr - start)
    ensures addr != NotFound ==> forall k: nat :: k < addr - start ==> !MatchesAt(mem, tarBytes, k)
  {
    if |tarBytes| > |mem| {
      return NotFound;
    }
    var i: nat := 0;
    while i <= |mem| - |tarBytes|
      invariant i <= |mem| - |tarBytes| + 1
      invariant forall k: nat :: k < i ==> !MatchesAt(mem, tarBytes, k)
    {
      var j: nat := 0;
      while j <= |tarBytes|
        invariant j <= |tarBytes|
        invariant forall m :: 0 <= m < j ==> mem[i + m] == tarBytes[m]
      {
        if j == |tarBytes| {
          assert MatchesAt(mem, tarBytes, i);
          return start + i;
        } else if mem[i + j] != tarBytes[j] {
          break;
        }
        j := j + 1;
      }
      i := i + 1;
    }
    return NotFound;
  }

  /** A region of one byte that is exactly the one-byte pattern: the match at offset
      `|mem| - |tarBytes|` = 0 is outside the strict bound, so findFunction reports
      the all-ones value. */
  method MissesMatchAtLastOffset() returns (addr: nat)
    ensures Occurs([0x90 as byte], [0x90 as byte])
    ensures addr == NotFound
  {
    assert MatchesAt([0x90 as byte], [0x90 as byte], 0);
    addr := FindFunction([0x90], 0x1_4000_0000, [0x90]);
  }

  /** The corrected scanner finds the same match. */
  method FindsMatchAtLastOffset() returns (addr: nat)
    ensures addr == 0x1_4000_0000
  {
    assert MatchesAt([0x90 as byte], [0x90 as byte], 0);
    addr := FindPattern([0x90], 0x1_4000_0000, [0x90]);
  }

  /** With a 4-byte region and a 10-byte pattern the DWORD subtraction wraps, so the loop
      runs past offset 4, where the region ends, and reads outside it. */
  lemma ScanBoundWrapsPastRegion(procMemLength: nat, tarLength: nat)
    requires procMemLength < tarLength < DwordLimit
    ensures ScanBound(procMemLength, tarLength) > procMemLength
  {
  }
}
