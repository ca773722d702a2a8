/**
  The string helpers of Utils.hpp: the substring search that std::string::find
  performs, splitString (split on a delimiter) and replaceAll (left-to-right,
  non-overlapping replacement). The helpers are generic in the element type so
  that they apply to text and to raw bytes alike.
 */
module Utils {
  import opened Wrappers

  /** `pat` occurs in `s` starting at offset `i`. */
  predicate MatchesAt<T(==)>(s: seq<T>, pat: seq<T>, i: nat) {
    i + |pat| <= |s| && forall k :: 0 <= k < |pat| ==> s[i + k] == pat[k]
  }

  /** `pat` occurs somewhere in `s`. */
  ghost predicate Occurs<T>(s: seq<T>, pat: seq<T>) {
    exists i: nat :: MatchesAt(s, pat, i)
  }

  /** std::string::find(pat, from): the first offset at or after `from` where `pat` occurs. */
  function Find<T(==)>(s: seq<T>, pat: seq<T>, from: nat): (r: Option<nat>)
    decreases |s| - from
    ensures r.Some? ==> from <= r.value && MatchesAt(s, pat, r.value)
    ensures r.Some? ==> forall k: nat :: from <= k < r.value ==> !MatchesAt(s, pat, k)
    ensures r.None? ==> forall k: nat :: from <= k ==> !MatchesAt(s, pat, k)
  {
    if from + |pat| > |s| then None
    else if MatchesAt(s, pat, from) then Some(from)
    else Find(s, pat, from + 1)
  }

  /** std::string::find(c, from): the first index at or after `from` holding `c`. */
  function IndexOf<T(==)>(s: seq<T>, c: T, from: nat): (r: Option<nat>)
    decreases |s| - from
    ensures r.Some? ==> from <= r.value < |s| && s[r.value] == c
    ensures r.Some? ==> c !in s[from..r.value]
    ensures r.None? ==> from <= |s| ==> c !in s[from..]
  {
    if from >= |s| then None
    else if s[from] == c then Some(from)
    else
      var r := IndexOf(s, c, from + 1);
      assert from + 1 <= |s| ==> s[from..] == [s[from]] + s[from + 1..];
      assert r.Some? ==> s[from..r.value] == [s[from]] + s[from + 1..r.value];
      r
  }

  /** Matching in a suffix is matching in the whole sequence at a shifted offset. */
  lemma MatchesAtSuffix<T>(s: seq<T>, pat: seq<T>, j: nat, k: nat)
    requires j <= |s|
    ensures MatchesAt(s[j..], pat, k) <==> MatchesAt(s, pat, j + k)
  {
    if MatchesAt(s, pat, j + k) {
      forall m | 0 <= m < |pat| ensures s[j..][k + m] == pat[m] {
        assert s[j..][k + m] == s[j + k + m];
      }
    }
    if MatchesAt(s[j..], pat, k) {
      forall m | 0 <= m < |pat| ensures s[j + k + m] == pat[m] {
        assert s[j..][k + m] == s[j + k + m];
      }
    }
  }

  // ---------------------------------------------------------------------------
  // splitString

  /** Concatenates the tokens with one delimiter between neighbours. */
  function Join<T>(tokens: seq<seq<T>>, d: T): seq<T> {
    if |tokens| == 0 then []
    else if |tokens| == 1 then tokens[0]
    else tokens[0] + [d] + Join(tokens[1..], d)
  }

  /** Cutting `s[start..]` at a delimiter found at `e`. */
  lemma CutAtDelimiter<T>(s: seq<T>, d: T, start: nat, e: nat)
    requires start <= e < |s| && s[e] == d
    ensures s[start..] == s[start..e] + [d] + s[e + 1..]
  {
  }

  /** Cutting at a delimiter removes exactly one occurrence of it. */
  lemma CountAtDelimiter<T>(s: seq<T>, d: T, start: nat, e: nat)
    requires start <= e < |s| && s[e] == d
    ensures multiset(s[start..])[d] == multiset(s[start..e])[d] + 1 + multiset(s[e + 1..])[d]
  {
    CutAtDelimiter(s, d, start, e);
  }

  /** Joining a token in front of a non-empty token list. */
  lemma JoinCons<T>(t: seq<T>, rest: seq<seq<T>>, d: T)
    requires |rest| > 0
    ensures Join([t] + rest, d) == t + [d] + Join(rest, d)
  {
    assert ([t] + rest)[1..] == rest;
  }

  /** The tokens of `s[start..]`, each ended by the next delimiter found by find. */
  function SplitFrom<T(==)>(s: seq<T>, d: T, start: nat): seq<seq<T>>
    requires start <= |s|
    decreases |s| - start
  {
    match IndexOf(s, d, start)
    case None => [s[start..]]
    case Some(e) => [s[start..e]] + SplitFrom(s, d, e + 1)
  }

  /** splitString(str, delimiter), as a function of the whole input. */
  function Split<T(==)>(s: seq<T>, d: T): seq<seq<T>> {
    SplitFrom(s, d, 0)
  }

  /** Joining the tokens of `s[start..]` with the delimiter gives back `s[start..]`. */
  lemma {:induction false} SplitFromJoin<T>(s: seq<T>, d: T, start: nat)
    requires start <= |s|
    ensures Join(SplitFrom(s, d, start), d) == s[start..]
    decreases |s| - start
  {
    match IndexOf(s, d, start)
    case None =>
    case Some(e) =>
      var rest := SplitFrom(s, d, e + 1);
      SplitFromJoin(s, d, e + 1);
      CutAtDelimiter(s, d, start, e);
      JoinCons(s[start..e], rest, d);
  }

  /** No token of `s[start..]` contains the delimiter. */
  lemma {:induction false} SplitFromTokens<T>(s: seq<T>, d: T, start: nat)
    requires start <= |s|
    ensures forall k :: 0 <= k < |SplitFrom(s, d, start)| ==> d !in SplitFrom(s, d, start)[k]
    decreases |s| - start
  {
    match IndexOf(s, d, start)
    case None =>
    case Some(e) =>
      SplitFromTokens(s, d, e + 1);
  }

  /** splitString's tokens rejoin to its input and none contains the delimiter. */
  lemma SplitJoin<T>(s: seq<T>, d: T)
    ensures Join(Split(s, d), d) == s
    ensures forall k :: 0 <= k < |Split(s, d)| ==> d !in Split(s, d)[k]
  {
    SplitFromJoin(s, d, 0);
    SplitFromTokens(s, d, 0);
    assert s[0..] == s;
  }

  /** There is one token more than there are delimiters in `s[start..]`. */
  lemma {:induction false} SplitFromCount<T>(s: seq<T>, d: T, start: nat)
    requires start <= |s|
    ensures |SplitFrom(s, d, start)| == multiset(s[start..])[d] + 1
    decreases |s| - start
  {
    match IndexOf(s, d, start)
    case None =>
    case Some(e) =>
      SplitFromCount(s, d, e + 1);
      CountAtDelimiter(s, d, start, e);
  }

  /** splitString returns one token more than there are delimiters. */
  lemma SplitCount<T>(s: seq<T>, d: T)
    ensures |Split(s, d)| == multiset(s)[d] + 1
  {
    SplitFromCount(s, d, 0);
    assert s[0..] == s;
  }

  /** One round of the splitString loop: the token up to the found delimiter, then the rest. */
  lemma SplitFromStep<T>(s: seq<T>, d: T, start: nat, e: nat)
    requires start <= |s| && IndexOf(s, d, start) == Some(e)
    ensures e < |s|
    ensures SplitFrom(s, d, start) == [s[start..e]] + SplitFrom(s, d, e + 1)
  {
  }

  /** The last round of splitString: no delimiter is left, the rest is the last token. */
  lemma SplitFromLast<T>(s: seq<T>, d: T, start: nat)
    requires start <= |s| && IndexOf(s, d, start) == None
    ensures SplitFrom(s, d, start) == [s[start..]]
  {
  }

  /** One round of the splitString loop keeps the tokens cut so far plus the
      tokens of the rest equal to the whole split. */
  lemma SplitLoopStep<T>(str: seq<T>, d: T, tokens: seq<seq<T>>, start: nat, e: nat)
    requires start <= |str|
    requires tokens + SplitFrom(str, d, start) == Split(str, d)
    requires IndexOf(str, d, start) == Some(e)
    ensures (tokens + [str[start..e]]) + SplitFrom(str, d, e + 1) == Split(str, d)
  {
    SplitFromStep(str, d, start, e);
    assert tokens + ([str[start..e]] + SplitFrom(str, d, e + 1))
        == (tokens + [str[start..e]]) + SplitFrom(str, d, e + 1);
  }

  /** The loop of splitString: repeatedly find the next delimiter and cut the token before it. */
  method SplitString<T(==)>(str: seq<T>, delimiter: T) returns (tokens: seq<seq<T>>)
    ensures tokens == Split(str, delimiter)
    ensures Join(tokens, delimiter) == str
    ensures |tokens| == multiset(str)[delimiter] + 1
    ensures forall k :: 0 <= k < |tokens| ==> delimiter !in tokens[k]
  {
    tokens := [];
    var start: nat := 0;
    var end := IndexOf(str, delimiter, start);
    while end.Some?
      invariant start <= |str|
      invariant end == IndexOf(str, delimiter, start)
      invariant tokens + SplitFrom(str, delimiter, start) == Split(str, delimiter)
      decreases |str| - start
    {
      SplitLoopStep(str, delimiter, tokens, start, end.value);
      tokens := tokens + [str[start..end.value]];
      start := end.value + 1;
      end := IndexOf(str, delimiter, start);
    }
    SplitFromLast(str, delimiter, start);
    tokens := tokens + [str[start..]];
    SplitJoin(str, delimiter);
    SplitCount(str, delimiter);
  }

  /** The joined tokens end with the last token. */
  lemma {:induction false} JoinEndsWithLast<T>(tokens: seq<seq<T>>, d: T)
    requires |tokens| > 0
    ensures var last := tokens[|tokens| - 1];
            |last| <= |Join(tokens, d)| && Join(tokens, d)[|Join(tokens, d)| - |last|..] == last
  {
    if |tokens| > 1 {
      JoinEndsWithLast(tokens[1..], d);
      assert tokens[1..][|tokens[1..]| - 1] == tokens[|tokens| - 1];
    }
  }

  /** Splitting the empty string gives one empty token. */
  lemma SplitEmpty<T>(d: T)
    ensures Split([], d) == [[]]
  {
  }

  /** A trailing delimiter produces a trailing empty token. */
  lemma SplitTrailingDelimiter<T>(s: seq<T>, d: T)
    requires |s| > 0 && s[|s| - 1] == d
    ensures |Split(s, d)| > 0 && Split(s, d)[|Split(s, d)| - 1] == []
  {
    var r := Split(s, d);
    SplitJoin(s, d);
    JoinEndsWithLast(r, d);
    var last := r[|r| - 1];
    assert d !in last;
  }

  // ---------------------------------------------------------------------------
  // replaceAll

  /** Left-to-right, non-overlapping replacement of `from` by `to`; the text after a
      replaced occurrence is scanned as it was in the input. */
  function Replaced<T(==)>(s: seq<T>, from: seq<T>, to: seq<T>): seq<T>
    requires |from| > 0
    decreases |s|
  {
    if |s| == 0 then []
    else if MatchesAt(s, from, 0) then to + Replaced(s[|from|..], from, to)
    else [s[0]] + Replaced(s[1..], from, to)
  }

  /** Replacement leaves a sequence without occurrences of `from` unchanged. */
  lemma {:induction false} ReplacedWithoutMatch<T>(s: seq<T>, from: seq<T>, to: seq<T>)
    requires |from| > 0
    requires forall k: nat :: !MatchesAt(s, from, k)
    ensures Replaced(s, from, to) == s
  {
    if |s| > 0 {
      assert !MatchesAt(s, from, 0);
      forall k: nat ensures !MatchesAt(s[1..], from, k) {
        MatchesAtSuffix(s, from, 1, k);
      }
      ReplacedWithoutMatch(s[1..], from, to);
      assert [s[0]] + s[1..] == s;
    }
  }

  /** Without a match at the head, the head is copied and replacement moves on by one. */
  lemma ReplacedHead<T>(s: seq<T>, from: seq<T>, to: seq<T>)
    requires |from| > 0 && |s| > 0 && !MatchesAt(s, from, 0)
    ensures Replaced(s, from, to) == [s[0]] + Replaced(s[1..], from, to)
  {
  }

  /** Dropping the head shifts a first occurrence at `p > 0` to `p - 1`. */
  lemma FirstMatchShift<T>(s: seq<T>, from: seq<T>, p: nat)
    requires 0 < p && MatchesAt(s, from, p)
    requires forall k: nat :: k < p ==> !MatchesAt(s, from, k)
    ensures MatchesAt(s[1..], from, p - 1)
    ensures forall k: nat :: k < p - 1 ==> !MatchesAt(s[1..], from, k)
  {
    MatchesAtSuffix(s, from, 1, p - 1);
    forall k: nat | k < p - 1 ensures !MatchesAt(s[1..], from, k) {
      MatchesAtSuffix(s, from, 1, k);
    }
  }

  /** Putting the head back in front of the text before `p` in the tail. */
  lemma HeadThenRest<T>(s: seq<T>, p: nat, to: seq<T>, whole: seq<T>, tail: seq<T>, rest: seq<T>)
    requires 0 < p <= |s|
    requires whole == [s[0]] + tail && tail == s[1..][..p - 1] + to + rest
    ensures whole == s[..p] + to + rest
  {
    assert [s[0]] + s[1..][..p - 1] == s[..p];
  }

  /** The first occurrence, at `p`, is replaced by `to` verbatim, and replacement
      continues on the input text after it: the inserted text is never rescanned. */
  lemma {:induction false} ReplacedFirstOccurrence<T>(s: seq<T>, from: seq<T>, to: seq<T>, p: nat)
    requires |from| > 0
    requires MatchesAt(s, from, p)
    requires forall k: nat :: k < p ==> !MatchesAt(s, from, k)
    ensures Replaced(s, from, to) == s[..p] + to + Replaced(s[p + |from|..], from, to)
    decreases p
  {
    if p == 0 {
      assert s[..0] + to == to;
    } else {
      var t := s[1..];
      assert !MatchesAt(s, from, 0);
      ReplacedHead(s, from, to);
      FirstMatchShift(s, from, p);
      ReplacedFirstOccurrence(t, from, to, p - 1);
      assert t[p - 1 + |from|..] == s[p + |from|..];
      HeadThenRest(s, p, to, Replaced(s, from, to), Replaced(t, from, to), Replaced(s[p + |from|..], from, to));
    }
  }

  /** find's report, seen from the suffix at `pos`: the occurrence sits at `p - pos` and
      none comes before it. */
  lemma FoundInSuffix<T>(result: seq<T>, from: seq<T>, pos: nat, p: nat)
    requires pos <= |result|
    requires Find(result, from, pos) == Some(p)
    ensures pos <= p && p + |from| <= |result|
    ensures MatchesAt(result[pos..], from, p - pos)
    ensures forall k: nat :: k < p - pos ==> !MatchesAt(result[pos..], from, k)
  {
    MatchesAtSuffix(result, from, pos, p - pos);
    forall k: nat | k < p - pos ensures !MatchesAt(result[pos..], from, k) {
      MatchesAtSuffix(result, from, pos, k);
    }
  }

  /** Replacement of the text from `pos` on, when its first occurrence is at `p`. */
  lemma ReplacedFromFound<T>(result: seq<T>, from: seq<T>, to: seq<T>, pos: nat, p: nat)
    requires |from| > 0 && pos <= p && p + |from| <= |result|
    requires MatchesAt(result[pos..], from, p - pos)
    requires forall k: nat :: k < p - pos ==> !MatchesAt(result[pos..], from, k)
    ensures Replaced(result[pos..], from, to) == result[pos..p] + to + Replaced(result[p + |from|..], from, to)
  {
    var suffix := result[pos..];
    ReplacedFirstOccurrence(suffix, from, to, p - pos);
    assert suffix[..p - pos] == result[pos..p];
    assert suffix[p - pos + |from|..] == result[p + |from|..];
  }

  /** One round of the replaceAll loop keeps the final outcome: the prefix before `pos` is
      final and the rest still awaits replacement. */
  lemma ReplaceStep<T>(result: seq<T>, from: seq<T>, to: seq<T>, pos: nat, p: nat)
    requires |from| > 0 && pos <= |result|
    requires Find(result, from, pos) == Some(p)
    ensures p + |from| <= |result|
    ensures var next := result[..p] + to + result[p + |from|..];
            p + |to| <= |next| &&
            next[..p + |to|] + Replaced(next[p + |to|..], from, to)
            == result[..pos] + Replaced(result[pos..], from, to)
  {
    FoundInSuffix(result, from, pos, p);
    ReplacedFromFound(result, from, to, pos, p);
    var next := result[..p] + to + result[p + |from|..];
    assert next[..p + |to|] == result[..pos] + result[pos..p] + to;
    assert next[p + |to|..] == result[p + |from|..];
  }

  /** When find reports nothing from `pos` on, the rest needs no replacement. */
  lemma ReplaceDone<T>(result: seq<T>, from: seq<T>, to: seq<T>, pos: nat)
    requires |from| > 0 && pos <= |result|
    requires Find(result, from, pos) == None
    ensures result[..pos] + Replaced(result[pos..], from, to) == result
  {
    forall k: nat ensures !MatchesAt(result[pos..], from, k) {
      MatchesAtSuffix(result, from, pos, k);
    }
    ReplacedWithoutMatch(result[pos..], from, to);
    assert result[..pos] + result[pos..] == result;
  }

  /** The loop of replaceAll: find from the current position, splice in `to`, move past it. */
  method ReplaceAll<T(==)>(str: seq<T>, from: seq<T>, to: seq<T>) returns (result: seq<T>)
    requires |from| > 0
    ensures result == Replaced(str, from, to)
    ensures (forall k: nat :: !MatchesAt(str, from, k)) ==> result == str
  {
    result := str;
    var pos: nat := 0;
    var found := Find(result, from, pos);
    while found.Some?
      invariant pos <= |result|
      invariant found == Find(result, from, pos)
      invariant result[..pos] + Replaced(result[pos..], from, to) == Replaced(str, from, to)
      decreases |result| - pos
    {
      var p := found.value;
      ReplaceStep(result, from, to, pos, p);
      result := result[..p] + to + result[p + |from|..];
      pos := p + |to|;
      found := Find(result, from, pos);
    }
    ReplaceDone(result, from, to, pos);
    if forall k: nat :: !MatchesAt(str, from, k) {
      ReplacedWithoutMatch(str, from, to);
    }
  }
}
