/**
  The parts of Python's `str` that `extract_between` relies on:
  `find` (first occurrence), `split(sep)` with an explicit separator,
  `sep.join` as its inverse, and argument-less `strip()`.
  Strings are sequences of Unicode scalar values; a Python `str` may also
  hold lone surrogates (U+D800 to U+DFFF), which a Dafny `char` cannot.
 */
module PyStr {
  import opened Wrappers

  /** The code points for which Python's `str.isspace()` holds: those that
      `strip()` with no argument removes. */
  const SpaceChars: set<char> := {
    '\t', '\n', '\U{B}', '\U{C}', '\r',                  // U+0009 .. U+000D
    '\U{1C}', '\U{1D}', '\U{1E}', '\U{1F}', ' ',          // separators, space
    '\U{85}', '\U{A0}', '\U{1680}',
    '\U{2000}', '\U{2001}', '\U{2002}', '\U{2003}', '\U{2004}', '\U{2005}',
    '\U{2006}', '\U{2007}', '\U{2008}', '\U{2009}', '\U{200A}',
    '\U{2028}', '\U{2029}', '\U{202F}', '\U{205F}', '\U{3000}'
  }

  /** `sub` occurs in `s` starting at index `i`. */
  ghost predicate ContainsAt(s: string, sub: string, i: nat) {
    i + |sub| <= |s| && s[i..i + |sub|] == sub
  }

  /** Python's `sub in s`. */
  ghost predicate Occurs(s: string, sub: string) {
    exists i: nat :: ContainsAt(s, sub, i)
  }

  /** Python's `s.find(sub)`, with `None` for -1: the first index at which `sub` occurs. */
  function IndexOf(s: string, sub: string): (r: Option<nat>)
    ensures r.Some? ==> ContainsAt(s, sub, r.value)
    ensures r.Some? ==> forall j: nat :: j < r.value ==> !ContainsAt(s, sub, j)
    ensures r.None? <==> !Occurs(s, sub)
    decreases |s|
  {
    if sub <= s then
      assert ContainsAt(s, sub, 0);
      Some(0)
    else if |s| == 0 then
      None
    else
      var tail := IndexOf(s[1..], sub);
      IndexOfStep(s, sub, tail);
      match tail
      case None => None
      case Some(k) => Some(k + 1)
  }

  /** One step of the search: what holds of the search in `s[1..]` holds,
      shifted by one, of the search in `s` when `sub` is not a prefix of `s`. */
  lemma IndexOfStep(s: string, sub: string, tail: Option<nat>)
    requires |s| > 0 && !(sub <= s)
    requires tail.Some? ==> ContainsAt(s[1..], sub, tail.value)
    requires tail.Some? ==> forall j: nat :: j < tail.value ==> !ContainsAt(s[1..], sub, j)
    requires tail.None? <==> !Occurs(s[1..], sub)
    ensures tail.Some? ==> ContainsAt(s, sub, tail.value + 1)
    ensures tail.Some? ==> forall j: nat :: j < tail.value + 1 ==> !ContainsAt(s, sub, j)
    ensures tail.None? <==> !Occurs(s, sub)
  {
    assert !ContainsAt(s, sub, 0);
    forall j: nat | j >= 1 ensures ContainsAt(s, sub, j) <==> ContainsAt(s[1..], sub, j - 1) {
      if j + |sub| <= |s| {
        assert s[1..][j - 1..j - 1 + |sub|] == s[j..j + |sub|];
      }
    }
    if tail.Some? {
      assert ContainsAt(s, sub, tail.value + 1);
    }
  }

  /** Python's `s.split(sep)` for a non-empty separator: the pieces between
      the non-overlapping occurrences of `sep`, scanned left to right. */
  function Split(s: string, sep: string): (parts: seq<string>)
    requires |sep| > 0
    ensures |parts| >= 1
    decreases |s|
  {
    match IndexOf(s, sep)
    case None => [s]
    case Some(i) => [s[..i]] + Split(s[i + |sep|..], sep)
  }

  /** No piece of a split holds the separator. */
  lemma {:induction false} SplitPiecesFree(s: string, sep: string)
    requires |sep| > 0
    ensures forall k :: 0 <= k < |Split(s, sep)| ==> !Occurs(Split(s, sep)[k], sep)
    decreases |s|
  {
    match IndexOf(s, sep)
    case None =>
    case Some(i) =>
      PrefixBeforeFirst(s, sep, i);
      SplitPiecesFree(s[i + |sep|..], sep);
      SplitAt(s, sep, i);
      PiecesFreeCons(s[..i], Split(s[i + |sep|..], sep), sep);
  }

  lemma PiecesFreeCons(head: string, tail: seq<string>, sep: string)
    requires !Occurs(head, sep)
    requires forall k :: 0 <= k < |tail| ==> !Occurs(tail[k], sep)
    ensures forall k :: 0 <= k < |[head] + tail| ==> !Occurs(([head] + tail)[k], sep)
  {
    forall k | 0 <= k < |[head] + tail| ensures !Occurs(([head] + tail)[k], sep) {
      if k > 0 {
        assert ([head] + tail)[k] == tail[k - 1];
      }
    }
  }

  /** The text before the first occurrence of `sep` holds no occurrence of it. */
  lemma PrefixBeforeFirst(s: string, sep: string, i: nat)
    requires |sep| > 0 && i <= |s|
    requires forall j: nat :: j < i ==> !ContainsAt(s, sep, j)
    ensures !Occurs(s[..i], sep)
  {
    if Occurs(s[..i], sep) {
      var j: nat :| ContainsAt(s[..i], sep, j);
      assert j < i;
      assert s[..i][j..j + |sep|] == s[j..j + |sep|];
      assert ContainsAt(s, sep, j);
    }
  }

  /** Python's `s.partition(sep)[0]`: everything before the first occurrence of `sep`,
      or all of `s` when there is none. */
  function Before(s: string, sep: string): (r: string)
    requires |sep| > 0
    ensures r <= s
    ensures !Occurs(r, sep)
    ensures r == s || ContainsAt(s, sep, |r|)
    ensures forall j: nat :: j < |r| ==> !ContainsAt(s, sep, j)
  {
    match IndexOf(s, sep)
    case None => s
    case Some(k) =>
      PrefixBeforeFirst(s, sep, k);
      s[..k]
  }

  /** The first piece of `split` is the text before the first separator. */
  lemma SplitFirst(s: string, sep: string)
    requires |sep| > 0
    ensures Split(s, sep)[0] == Before(s, sep)
  {
    match IndexOf(s, sep)
    case None =>
    case Some(i) =>
      assert Split(s, sep) == [s[..i]] + Split(s[i + |sep|..], sep);
  }

  /** When the separator first occurs at `i`, there is a second piece: the
      text after that occurrence up to the next one (or the end). */
  lemma SplitSecond(s: string, sep: string, i: nat)
    requires |sep| > 0 && IndexOf(s, sep) == Some(i)
    ensures |Split(s, sep)| >= 2
    ensures Split(s, sep)[1] == Before(s[i + |sep|..], sep)
  {
    var rest := s[i + |sep|..];
    SplitAt(s, sep, i);
    SplitFirst(rest, sep);
  }

  /** One step of `split`: the piece before the first separator, then the
      split of what follows it. */
  lemma SplitAt(s: string, sep: string, i: nat)
    requires |sep| > 0 && IndexOf(s, sep) == Some(i)
    ensures i + |sep| <= |s| && s == s[..i] + sep + s[i + |sep|..]
    ensures Split(s, sep) == [s[..i]] + Split(s[i + |sep|..], sep)
  {
    CutAt(s, sep, i);
  }

  /** `s` around an occurrence of `sub`. */
  lemma CutAt(s: string, sub: string, i: nat)
    requires ContainsAt(s, sub, i)
    ensures s == s[..i] + sub + s[i + |sub|..]
  {
    assert s == s[..i] + s[i..i + |sub|] + s[i + |sub|..];
  }

  /** Python's `sep.join(parts)`. */
  function Join(parts: seq<string>, sep: string): string
    decreases |parts|
  {
    if |parts| == 0 then ""
    else if |parts| == 1 then parts[0]
    else parts[0] + sep + Join(parts[1..], sep)
  }

  /** `sep.join(s.split(sep)) == s`: splitting loses nothing. */
  lemma {:induction false} JoinSplit(s: string, sep: string)
    requires |sep| > 0
    ensures Join(Split(s, sep), sep) == s
    decreases |s|
  {
    match IndexOf(s, sep)
    case None =>
    case Some(i) =>
      var rest := s[i + |sep|..];
      JoinSplit(rest, sep);
      SplitAt(s, sep, i);
      JoinCons(s[..i], Split(rest, sep), sep);
  }

  lemma JoinCons(head: string, tail: seq<string>, sep: string)
    requires |tail| >= 1
    ensures Join([head] + tail, sep) == head + sep + Join(tail, sep)
  {
    assert ([head] + tail)[1..] == tail;
  }

  /** A second piece exists exactly when the separator occurs. */
  lemma SplitSingleIff(s: string, sep: string)
    requires |sep| > 0
    ensures |Split(s, sep)| == 1 <==> !Occurs(s, sep)
    ensures !Occurs(s, sep) ==> Split(s, sep) == [s]
  {
  }

  /** Every character of `s` in positions `lo` up to `hi` is in `cs`. */
  ghost predicate AllIn(s: string, cs: set<char>, lo: nat, hi: nat) {
    forall i :: lo <= i < hi && i < |s| ==> s[i] in cs
  }

  /** `s.lstrip(cs)`: drop leading characters that are in `cs`. */
  function TrimStart(s: string, cs: set<char>): string
    decreases |s|
  {
    if |s| > 0 && s[0] in cs then TrimStart(s[1..], cs) else s
  }

  /** `s.rstrip(cs)`: drop trailing characters that are in `cs`. */
  function TrimEnd(s: string, cs: set<char>): string
    decreases |s|
  {
    if |s| > 0 && s[|s| - 1] in cs then TrimEnd(s[..|s| - 1], cs) else s
  }

  /** `lstrip` removes a prefix made only of characters of `cs` and stops at the first other character. */
  lemma {:induction false} TrimStartSpec(s: string, cs: set<char>)
    ensures |TrimStart(s, cs)| <= |s| && TrimStart(s, cs) == s[|s| - |TrimStart(s, cs)|..]
    ensures AllIn(s, cs, 0, |s| - |TrimStart(s, cs)|)
    ensures |TrimStart(s, cs)| > 0 ==> TrimStart(s, cs)[0] !in cs
    decreases |s|
  {
    if |s| > 0 && s[0] in cs {
      TrimStartSpec(s[1..], cs);
      var k := |s| - |TrimStart(s, cs)|;
      forall i | 0 <= i < k ensures s[i] in cs {
        if i > 0 { assert s[1..][i - 1] == s[i]; }
      }
    }
  }

  /** `rstrip` removes a suffix made only of characters of `cs` and stops at the last other character. */
  lemma {:induction false} TrimEndSpec(s: string, cs: set<char>)
    ensures |TrimEnd(s, cs)| <= |s| && TrimEnd(s, cs) == s[..|TrimEnd(s, cs)|]
    ensures AllIn(s, cs, |TrimEnd(s, cs)|, |s|)
    ensures |TrimEnd(s, cs)| > 0 ==> TrimEnd(s, cs)[|TrimEnd(s, cs)| - 1] !in cs
    decreases |s|
  {
    if |s| > 0 && s[|s| - 1] in cs {
      TrimEndSpec(s[..|s| - 1], cs);
      var k := |TrimEnd(s, cs)|;
      forall i | k <= i < |s| ensures s[i] in cs {
        if i < |s| - 1 { assert s[..|s| - 1][i] == s[i]; }
      }
    }
  }

  /** Neither end of `r` is in `cs`. */
  ghost predicate EndsOutside(r: string, cs: set<char>) {
    |r| == 0 || (r[0] !in cs && r[|r| - 1] !in cs)
  }

  /** `r` is `s[a..b]` and every character of `s` outside it is in `cs`. */
  ghost predicate TrimmedAt(r: string, s: string, cs: set<char>, a: nat, b: nat) {
    a <= b <= |s| && r == s[a..b] && AllIn(s, cs, 0, a) && AllIn(s, cs, b, |s|)
  }

  /** `r` is `s` with some characters of `cs` removed from each end. */
  ghost predicate IsTrimmingOf(r: string, s: string, cs: set<char>) {
    exists a: nat, b: nat :: TrimmedAt(r, s, cs, a, b)
  }

  /** Python's `s.strip(cs)`. */
  function StripChars(s: string, cs: set<char>): (r: string)
    ensures EndsOutside(r, cs)
    ensures IsTrimmingOf(r, s, cs)
  {
    var t := TrimStart(s, cs);
    var r := TrimEnd(t, cs);
    StripCuts(s, cs, t, r);
    r
  }

  lemma StripCuts(s: string, cs: set<char>, t: string, r: string)
    requires t == TrimStart(s, cs) && r == TrimEnd(t, cs)
    ensures |t| <= |s|
    ensures EndsOutside(r, cs) && TrimmedAt(r, s, cs, |s| - |t|, |s| - |t| + |r|)
  {
    TrimStartSpec(s, cs);
    TrimEndSpec(t, cs);
    var a := |s| - |t|;
    assert r == s[a..a + |r|];
    AllInShift(s, t, cs, a, |r|);
    if |r| > 0 { assert r[0] == t[0]; }
  }

  /** What holds of the end of a suffix `t` of `s` holds of the end of `s`. */
  lemma AllInShift(s: string, t: string, cs: set<char>, a: nat, lo: nat)
    requires a <= |s| && t == s[a..] && AllIn(t, cs, lo, |t|)
    ensures AllIn(s, cs, a + lo, |s|)
  {
    forall i | a + lo <= i < |s| ensures s[i] in cs {
      assert s[i] == t[i - a];
    }
  }

  /** The ensures of `StripChars` pin its result down: there is only one
      trimming of `s` whose ends are not in `cs`. */
  lemma {:induction false} StripUnique(r: string, s: string, cs: set<char>)
    requires EndsOutside(r, cs) && IsTrimmingOf(r, s, cs)
    ensures r == StripChars(s, cs)
  {
    var q := StripChars(s, cs);
    var a: nat, b: nat :| TrimmedAt(r, s, cs, a, b);
    var c: nat, d: nat :| TrimmedAt(q, s, cs, c, d);
    if a < b && c < d {
      assert r[0] == s[a] && q[0] == s[c];
      assert r[|r| - 1] == s[b - 1] && q[|q| - 1] == s[d - 1];
    }
  }

  /** Stripping is idempotent. */
  lemma StripIdempotent(s: string, cs: set<char>)
    ensures StripChars(StripChars(s, cs), cs) == StripChars(s, cs)
  {
    var r := StripChars(s, cs);
    assert TrimmedAt(r, r, cs, 0, |r|);
    StripUnique(r, r, cs);
  }

  /** Trimming only removes characters: an occurrence in the result is one in the input. */
  lemma TrimmingKeepsAbsence(r: string, s: string, cs: set<char>, sub: string)
    requires IsTrimmingOf(r, s, cs)
    ensures Occurs(r, sub) ==> Occurs(s, sub)
  {
    var a: nat, b: nat :| TrimmedAt(r, s, cs, a, b);
    if Occurs(r, sub) {
      var j: nat :| ContainsAt(r, sub, j);
      OccurrenceInPiece(r, s, a, b, sub, j);
    }
  }

  lemma OccurrenceInPiece(r: string, s: string, a: nat, b: nat, sub: string, j: nat)
    requires a <= b <= |s| && r == s[a..b] && ContainsAt(r, sub, j)
    ensures ContainsAt(s, sub, a + j)
  {
    var x, y := r[j..j + |sub|], s[a + j..a + j + |sub|];
    forall k | 0 <= k < |sub| ensures x[k] == y[k] {
      assert x[k] == r[j + k] == s[a + j + k];
    }
    assert x == y;
  }

  /** Python's `s.strip()` with no argument: whitespace is removed from both ends. */
  function Strip(s: string): (r: string)
    ensures EndsOutside(r, SpaceChars)
    ensures IsTrimmingOf(r, s, SpaceChars)
  {
    StripChars(s, SpaceChars)
  }
}
