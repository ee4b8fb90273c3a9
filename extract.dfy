/**
  `extract_between(text, start, end)`: the text after the marker `start`,
  cut at the next `end`, with surrounding whitespace stripped. It is written
  as `text.split(start)[1].split(end)[0].strip()` inside a bare
  `try`/`except`, so every exception that expression can raise turns into
  the empty string.
 */
module Extract {
  import opened Wrappers
  import opened PyStr

  /** The exceptions the expression inside the `try` can raise. */
  datatype PyError =
    | AttributeError  // `None.split`: the text is `None`
    | ValueError      // `split("")`: empty separator
    | IndexError      // `[1]` of a one-piece split: the start marker does not occur

  /** Python's `s.split(sep)`, which raises `ValueError` for an empty separator.
      A successful split loses nothing and no piece holds the separator. */
  function PySplit(s: string, sep: string): (r: Result<seq<string>, PyError>)
    ensures r.Failure? <==> |sep| == 0
    ensures r.Failure? ==> r.error == ValueError
    ensures r.Success? ==> Join(r.value, sep) == s
    ensures r.Success? ==> forall k :: 0 <= k < |r.value| ==> !Occurs(r.value[k], sep)
  {
    if |sep| == 0 then Failure(ValueError)
    else
      JoinSplit(s, sep);
      SplitPiecesFree(s, sep);
      Success(Split(s, sep))
  }

  /** The receiver of the first `split`: a `str`, or `None`, which has no `split`. */
  function Receiver(text: Option<string>): Result<string, PyError> {
    match text
    case None => Failure(AttributeError)
    case Some(s) => Success(s)
  }

  /** `text.split(start)[1].split(end)[0].strip()`, evaluated left to right,
      with the exception it raises as a `Failure`. */
  function ExtractRaw(text: Option<string>, start: string, end: string): Result<string, PyError> {
    var s :- Receiver(text);
    var parts :- PySplit(s, start);
    if |parts| < 2 then
      Failure(IndexError)
    else
      var pieces :- PySplit(parts[1], end);
      Success(Strip(pieces[0]))
  }

  /** `extract_between`: the bare `except` maps every failure to `""`. */
  function ExtractBetween(text: Option<string>, start: string, end: string): string {
    match ExtractRaw(text, start, end)
    case Success(v) => v
    case Failure(_) => ""
  }

  /** Which exception the body raises, for every input: a `None` text raises
      `AttributeError`; an empty `start` raises `ValueError` at once; a
      `start` that does not occur leaves one piece, so `[1]` raises
      `IndexError`; an empty `end` raises `ValueError` at the second split.
      Otherwise nothing is raised. */
  lemma ExtractRawOutcome(text: Option<string>, start: string, end: string)
    ensures ExtractRaw(text, start, end) == Failure(AttributeError) <==> text.None?
    ensures ExtractRaw(text, start, end) == Failure(ValueError) <==>
              text.Some? && (|start| == 0 || (Occurs(text.value, start) && |end| == 0))
    ensures ExtractRaw(text, start, end) == Failure(IndexError) <==>
              text.Some? && |start| > 0 && !Occurs(text.value, start)
    ensures ExtractRaw(text, start, end).Success? <==>
              text.Some? && |start| > 0 && |end| > 0 && Occurs(text.value, start)
  {
    if text.Some? && |start| > 0 {
      SplitSingleIff(text.value, start);
    }
  }

  /** A reply without text gives `""` for every pair of markers. */
  lemma ExtractFromNone(start: string, end: string)
    ensures ExtractBetween(None, start, end) == ""
  {
    ExtractRawOutcome(None, start, end);
  }

  /** Totality: an empty marker on either side gives `""`, not an exception. */
  lemma ExtractEmptySeparator(text: string, start: string, end: string)
    requires |start| == 0 || |end| == 0
    ensures ExtractBetween(Some(text), start, end) == ""
  {
    ExtractRawOutcome(Some(text), start, end);
  }

  /** Missing marker: when `start` does not occur the result is exactly `""`. */
  lemma ExtractMissingMarker(text: string, start: string, end: string)
    requires !Occurs(text, start)
    ensures ExtractBetween(Some(text), start, end) == ""
  {
    ExtractRawOutcome(Some(text), start, end);
  }

  /** Exact result when the marker is present: take what follows the first
      `start`, cut it at a second `start` if there is one, cut that at the
      first `end`, and strip it. */
  lemma ExtractExact(text: string, start: string, end: string, i: nat)
    requires |start| > 0 && |end| > 0
    requires ContainsAt(text, start, i)
    requires forall j: nat :: j < i ==> !ContainsAt(text, start, j)
    ensures ExtractBetween(Some(text), start, end) ==
              Strip(Before(Before(text[i + |start|..], start), end))
  {
    FirstOccurrence(text, start, i);
    var segment := SecondPiece(text, start, i);
    SplitFirst(segment, end);
    ExtractValue(text, start, end);
  }

  /** The two properties of the first occurrence determine it. */
  lemma FirstOccurrence(text: string, start: string, i: nat)
    requires ContainsAt(text, start, i)
    requires forall j: nat :: j < i ==> !ContainsAt(text, start, j)
    ensures IndexOf(text, start) == Some(i)
  {
  }

  lemma SecondPiece(text: string, start: string, i: nat) returns (segment: string)
    requires |start| > 0 && IndexOf(text, start) == Some(i)
    ensures |Split(text, start)| >= 2
    ensures segment == Split(text, start)[1] == Before(text[i + |start|..], start)
  {
    SplitSecond(text, start, i);
    segment := Split(text, start)[1];
  }

  /** When nothing is raised, the result is the first piece of the second split, stripped. */
  lemma ExtractValue(text: string, start: string, end: string)
    requires |start| > 0 && |end| > 0 && |Split(text, start)| >= 2
    ensures ExtractBetween(Some(text), start, end) == Strip(Split(Split(text, start)[1], end)[0])
  {
  }

  /** Output shape: with a non-empty `end`, the result holds no `end` and
      has no whitespace at either end. */
  lemma ExtractShape(text: string, start: string, end: string)
    requires |end| > 0
    ensures !Occurs(ExtractBetween(Some(text), start, end), end)
    ensures EndsOutside(ExtractBetween(Some(text), start, end), SpaceChars)
  {
    var r := ExtractBetween(Some(text), start, end);
    if |start| > 0 && Occurs(text, start) {
      var i := IndexOf(text, start).value;
      ExtractExact(text, start, end, i);
      var field := Before(Before(text[i + |start|..], start), end);
      TrimmingKeepsAbsence(r, field, SpaceChars, end);
    } else {
      ExtractRawOutcome(Some(text), start, end);
      assert r == "";
      assert !ContainsAt(r, end, 0);
    }
  }

  /** The result is always a piece of the input text. */
  lemma ExtractIsSubstring(text: string, start: string, end: string)
    ensures Occurs(text, ExtractBetween(Some(text), start, end))
  {
    var r := ExtractBetween(Some(text), start, end);
    if |start| > 0 && |end| > 0 && Occurs(text, start) {
      FoundIsSubstring(text, start, end);
    } else {
      ExtractRawOutcome(Some(text), start, end);
      assert ContainsAt(text, r, 0);
    }
  }

  lemma FoundIsSubstring(text: string, start: string, end: string)
    requires |start| > 0 && |end| > 0 && Occurs(text, start)
    ensures Occurs(text, ExtractBetween(Some(text), start, end))
  {
    var i := IndexOf(text, start).value;
    ExtractExact(text, start, end, i);
    var rest := text[i + |start|..];
    var segment := Before(rest, start);
    PrefixOfPrefix(Before(segment, end), segment, rest);
    TrimmingOccurs(text, i + |start|, Before(segment, end), ExtractBetween(Some(text), start, end));
  }

  lemma PrefixOfPrefix(a: string, b: string, c: string)
    requires a <= b && b <= c
    ensures a <= c
  {
    assert c[..|a|] == b[..|a|];
  }

  /** A trimming of a prefix of `text[o..]` occurs in `text`. */
  lemma TrimmingOccurs(text: string, o: nat, field: string, r: string)
    requires o <= |text| && field <= text[o..]
    requires IsTrimmingOf(r, field, SpaceChars)
    ensures Occurs(text, r)
  {
    var a: nat, b: nat :| TrimmedAt(r, field, SpaceChars, a, b);
    assert field == text[o..o + |field|];
    assert r == text[o + a..o + b];
    assert ContainsAt(text, r, o + a);
  }

  /** A field with no `end` and no second `start` after its marker runs to
      the end of the text. */
  lemma ExtractRunsToEnd(text: string, start: string, end: string, i: nat)
    requires |start| > 0 && |end| > 0
    requires ContainsAt(text, start, i)
    requires forall j: nat :: j < i ==> !ContainsAt(text, start, j)
    requires !Occurs(text[i + |start|..], start) && !Occurs(text[i + |start|..], end)
    ensures ExtractBetween(Some(text), start, end) == Strip(text[i + |start|..])
  {
    ExtractExact(text, start, end, i);
  }

  /** A field on a line of its own, `pre + start + body + "\n" + post`: when
      the marker first occurs after `pre`, and does not occur again before
      the newline, the result is `body` stripped. */
  lemma ExtractLine(pre: string, start: string, body: string, post: string)
    requires |start| > 0
    requires forall j: nat :: j < |pre| ==> !ContainsAt(pre + start + body + "\n" + post, start, j)
    requires '\n' !in body
    requires forall j: nat :: j < |body| ==> !ContainsAt(body + "\n" + post, start, j)
    ensures ExtractBetween(Some(pre + start + body + "\n" + post), start, "\n") == Strip(body)
  {
    var rest := body + "\n" + post;
    var text := pre + start + rest;
    assert text == pre + start + body + "\n" + post;
    MarkerAt(pre, start, rest);
    ExtractExact(text, start, "\n", |pre|);
    var segment := Before(rest, start);
    SegmentKeepsBody(body, post, start);
    NewlineCut(segment, body);
  }

  /** The marker stands right after `pre`, and `tail` follows it. */
  lemma MarkerAt(pre: string, start: string, tail: string)
    ensures ContainsAt(pre + start + tail, start, |pre|)
    ensures (pre + start + tail)[|pre| + |start|..] == tail
  {
    var text := pre + start + tail;
    assert text[|pre|..|pre| + |start|] == start;
  }

  /** Cutting `body + "\n" + post` at a marker that does not start within
      `body` keeps `body` and, after it, the newline if anything. */
  lemma SegmentKeepsBody(body: string, post: string, start: string)
    requires |start| > 0
    requires forall j: nat :: j < |body| ==> !ContainsAt(body + "\n" + post, start, j)
    ensures |Before(body + "\n" + post, start)| >= |body|
    ensures Before(body + "\n" + post, start)[..|body|] == body
    ensures |Before(body + "\n" + post, start)| > |body| ==> Before(body + "\n" + post, start)[|body|] == '\n'
  {
    var rest := body + "\n" + post;
    var segment := Before(rest, start);
    assert rest[..|body|] == body;
    assert segment[..|body|] == rest[..|body|];
  }

  /** Cutting at the first newline a string that is `body` optionally
      followed by a newline and more gives `body`. */
  lemma NewlineCut(segment: string, body: string)
    requires |segment| >= |body| && segment[..|body|] == body && '\n' !in body
    requires |segment| > |body| ==> segment[|body|] == '\n'
    ensures Before(segment, "\n") == body
  {
    var r := Before(segment, "\n");
    if |r| < |body| {
      CharOccurrence(segment, '\n', |r|);
    } else if |r| > |body| {
      CharOccurrence(r, '\n', |body|);
    } else {
      assert r == segment[..|body|];
    }
  }

  /** A one-character string occurs where that character stands. */
  lemma CharOccurrence(s: string, c: char, k: nat)
    requires k < |s|
    ensures ContainsAt(s, [c], k) <==> s[k] == c
  {
    if s[k] == c {
      assert s[k..k + 1] == [c];
    }
  }
}
