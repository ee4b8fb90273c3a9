/**
  The identity step of `generate_profession_image`: the vision model is asked
  to answer in three lines, `GENDER: ...`, `ETHNICITY: ...` and `FACE: ...`,
  and each field is read back with `extract_between(text, marker, "\n")`.
 */
module IdentityParser {
  import opened Wrappers
  import opened PyStr
  import opened Extract

  const GenderMarker: string := "GENDER:"
  const EthnicityMarker: string := "ETHNICITY:"
  const FaceMarker: string := "FACE:"
  const FieldEnd: string := "\n"

  /** What the first stage learns about the student; every field may be empty. */
  datatype Identity = Identity(gender: string, ethnicity: string, face: string)

  /** The three `extract_between` calls on the reply's `message.content`,
      which the client library leaves `None` when the model returns no text.
      Each field is stripped, holds no newline, and is empty when the reply
      has no text or lacks its marker. */
  function ParseIdentity(content: Option<string>): (id: Identity)
    ensures FieldShape(id.gender) && FieldShape(id.ethnicity) && FieldShape(id.face)
    ensures (content.None? || !Occurs(content.value, GenderMarker)) ==> id.gender == ""
    ensures (content.None? || !Occurs(content.value, EthnicityMarker)) ==> id.ethnicity == ""
    ensures (content.None? || !Occurs(content.value, FaceMarker)) ==> id.face == ""
  {
    var id := Identity(
      ExtractBetween(content, GenderMarker, FieldEnd),
      ExtractBetween(content, EthnicityMarker, FieldEnd),
      ExtractBetween(content, FaceMarker, FieldEnd));
    ExtractedField(content, GenderMarker);
    ExtractedField(content, EthnicityMarker);
    ExtractedField(content, FaceMarker);
    id
  }

  /** What every extracted field looks like: no whitespace at either end and no newline. */
  ghost predicate FieldShape(v: string) {
    EndsOutside(v, SpaceChars) && '\n' !in v
  }

  lemma ExtractedField(content: Option<string>, marker: string)
    ensures FieldShape(ExtractBetween(content, marker, FieldEnd))
    ensures (content.None? || !Occurs(content.value, marker)) ==> ExtractBetween(content, marker, FieldEnd) == ""
  {
    var v := ExtractBetween(content, marker, FieldEnd);
    match content
    case None =>
      ExtractFromNone(marker, FieldEnd);
    case Some(text) =>
      ExtractShape(text, marker, FieldEnd);
      if !Occurs(text, marker) {
        ExtractMissingMarker(text, marker, FieldEnd);
      }
      if '\n' in v {
        var k :| 0 <= k < |v| && v[k] == '\n';
        CharOccurrence(v, '\n', k);
      }
  }

  /** A reply without text: `None.split` raises `AttributeError`, which the
      bare `except` turns into `""` for each of the three fields. */
  lemma SilentReplyIdentity()
    ensures ParseIdentity(None) == Identity("", "", "")
  {
    ExtractFromNone(GenderMarker, FieldEnd);
    ExtractFromNone(EthnicityMarker, FieldEnd);
    ExtractFromNone(FaceMarker, FieldEnd);
  }

  /** One line of the reply format that the system instruction asks for. */
  function Line(marker: string, value: string): string {
    marker + " " + value + "\n"
  }

  /** A reply in exactly the requested format. */
  function FormatIdentity(id: Identity): string {
    Line(GenderMarker, id.gender) + Line(EthnicityMarker, id.ethnicity) + Line(FaceMarker, id.face)
  }

  /** A value the format can carry unambiguously: stripped, on one line,
      and without the `:` that ends every marker. */
  ghost predicate PlainField(v: string) {
    FieldShape(v) && ':' !in v
  }

  ghost predicate PlainIdentity(id: Identity) {
    PlainField(id.gender) && PlainField(id.ethnicity) && PlainField(id.face)
  }

  /** Reading back a well-formed three-line reply gives the identity it was written from. */
  lemma ParseFormatted(id: Identity)
    requires PlainIdentity(id)
    ensures ParseIdentity(Some(FormatIdentity(id))) == id
  {
    var t := FormatIdentity(id);
    var l1, l2 := Line(GenderMarker, id.gender), Line(EthnicityMarker, id.ethnicity);
    MarkerOccurrences(id);
    FieldFromUniqueMarker(t, "", GenderMarker, id.gender, l2 + Line(FaceMarker, id.face));
    FieldFromUniqueMarker(t, l1, EthnicityMarker, id.ethnicity, Line(FaceMarker, id.face));
    FieldFromUniqueMarker(t, l1 + l2, FaceMarker, id.face, "");
  }

  /** Last field without a newline: when the reply stops right after the
      face description, that field runs to the end of the text. */
  lemma ParseWithoutFinalNewline(id: Identity)
    requires PlainIdentity(id)
    ensures ParseIdentity(Some(FormatIdentity(id)[..|FormatIdentity(id)| - 1])) == id
  {
    var t := FormatIdentity(id);
    var u := t[..|t| - 1];
    var l1, l2 := Line(GenderMarker, id.gender), Line(EthnicityMarker, id.ethnicity);
    var l3 := FaceMarker + " " + id.face;
    DropFinalNewline(id);
    assert u == "" + l1 + (l2 + l3);
    assert u == l1 + l2 + l3;
    assert u == (l1 + l2) + FaceMarker + " " + id.face;
    assert u <= t;
    MarkerOccurrences(id);
    PrefixOccurrences(t, u, GenderMarker, 0);
    PrefixOccurrences(t, u, EthnicityMarker, |l1|);
    PrefixOccurrences(t, u, FaceMarker, |l1| + |l2|);
    FieldFromUniqueMarker(u, "", GenderMarker, id.gender, l2 + l3);
    FieldFromUniqueMarker(u, l1, EthnicityMarker, id.ethnicity, l3);
    FieldAtEnd(u, l1 + l2, FaceMarker, id.face);
  }

  lemma DropFinalNewline(id: Identity)
    ensures var t := FormatIdentity(id);
      t[..|t| - 1] == Line(GenderMarker, id.gender) + Line(EthnicityMarker, id.ethnicity) + (FaceMarker + " " + id.face)
  {
  }

  /** The well-formed example reply. */
  lemma WellFormedExample()
    ensures ParseIdentity(Some("GENDER: male\nETHNICITY: south asian\nFACE: round face, short hair\n"))
              == Identity("male", "south asian", "round face, short hair")
  {
    var id := Identity("male", "south asian", "round face, short hair");
    PlainMale();
    PlainSouthAsian();
    PlainFace();
    ExampleFormat(id);
    ParseFormatted(id);
  }

  lemma PlainMale() ensures PlainField("male") {}
  lemma PlainSouthAsian() ensures PlainField("south asian") {}
  lemma PlainFace() ensures PlainField("round face, short hair") {}

  lemma ExampleFormat(id: Identity)
    requires id == Identity("male", "south asian", "round face, short hair")
    ensures FormatIdentity(id) == "GENDER: male\nETHNICITY: south asian\nFACE: round face, short hair\n"
  {
    ExampleLines();
    ExampleJoinFirst();
    ExampleJoinSecond();
  }

  lemma ExampleLines()
    ensures Line(GenderMarker, "male") == "GENDER: male\n"
    ensures Line(EthnicityMarker, "south asian") == "ETHNICITY: south asian\n"
    ensures Line(FaceMarker, "round face, short hair") == "FACE: round face, short hair\n"
  {
    ExampleGenderLine();
    ExampleEthnicityLine();
    ExampleFaceLine();
  }

  lemma ExampleGenderLine() ensures Line(GenderMarker, "male") == "GENDER: male\n" {}
  lemma ExampleEthnicityLine() ensures Line(EthnicityMarker, "south asian") == "ETHNICITY: south asian\n" {}
  lemma ExampleFaceLine() ensures Line(FaceMarker, "round face, short hair") == "FACE: round face, short hair\n" {}

  lemma ExampleJoinFirst()
    ensures "GENDER: male\n" + "ETHNICITY: south asian\n" == "GENDER: male\nETHNICITY: south asian\n"
  {
  }

  lemma ExampleJoinSecond()
    ensures "GENDER: male\nETHNICITY: south asian\n" + "FACE: round face, short hair\n"
              == "GENDER: male\nETHNICITY: south asian\nFACE: round face, short hair\n"
  {
  }

  /** A marker whose first occurrences, up to the end of its own value, are only the
      one right after `pre`, on a line of its own, yields its value. What follows the
      line does not matter. */
  lemma FieldFromUniqueMarker(t: string, pre: string, marker: string, v: string, post: string)
    requires |marker| > 0
    requires t == pre + Line(marker, v) + post
    requires forall j: nat :: ContainsAt(t, marker, j) && j <= |pre| + |marker| + |v| ==> j == |pre|
    requires FieldShape(v)
    ensures ExtractBetween(Some(t), marker, FieldEnd) == v
  {
    var body := " " + v;
    assert t == pre + marker + body + "\n" + post;
    assert t[|pre| + |marker|..] == body + "\n" + post;
    forall j: nat | j < |body| ensures !ContainsAt(body + "\n" + post, marker, j) {
      if ContainsAt(body + "\n" + post, marker, j) {
        ShiftedOccurrence(t, |pre| + |marker|, marker, j);
      }
    }
    ExtractLine(pre, marker, body, post);
    StripLeadingSpace(v);
  }

  /** A marker that occurs only right after `pre` and is followed by `v` up to the end of the text. */
  lemma FieldAtEnd(t: string, pre: string, marker: string, v: string)
    requires |marker| > 0
    requires t == pre + marker + " " + v
    requires forall j: nat :: ContainsAt(t, marker, j) ==> j == |pre|
    requires FieldShape(v)
    ensures ExtractBetween(Some(t), marker, FieldEnd) == v
  {
    var rest := " " + v;
    assert ContainsAt(t, marker, |pre|) by {
      assert t[|pre|..|pre| + |marker|] == marker;
    }
    assert t[|pre| + |marker|..] == rest;
    if Occurs(rest, marker) {
      var j: nat :| ContainsAt(rest, marker, j);
      ShiftedOccurrence(t, |pre| + |marker|, marker, j);
    }
    if Occurs(rest, FieldEnd) {
      var j: nat :| ContainsAt(rest, FieldEnd, j);
      CharOccurrence(rest, '\n', j);
    }
    ExtractRunsToEnd(t, marker, FieldEnd, |pre|);
    StripLeadingSpace(v);
  }

  /** An occurrence in a suffix is an occurrence in the whole text. */
  lemma ShiftedOccurrence(t: string, o: nat, sub: string, j: nat)
    requires o <= |t| && ContainsAt(t[o..], sub, j)
    ensures ContainsAt(t, sub, o + j)
  {
    assert t[o..][j..j + |sub|] == t[o + j..o + j + |sub|];
  }

  /** Occurrences in a prefix are occurrences in the whole text. */
  lemma PrefixOccurrences(t: string, u: string, sub: string, pos: nat)
    requires u <= t
    requires forall j: nat :: ContainsAt(t, sub, j) ==> j == pos
    ensures forall j: nat :: ContainsAt(u, sub, j) ==> j == pos
  {
    forall j: nat | ContainsAt(u, sub, j) ensures j == pos {
      assert u[j..j + |sub|] == t[j..j + |sub|];
      assert ContainsAt(t, sub, j);
    }
  }

  lemma StripLeadingSpace(v: string)
    requires EndsOutside(v, SpaceChars)
    ensures Strip(" " + v) == v
  {
    var s := " " + v;
    assert s[1..|s|] == v;
    assert TrimmedAt(v, s, SpaceChars, 1, |s|);
    StripUnique(v, s, SpaceChars);
  }

  /** In a formatted reply a marker can occur only at the start of its own line,
      so at most once; LinesStartWithMarkers shows it does occur there. */
  lemma MarkerOccurrences(id: Identity)
    requires PlainIdentity(id)
    ensures forall j: nat :: ContainsAt(FormatIdentity(id), GenderMarker, j) ==> j == 0
    ensures forall j: nat :: ContainsAt(FormatIdentity(id), EthnicityMarker, j) ==>
              j == |Line(GenderMarker, id.gender)|
    ensures forall j: nat :: ContainsAt(FormatIdentity(id), FaceMarker, j) ==>
              j == |Line(GenderMarker, id.gender)| + |Line(EthnicityMarker, id.ethnicity)|
  {
    var t := FormatIdentity(id);
    var n1 := |Line(GenderMarker, id.gender)|;
    var n2 := |Line(EthnicityMarker, id.ethnicity)|;
    ColonPositions(id);
    // "GENDER:" puts a colon at j + 6, so j is 0, n1 + 3 or n1 + n2 - 2.
    // At n1 + 3 its 'G' would meet the 'N' of "ETHNICITY:", and at
    // n1 + n2 - 2 its 'E' would meet the newline ending the second line.
    forall j: nat | ContainsAt(t, GenderMarker, j) ensures j == 0 {
      MarkerChar(t, GenderMarker, j, 6);
      if j == n1 + n2 - 2 { MarkerChar(t, GenderMarker, j, 1); }
      if j == n1 + 3 { MarkerChar(t, GenderMarker, j, 0); }
    }
    // "ETHNICITY:" puts a colon at j + 9, so j is n1 or n1 + n2 - 5 (6 - 9 is
    // negative). At n1 + n2 - 5 its 'N' would meet the newline ending the second line.
    forall j: nat | ContainsAt(t, EthnicityMarker, j) ensures j == n1 {
      MarkerChar(t, EthnicityMarker, j, 9);
      if j == n1 + n2 - 5 { MarkerChar(t, EthnicityMarker, j, 4); }
    }
    // "FACE:" puts a colon at j + 4, so j is 2, n1 + 5 or n1 + n2. Its 'F'
    // would meet the 'N' of "GENDER:" at 2 and the 'C' of "ETHNICITY:" at n1 + 5.
    forall j: nat | ContainsAt(t, FaceMarker, j) ensures j == n1 + n2 {
      MarkerChar(t, FaceMarker, j, 4);
      if j == 2 { MarkerChar(t, FaceMarker, j, 0); }
      if j == n1 + 5 { MarkerChar(t, FaceMarker, j, 0); }
    }
  }

  /** Each line of a formatted reply begins with its marker. */
  lemma LinesStartWithMarkers(id: Identity)
    ensures ContainsAt(FormatIdentity(id), GenderMarker, 0)
    ensures ContainsAt(FormatIdentity(id), EthnicityMarker, |Line(GenderMarker, id.gender)|)
    ensures ContainsAt(FormatIdentity(id), FaceMarker,
              |Line(GenderMarker, id.gender)| + |Line(EthnicityMarker, id.ethnicity)|)
  {
    var l1 := Line(GenderMarker, id.gender);
    var l2 := Line(EthnicityMarker, id.ethnicity);
    var l3 := Line(FaceMarker, id.face);
    LineAt([], GenderMarker, id.gender, l2 + l3);
    assert [] + l1 + (l2 + l3) == FormatIdentity(id);
    LineAt(l1, EthnicityMarker, id.ethnicity, l3);
    LineAt(l1 + l2, FaceMarker, id.face, []);
    assert l1 + l2 + l3 + [] == FormatIdentity(id);
  }

  lemma LineAt(pre: string, marker: string, value: string, post: string)
    ensures ContainsAt(pre + Line(marker, value) + post, marker, |pre|)
  {
    MarkerAt(pre, marker, " " + value + "\n" + post);
    assert pre + Line(marker, value) + post == pre + marker + (" " + value + "\n" + post);
  }

  lemma MarkerChar(t: string, marker: string, j: nat, k: nat)
    requires ContainsAt(t, marker, j) && k < |marker|
    ensures t[j + k] == marker[k]
  {
    assert t[j..j + |marker|][k] == t[j + k];
  }

  /** The only colons of a formatted reply are the last characters of the three markers. */
  lemma ColonPositions(id: Identity)
    requires PlainIdentity(id)
    ensures forall p :: 0 <= p < |FormatIdentity(id)| && FormatIdentity(id)[p] == ':' ==>
              p == 6 || p == |Line(GenderMarker, id.gender)| + 9 ||
              p == |Line(GenderMarker, id.gender)| + |Line(EthnicityMarker, id.ethnicity)| + 4
  {
    forall p | 0 <= p < |FormatIdentity(id)| && FormatIdentity(id)[p] == ':'
      ensures p == 6 || p == |Line(GenderMarker, id.gender)| + 9 ||
              p == |Line(GenderMarker, id.gender)| + |Line(EthnicityMarker, id.ethnicity)| + 4
    {
      LinesColon(GenderMarker, id.gender, EthnicityMarker, id.ethnicity, FaceMarker, id.face, p);
    }
  }

  /** In three consecutive lines whose values hold no colon, a colon can only
      be the last character of one of the markers. */
  lemma LinesColon(m1: string, v1: string, m2: string, v2: string, m3: string, v3: string, p: int)
    requires |m1| > 0 && ':' !in m1[..|m1| - 1] && ':' !in v1
    requires |m2| > 0 && ':' !in m2[..|m2| - 1] && ':' !in v2
    requires |m3| > 0 && ':' !in m3[..|m3| - 1] && ':' !in v3
    requires var t := Line(m1, v1) + Line(m2, v2) + Line(m3, v3); 0 <= p < |t| && t[p] == ':'
    ensures p == |m1| - 1 || p == |Line(m1, v1)| + |m2| - 1 ||
            p == |Line(m1, v1)| + |Line(m2, v2)| + |m3| - 1
  {
    var l1, l2, l3 := Line(m1, v1), Line(m2, v2), Line(m3, v3);
    if p < |l1| {
      assert l1[p] == ':';
      LineColon(m1, v1, p);
    } else if p < |l1| + |l2| {
      assert l2[p - |l1|] == ':';
      LineColon(m2, v2, p - |l1|);
    } else {
      assert l3[p - |l1| - |l2|] == ':';
      LineColon(m3, v3, p - |l1| - |l2|);
    }
  }

  /** In `marker + " " + value + "\n"` the only colon is the marker's last character. */
  lemma LineColon(marker: string, value: string, p: nat)
    requires |marker| > 0 && ':' !in marker[..|marker| - 1] && ':' !in value
    requires p < |Line(marker, value)| && Line(marker, value)[p] == ':'
    ensures p == |marker| - 1
  {
  }
}
