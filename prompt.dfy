// The image-generation prompt built from the extracted identity and the
// student's career goal (ai_processor.py, lines 65-78), and what can be
// read back out of it.
//
// The prompt is a fixed text with five slots: the three identity values and
// the goal, which is named twice. The fixed text is a `Template`; the
// arguments below hold for every template with the few character facts
// collected in `Sound`, and `PromptTemplate` is shown to have them.

module Prompt {
  import opened Wrappers
  import opened PyStr
  import opened Extract
  import opened IdentityParser

  const GenderLabel := "Gender:"
  const EthnicityLabel := "Ethnicity:"
  const FaceLabel := "Facial Identity:"

  /** The fixed text around the slots: the opening instruction, the two
      section titles, and the role sentences before, between and after the
      two mentions of the goal. */
  datatype Template = Template(intro: string, locked: string, future: string,
                               before: string, between: string, after: string)

  /** The opening instruction, in short pieces so that facts about its
      characters stay cheap to check. */
  const Intro1 := "Photorealistic portrait "
  const Intro2 := "of the SAME PERSON "
  const Intro3 := "described below. "
  const Intro4 := "Do NOT change gender, "
  const Intro5 := "ethnicity or identity.\n\n"

  const Intro := Intro1 + Intro2 + Intro3 + Intro4 + Intro5
  const LockedTitle := "--- LOCKED IDENTITY ---\n"
  const FutureTitle := "--- FUTURE ROLE ---\n"
  const RoleBefore := "The person is shown as a future "
  const RoleBetween := " in India.\n" + "Clothing: authentic Indian "
  const RoleAfter := " professional uniform.\n" + "Background: realistic Indian workplace.\n"
    + "Lighting: soft Indian natural lighting.\n" + "Ultra-realistic portrait.\n"

  const PromptTemplate := Template(Intro, LockedTitle, FutureTitle, RoleBefore, RoleBetween, RoleAfter)

  /** The locked-identity section: its title, the three values one per line,
      then a blank line. */
  function IdentityBlock(t: Template, id: Identity): string {
    t.locked + Line(GenderLabel, id.gender) + Line(EthnicityLabel, id.ethnicity)
      + Line(FaceLabel, id.face) + "\n"
  }

  /** The future-role section. */
  function RoleBlock(t: Template, goal: string): string {
    t.future + t.before + goal + t.between + goal + t.after
  }

  function Fill(t: Template, id: Identity, goal: string): string {
    t.intro + IdentityBlock(t, id) + RoleBlock(t, goal)
  }

  /** The prompt sent to the image model. Whatever the identity values are
      (empty ones included) it starts with the fixed instruction and carries
      both section titles. */
  function RenderPrompt(id: Identity, goal: string): (p: string)
    ensures PromptTemplate.intro <= p
    ensures |p| >= |PromptTemplate.intro| + |LockedTitle| + |FutureTitle| + 2 * |goal|
  {
    FillShape(PromptTemplate, id, goal);
    Fill(PromptTemplate, id, goal)
  }

  lemma FillShape(t: Template, id: Identity, goal: string)
    ensures t.intro <= Fill(t, id, goal)
    ensures |Fill(t, id, goal)| >= |t.intro| + |t.locked| + |t.future| + 2 * |goal|
  {
    assert Fill(t, id, goal) == t.intro + (IdentityBlock(t, id) + RoleBlock(t, goal));
  }

  /** Where the gender, ethnicity and face lines and the role section start. */
  function GenderAt(t: Template): nat { |t.intro| + |t.locked| }
  function EthnicityAt(t: Template, id: Identity): nat { GenderAt(t) + |Line(GenderLabel, id.gender)| }
  function FaceAt(t: Template, id: Identity): nat { EthnicityAt(t, id) + |Line(EthnicityLabel, id.ethnicity)| }
  function RoleAt(t: Template, id: Identity): nat { |t.intro| + |IdentityBlock(t, id)| }

  ghost predicate OccursTwice(s: string, sub: string) {
    exists i: nat, j: nat :: i + |sub| <= j && ContainsAt(s, sub, i) && ContainsAt(s, sub, j)
  }

  /** The character facts about the fixed text that the arguments below use. */
  ghost predicate Sound(t: Template) {
    ':' !in t.intro && '-' !in t.intro &&
    |t.locked| >= 9 && ':' !in t.locked && t.locked[0] == '-' && t.locked[4] == 'L' &&
    t.locked[|t.locked| - 3] == '-' && t.locked[|t.locked| - 9] == 'T' &&
    |t.future| >= 13 && ':' !in t.future && t.future[0] == '-' && t.future[4] == 'F'
  }

  lemma PromptTemplateSound()
    ensures Sound(PromptTemplate)
  {
    IntroNoColon();
    IntroNoDash();
    LockedTitleFacts();
    FutureTitleFacts();
  }

  lemma LockedTitleFacts()
    ensures |LockedTitle| >= 9 && ':' !in LockedTitle && LockedTitle[0] == '-' && LockedTitle[4] == 'L'
    ensures LockedTitle[|LockedTitle| - 3] == '-' && LockedTitle[|LockedTitle| - 9] == 'T'
  {
  }

  lemma FutureTitleFacts()
    ensures |FutureTitle| >= 13 && ':' !in FutureTitle && FutureTitle[0] == '-' && FutureTitle[4] == 'F'
  {
  }

  lemma IntroNoColon()
    ensures ':' !in Intro
  {
    IntroHeadNoColon();
    IntroTailNoColon();
    AbsentFromPieces(':', Intro1, Intro2, Intro3, Intro4, Intro5);
  }

  lemma IntroHeadNoColon()
    ensures ':' !in Intro1 && ':' !in Intro2 && ':' !in Intro3
  {
  }

  lemma IntroTailNoColon()
    ensures ':' !in Intro4 && ':' !in Intro5
  {
  }

  lemma IntroNoDash()
    ensures '-' !in Intro
  {
    IntroHeadNoDash();
    IntroTailNoDash();
    AbsentFromPieces('-', Intro1, Intro2, Intro3, Intro4, Intro5);
  }

  lemma IntroHeadNoDash()
    ensures '-' !in Intro1 && '-' !in Intro2 && '-' !in Intro3
  {
  }

  lemma IntroTailNoDash()
    ensures '-' !in Intro4 && '-' !in Intro5
  {
  }

  lemma AbsentFromPieces(c: char, a: string, b: string, d: string, e: string, f: string)
    requires c !in a && c !in b && c !in d && c !in e && c !in f
    ensures c !in a + b + d + e + f
  {
  }

  // The prompt cut at each of the places the arguments below look at.

  lemma AtGenderLine(t: Template, id: Identity, goal: string)
    ensures Fill(t, id, goal) == (t.intro + t.locked) + Line(GenderLabel, id.gender)
      + (Line(EthnicityLabel, id.ethnicity) + Line(FaceLabel, id.face) + "\n" + RoleBlock(t, goal))
  {
  }

  lemma AtEthnicityLine(t: Template, id: Identity, goal: string)
    ensures Fill(t, id, goal) == (t.intro + t.locked + Line(GenderLabel, id.gender))
      + Line(EthnicityLabel, id.ethnicity) + (Line(FaceLabel, id.face) + "\n" + RoleBlock(t, goal))
  {
  }

  lemma AtFaceLine(t: Template, id: Identity, goal: string)
    ensures Fill(t, id, goal) == (t.intro + t.locked + Line(GenderLabel, id.gender)
      + Line(EthnicityLabel, id.ethnicity)) + Line(FaceLabel, id.face) + ("\n" + RoleBlock(t, goal))
  {
  }

  lemma AtGoals(t: Template, id: Identity, goal: string)
    ensures Fill(t, id, goal) == (t.intro + IdentityBlock(t, id) + t.future + t.before)
      + goal + t.between + goal + t.after
  {
  }

  lemma AtLockedTitle(t: Template, id: Identity, goal: string)
    ensures Fill(t, id, goal) == t.intro + t.locked
      + (Line(GenderLabel, id.gender) + Line(EthnicityLabel, id.ethnicity) + Line(FaceLabel, id.face)
         + "\n" + RoleBlock(t, goal))
  {
  }

  lemma AtFutureTitle(t: Template, id: Identity, goal: string)
    ensures Fill(t, id, goal) == t.intro + IdentityBlock(t, id) + t.future
      + (t.before + goal + t.between + goal + t.after)
  {
  }

  // ---------------------------------------------------------------------
  // What the prompt contains

  /** Each identity value appears verbatim in the prompt right after its
      label, and the goal appears twice, the two mentions not overlapping. */
  lemma PromptCarriesValues(id: Identity, goal: string)
    ensures var p := RenderPrompt(id, goal);
      ContainsAt(p, id.gender, GenderAt(PromptTemplate) + |GenderLabel| + 1) &&
      ContainsAt(p, id.ethnicity, EthnicityAt(PromptTemplate, id) + |EthnicityLabel| + 1) &&
      ContainsAt(p, id.face, FaceAt(PromptTemplate, id) + |FaceLabel| + 1) &&
      OccursTwice(p, goal)
  {
    FillValues(PromptTemplate, id, goal);
  }

  lemma FillValues(t: Template, id: Identity, goal: string)
    ensures var p := Fill(t, id, goal);
      ContainsAt(p, id.gender, GenderAt(t) + |GenderLabel| + 1) &&
      ContainsAt(p, id.ethnicity, EthnicityAt(t, id) + |EthnicityLabel| + 1) &&
      ContainsAt(p, id.face, FaceAt(t, id) + |FaceLabel| + 1) &&
      OccursTwice(p, goal)
  {
    var l1, l2, l3 := Line(GenderLabel, id.gender), Line(EthnicityLabel, id.ethnicity), Line(FaceLabel, id.face);
    var pre, r := t.intro + t.locked, RoleBlock(t, goal);
    AtGenderLine(t, id, goal);
    ValueAt(Fill(t, id, goal), pre, GenderLabel, id.gender, l2 + l3 + "\n" + r);
    AtEthnicityLine(t, id, goal);
    ValueAt(Fill(t, id, goal), pre + l1, EthnicityLabel, id.ethnicity, l3 + "\n" + r);
    AtFaceLine(t, id, goal);
    ValueAt(Fill(t, id, goal), pre + l1 + l2, FaceLabel, id.face, "\n" + r);
    GoalTwice(t, id, goal);
  }

  lemma GoalTwice(t: Template, id: Identity, goal: string)
    ensures OccursTwice(Fill(t, id, goal), goal)
  {
    var p := Fill(t, id, goal);
    var a := t.intro + IdentityBlock(t, id) + t.future + t.before;
    var b := t.between;
    AtGoals(t, id, goal);
    assert p[|a|..|a| + |goal|] == goal;
    assert p[|a| + |goal| + |b|..|a| + |goal| + |b| + |goal|] == goal;
    assert ContainsAt(p, goal, |a|) && ContainsAt(p, goal, |a| + |goal| + |b|);
  }

  lemma ValueAt(t: string, pre: string, lbl: string, v: string, post: string)
    requires t == pre + Line(lbl, v) + post
    ensures ContainsAt(t, v, |pre| + |lbl| + 1)
  {
    assert t == (pre + lbl + " ") + v + ("\n" + post);
    assert t[|pre| + |lbl| + 1..|pre| + |lbl| + 1 + |v|] == v;
  }

  // ---------------------------------------------------------------------
  // Section order

  /** The locked-identity section comes first: its title first occurs right
      after the opening instruction, and the role title first occurs later. */
  lemma SectionOrder(id: Identity, goal: string)
    ensures IndexOf(RenderPrompt(id, goal), LockedTitle) == Some(|PromptTemplate.intro|)
    ensures IndexOf(RenderPrompt(id, goal), FutureTitle).Some?
    ensures IndexOf(RenderPrompt(id, goal), FutureTitle).value > |PromptTemplate.intro|
  {
    PromptTemplateSound();
    FillSections(PromptTemplate, id, goal);
  }

  lemma FillSections(t: Template, id: Identity, goal: string)
    requires Sound(t)
    ensures IndexOf(Fill(t, id, goal), t.locked) == Some(|t.intro|)
    ensures IndexOf(Fill(t, id, goal), t.future).Some?
    ensures IndexOf(Fill(t, id, goal), t.future).value > |t.intro|
  {
    var p := Fill(t, id, goal);
    AtLockedTitle(t, id, goal);
    assert ContainsAt(p, t.locked, |t.intro|) by {
      assert p[|t.intro|..|t.intro| + |t.locked|] == t.locked;
    }
    forall j: nat | j < |t.intro| ensures !ContainsAt(p, t.locked, j) {
      if ContainsAt(p, t.locked, j) {
        MarkerChar(p, t.locked, j, 0);
      }
    }
    FirstOccurrence(p, t.locked, |t.intro|);
    var k0 := RoleAt(t, id);
    AtFutureTitle(t, id, goal);
    assert ContainsAt(p, t.future, k0) by {
      assert p[k0..k0 + |t.future|] == t.future;
    }
    FutureNotEarly(t, id, goal, IndexOf(p, t.future).value);
  }

  /** The future-role title cannot start inside the introduction or where
      the locked-identity title starts. */
  lemma FutureNotEarly(t: Template, id: Identity, goal: string, k: nat)
    requires Sound(t) && ContainsAt(Fill(t, id, goal), t.future, k)
    ensures k > |t.intro|
  {
    AtLockedTitle(t, id, goal);
    MarkerChar(Fill(t, id, goal), t.future, k, 0);
    MarkerChar(Fill(t, id, goal), t.future, k, 4);
  }

  // ---------------------------------------------------------------------
  // Reading the identity back

  /** The identity is locked into the prompt: reading each labelled line
      back the way the reply was read gives exactly the identity the prompt
      was built from, whatever the goal is. */
  lemma PromptReadBack(id: Identity, goal: string)
    requires PlainIdentity(id)
    ensures ExtractBetween(Some(RenderPrompt(id, goal)), GenderLabel, "\n") == id.gender
    ensures ExtractBetween(Some(RenderPrompt(id, goal)), EthnicityLabel, "\n") == id.ethnicity
    ensures ExtractBetween(Some(RenderPrompt(id, goal)), FaceLabel, "\n") == id.face
  {
    PromptTemplateSound();
    FillReadBack(PromptTemplate, id, goal);
  }

  /** An empty identity (every marker missing from the reply) still yields a
      prompt with the fixed instruction whose identity lines read back empty. */
  lemma EmptyIdentityPrompt(goal: string)
    ensures PromptTemplate.intro <= RenderPrompt(Identity("", "", ""), goal)
    ensures ExtractBetween(Some(RenderPrompt(Identity("", "", ""), goal)), GenderLabel, "\n") == ""
    ensures ExtractBetween(Some(RenderPrompt(Identity("", "", ""), goal)), EthnicityLabel, "\n") == ""
    ensures ExtractBetween(Some(RenderPrompt(Identity("", "", ""), goal)), FaceLabel, "\n") == ""
  {
    assert PlainField("");
    PromptReadBack(Identity("", "", ""), goal);
  }

  lemma FillReadBack(t: Template, id: Identity, goal: string)
    requires Sound(t) && PlainIdentity(id)
    ensures ExtractBetween(Some(Fill(t, id, goal)), GenderLabel, "\n") == id.gender
    ensures ExtractBetween(Some(Fill(t, id, goal)), EthnicityLabel, "\n") == id.ethnicity
    ensures ExtractBetween(Some(Fill(t, id, goal)), FaceLabel, "\n") == id.face
  {
    ReadGender(t, id, goal);
    ReadEthnicity(t, id, goal);
    ReadFace(t, id, goal);
  }

  lemma ReadGender(t: Template, id: Identity, goal: string)
    requires Sound(t) && PlainIdentity(id)
    ensures ExtractBetween(Some(Fill(t, id, goal)), GenderLabel, "\n") == id.gender
  {
    var l2, l3 := Line(EthnicityLabel, id.ethnicity), Line(FaceLabel, id.face);
    AtGenderLine(t, id, goal);
    GenderOccurrences(t, id, goal);
    FieldFromUniqueMarker(Fill(t, id, goal), t.intro + t.locked, GenderLabel, id.gender,
      l2 + l3 + "\n" + RoleBlock(t, goal));
  }

  lemma ReadEthnicity(t: Template, id: Identity, goal: string)
    requires Sound(t) && PlainIdentity(id)
    ensures ExtractBetween(Some(Fill(t, id, goal)), EthnicityLabel, "\n") == id.ethnicity
  {
    var l1, l3 := Line(GenderLabel, id.gender), Line(FaceLabel, id.face);
    AtEthnicityLine(t, id, goal);
    EthnicityOccurrences(t, id, goal);
    FieldFromUniqueMarker(Fill(t, id, goal), t.intro + t.locked + l1, EthnicityLabel, id.ethnicity,
      l3 + "\n" + RoleBlock(t, goal));
  }

  lemma ReadFace(t: Template, id: Identity, goal: string)
    requires Sound(t) && PlainIdentity(id)
    ensures ExtractBetween(Some(Fill(t, id, goal)), FaceLabel, "\n") == id.face
  {
    var l1, l2 := Line(GenderLabel, id.gender), Line(EthnicityLabel, id.ethnicity);
    AtFaceLine(t, id, goal);
    FaceOccurrences(t, id, goal);
    FieldFromUniqueMarker(Fill(t, id, goal), t.intro + t.locked + l1 + l2, FaceLabel, id.face,
      "\n" + RoleBlock(t, goal));
  }

  // Up to the end of its own value, each label occurs only at the start of its line.

  lemma GenderOccurrences(t: Template, id: Identity, goal: string)
    requires Sound(t) && PlainIdentity(id)
    ensures forall j: nat :: (ContainsAt(Fill(t, id, goal), GenderLabel, j) &&
              j <= GenderAt(t) + |GenderLabel| + |id.gender|) ==> j == GenderAt(t)
  {
    FillColons(t, id, goal);
    // "Gender:" puts a colon at j + 6. Within the bound the only colon that
    // fits is the one ending the label itself.
    forall j: nat | ContainsAt(Fill(t, id, goal), GenderLabel, j) && j <= GenderAt(t) + |GenderLabel| + |id.gender|
      ensures j == GenderAt(t)
    {
      MarkerChar(Fill(t, id, goal), GenderLabel, j, 6);
    }
  }

  lemma EthnicityOccurrences(t: Template, id: Identity, goal: string)
    requires Sound(t) && PlainIdentity(id)
    ensures forall j: nat :: (ContainsAt(Fill(t, id, goal), EthnicityLabel, j) &&
              j <= EthnicityAt(t, id) + |EthnicityLabel| + |id.ethnicity|) ==> j == EthnicityAt(t, id)
  {
    var p, a := Fill(t, id, goal), GenderAt(t);
    FillColons(t, id, goal);
    // "Ethnicity:" puts a colon at j + 9, so j is its own position or a - 3.
    // At a - 3 its 'E' would meet the '-' three characters before the end of
    // the locked-identity title.
    forall j: nat | ContainsAt(p, EthnicityLabel, j) && j <= EthnicityAt(t, id) + |EthnicityLabel| + |id.ethnicity|
      ensures j == EthnicityAt(t, id)
    {
      MarkerChar(p, EthnicityLabel, j, 9);
      if j == a - 3 { MarkerChar(p, EthnicityLabel, j, 0); }
    }
  }

  lemma FaceOccurrences(t: Template, id: Identity, goal: string)
    requires Sound(t) && PlainIdentity(id)
    ensures forall j: nat :: (ContainsAt(Fill(t, id, goal), FaceLabel, j) &&
              j <= FaceAt(t, id) + |FaceLabel| + |id.face|) ==> j == FaceAt(t, id)
  {
    var p, a, b := Fill(t, id, goal), GenderAt(t), EthnicityAt(t, id);
    FillColons(t, id, goal);
    // "Facial Identity:" puts a colon at j + 15, so j is its own position,
    // a - 9 or b - 6. At a - 9 its 'F' would meet the 'T' of the title's
    // "IDENTITY", and at b - 6 its 'l' would meet the newline ending the gender line.
    forall j: nat | ContainsAt(p, FaceLabel, j) && j <= FaceAt(t, id) + |FaceLabel| + |id.face|
      ensures j == FaceAt(t, id)
    {
      MarkerChar(p, FaceLabel, j, 15);
      if j == a - 9 { MarkerChar(p, FaceLabel, j, 0); }
      if j == b - 6 { MarkerChar(p, FaceLabel, j, 5); }
    }
  }

  /** Up to the end of the role title, the only colons of the prompt are the
      ones ending the three labels. */
  lemma FillColons(t: Template, id: Identity, goal: string)
    requires Sound(t) && PlainIdentity(id)
    ensures forall q :: 0 <= q < RoleAt(t, id) + |t.future| && Fill(t, id, goal)[q] == ':' ==>
              q == GenderAt(t) + 6 || q == EthnicityAt(t, id) + 9 || q == FaceAt(t, id) + 15
  {
    forall q | 0 <= q < RoleAt(t, id) + |t.future| && Fill(t, id, goal)[q] == ':'
      ensures q == GenderAt(t) + 6 || q == EthnicityAt(t, id) + 9 || q == FaceAt(t, id) + 15
    {
      ColonAt(t, id, goal, q);
    }
  }

  lemma ColonAt(t: Template, id: Identity, goal: string, q: nat)
    requires Sound(t) && PlainIdentity(id)
    requires q < RoleAt(t, id) + |t.future| && Fill(t, id, goal)[q] == ':'
    ensures q == GenderAt(t) + 6 || q == EthnicityAt(t, id) + 9 || q == FaceAt(t, id) + 15
  {
    var p := Fill(t, id, goal);
    var lines := Line(GenderLabel, id.gender) + Line(EthnicityLabel, id.ethnicity) + Line(FaceLabel, id.face);
    var front, back := t.intro + t.locked, "\n" + t.future;
    AroundLines(t, id, goal);
    if |front| <= q < |front| + |lines| {
      LabelFacts();
      assert lines[q - |front|] == ':';
      LinesColon(GenderLabel, id.gender, EthnicityLabel, id.ethnicity, FaceLabel, id.face, q - |front|);
    }
  }

  lemma LabelFacts()
    ensures |GenderLabel| == 7 && ':' !in GenderLabel[..6]
    ensures |EthnicityLabel| == 10 && ':' !in EthnicityLabel[..9]
    ensures |FaceLabel| == 16 && ':' !in FaceLabel[..15]
  {
  }

  lemma AroundLines(t: Template, id: Identity, goal: string)
    ensures Fill(t, id, goal) == (t.intro + t.locked)
      + (Line(GenderLabel, id.gender) + Line(EthnicityLabel, id.ethnicity) + Line(FaceLabel, id.face))
      + ("\n" + t.future) + (t.before + goal + t.between + goal + t.after)
  {
  }
}
