// `generate_profession_image` (ai_processor.py, lines 19-88): the photograph
// goes to a vision model as a data URI, the reply is parsed into an identity,
// the identity and the goal fill the portrait prompt, and the image model's
// base64 answer is decoded into the returned picture.
//
// The two remote calls are parameters: a service maps the request it is sent
// to either the payload it answers with or the error the client raises.

module Processor {
  import opened Wrappers
  import opened PyStr
  import opened Extract
  import opened Base64
  import opened DataUri
  import opened IdentityParser
  import opened Prompt

  const VisionModel := "gpt-4o"
  const ImageModel := "gpt-image-1"
  const ImageSize := "1024x1024"
  const Question := "Analyze this student's face."

  /** The reply format shown in the system instruction, as placeholders. */
  const FormatPlaceholder := Identity(GenderPlaceholder, EthnicityPlaceholder, FacePlaceholder)
  const GenderPlaceholder := "<male/female/other>"
  const EthnicityPlaceholder := "<ethnicity>"
  const FacePlaceholder := "<detailed face " + "description>"

  const InstructionHead := "Extract identity of the student. " + "Return the result in " + "THIS EXACT FORMAT:\n\n"
  const InstructionTail := "DO NOT add anything else."

  /** The system message: the request, the three-line format, a blank line
      and the closing order. */
  const Instruction := InstructionHead + FormatIdentity(FormatPlaceholder) + "\n" + InstructionTail

  /** The chat request of the first stage, holding the system message and
      the user message of a question and the photograph. */
  datatype VisionRequest = VisionRequest(model: string, instruction: string, question: string, imageUrl: string)

  /** The request of the second stage. */
  datatype ImageRequest = ImageRequest(model: string, prompt: string, size: string)

  /** What a remote call yields: for the chat service the `message.content`
      of each choice, for the image service the `b64_json` of each data item
      (either may be `None`); or the message of the exception raised. */
  type VisionService = VisionRequest -> Result<seq<Option<string>>, string>
  type ImageService = ImageRequest -> Result<seq<Option<string>>, string>

  /** Why the function does not return an image. */
  datatype ProcessError =
    | ServiceFailed(reason: string)  // an exception from either client call
    | NoChoices                      // `choices[0]` on an empty list
    | NoImageData                    // `data[0]` on an empty list
    | MissingBase64                  // `b64decode(None)`
    | MalformedBase64                // `b64decode` rejects the text

  function IdentityRequest(photo: seq<byte>): (req: VisionRequest)
    ensures req.model == VisionModel && req.instruction == Instruction && req.question == Question
    ensures ParseDataUri(req.imageUrl) == Some(photo)
  {
    ParseMakeDataUri(photo);
    VisionRequest(VisionModel, Instruction, Question, MakeDataUri(photo))
  }

  function PortraitRequest(id: Identity, goal: string): (req: ImageRequest)
    ensures req.model == ImageModel && req.size == ImageSize
    ensures PromptTemplate.intro <= req.prompt
  {
    ImageRequest(ImageModel, RenderPrompt(id, goal), ImageSize)
  }

  function Lift<T>(r: Result<T, string>): Result<T, ProcessError> {
    match r
    case Success(v) => Success(v)
    case Failure(e) => Failure(ServiceFailed(e))
  }

  /** The last two lines: take the first data item and decode its text. */
  function DecodePortrait(data: seq<Option<string>>): Result<seq<byte>, ProcessError> {
    if |data| == 0 then Failure(NoImageData)
    else match data[0]
      case None => Failure(MissingBase64)
      case Some(text) =>
        match Decode(text)
        case None => Failure(MalformedBase64)
        case Some(image) => Success(image)
  }

  function GenerateProfessionImage(photo: seq<byte>, goal: string,
                                   vision: VisionService, images: ImageService): Result<seq<byte>, ProcessError>
  {
    var choices :- Lift(vision(IdentityRequest(photo)));
    if |choices| == 0 then Failure(NoChoices)
    else
      var data :- Lift(images(PortraitRequest(ParseIdentity(choices[0]), goal)));
      DecodePortrait(data)
  }

  /** The picture returned is exactly the one whose canonical base64 text the
      image service put first; any other first item is an error. */
  lemma DecodePortraitSpec(data: seq<Option<string>>)
    ensures DecodePortrait(data).Success? <==>
      |data| > 0 && data[0].Some? && Decode(data[0].value).Some?
    ensures DecodePortrait(data).Success? ==> data[0] == Some(Encode(DecodePortrait(data).value))
    ensures |data| == 0 <==> DecodePortrait(data) == Failure(NoImageData)
    ensures (|data| > 0 && data[0].None?) <==> DecodePortrait(data) == Failure(MissingBase64)
    ensures (|data| > 0 && data[0].Some? && Decode(data[0].value).None?) <==>
      DecodePortrait(data) == Failure(MalformedBase64)
  {
    if DecodePortrait(data).Success? {
      EncodeDecode(data[0].value);
    }
  }

  lemma DecodeEncodedPortrait(image: seq<byte>, rest: seq<Option<string>>)
    ensures DecodePortrait([Some(Encode(image))] + rest) == Success(image)
  {
    DecodeEncode(image);
  }

  /** A failing vision call ends the run with its error, before any image is
      requested. */
  lemma VisionFailureStops(photo: seq<byte>, goal: string, vision: VisionService, images: ImageService)
    requires vision(IdentityRequest(photo)).Failure?
    ensures GenerateProfessionImage(photo, goal, vision, images)
      == Failure(ServiceFailed(vision(IdentityRequest(photo)).error))
  {
  }

  lemma NoChoicesStops(photo: seq<byte>, goal: string, vision: VisionService, images: ImageService)
    requires vision(IdentityRequest(photo)) == Success([])
    ensures GenerateProfessionImage(photo, goal, vision, images) == Failure(NoChoices)
  {
  }

  /** A failing image call ends the run with its error. */
  lemma ImageFailureStops(photo: seq<byte>, goal: string, vision: VisionService, images: ImageService)
    requires vision(IdentityRequest(photo)).Success?
    requires var c := vision(IdentityRequest(photo)).value;
      |c| > 0 && images(PortraitRequest(ParseIdentity(c[0]), goal)).Failure?
    ensures var c := vision(IdentityRequest(photo)).value;
      GenerateProfessionImage(photo, goal, vision, images)
        == Failure(ServiceFailed(images(PortraitRequest(ParseIdentity(c[0]), goal)).error))
  {
  }

  /** When both services answer, the run's result is the decoding of the
      image service's answer, so DecodePortraitSpec gives its error. */
  lemma ImageAnswerDecoded(photo: seq<byte>, goal: string, vision: VisionService, images: ImageService)
    requires vision(IdentityRequest(photo)).Success?
    requires var c := vision(IdentityRequest(photo)).value;
      |c| > 0 && images(PortraitRequest(ParseIdentity(c[0]), goal)).Success?
    ensures var c := vision(IdentityRequest(photo)).value;
      GenerateProfessionImage(photo, goal, vision, images)
        == DecodePortrait(images(PortraitRequest(ParseIdentity(c[0]), goal)).value)
  {
  }

  /** The image service is consulted on one request only: the prompt built
      from the first choice's reply. Two image services that agree on it give
      the same outcome. */
  lemma OnlyPortraitRequestMatters(photo: seq<byte>, goal: string, vision: VisionService,
                                   images1: ImageService, images2: ImageService)
    requires vision(IdentityRequest(photo)).Success?
    requires var c := vision(IdentityRequest(photo)).value;
      |c| > 0 ==> images1(PortraitRequest(ParseIdentity(c[0]), goal)) == images2(PortraitRequest(ParseIdentity(c[0]), goal))
    ensures GenerateProfessionImage(photo, goal, vision, images1)
      == GenerateProfessionImage(photo, goal, vision, images2)
  {
  }

  /** A returned picture traces back through both calls: the vision service
      answered the photograph's request with at least one choice, and the
      image service answered the prompt built from that choice with the
      picture's own base64 text first. */
  lemma SuccessTrace(photo: seq<byte>, goal: string, vision: VisionService, images: ImageService)
    requires GenerateProfessionImage(photo, goal, vision, images).Success?
    ensures vision(IdentityRequest(photo)).Success?
    ensures var c := vision(IdentityRequest(photo)).value;
      |c| > 0 &&
      var answer := images(PortraitRequest(ParseIdentity(c[0]), goal));
      answer.Success? && |answer.value| > 0 &&
      answer.value[0] == Some(Encode(GenerateProfessionImage(photo, goal, vision, images).value))
  {
    var c := vision(IdentityRequest(photo)).value;
    DecodePortraitSpec(images(PortraitRequest(ParseIdentity(c[0]), goal)).value);
  }

  /** Conversely, when both services answer and the image service's first
      item is the base64 text of a picture, that picture is returned. */
  lemma SuccessWhenServicesAnswer(photo: seq<byte>, goal: string, vision: VisionService, images: ImageService,
                                  image: seq<byte>)
    requires vision(IdentityRequest(photo)).Success?
    requires var c := vision(IdentityRequest(photo)).value;
      |c| > 0 &&
      var answer := images(PortraitRequest(ParseIdentity(c[0]), goal));
      answer.Success? && |answer.value| > 0 && answer.value[0] == Some(Encode(image))
    ensures GenerateProfessionImage(photo, goal, vision, images) == Success(image)
  {
    var c := vision(IdentityRequest(photo)).value;
    var data := images(PortraitRequest(ParseIdentity(c[0]), goal)).value;
    DecodeEncodedPortrait(image, data[1..]);
    assert data == [Some(Encode(image))] + data[1..];
  }

  /** When the vision model answers in the requested format, the identity it
      gives is locked into the prompt: each value is read back from it. */
  lemma IdentityLocked(id: Identity, goal: string)
    requires PlainIdentity(id)
    ensures var p := PortraitRequest(ParseIdentity(Some(FormatIdentity(id))), goal).prompt;
      ExtractBetween(Some(p), GenderLabel, "\n") == id.gender &&
      ExtractBetween(Some(p), EthnicityLabel, "\n") == id.ethnicity &&
      ExtractBetween(Some(p), FaceLabel, "\n") == id.face
  {
    ParseFormatted(id);
    PromptReadBack(id, goal);
  }

  /** A reply without text still yields a prompt, with the three values empty. */
  lemma SilentReply(goal: string)
    ensures var p := PortraitRequest(ParseIdentity(None), goal).prompt;
      ExtractBetween(Some(p), GenderLabel, "\n") == "" &&
      ExtractBetween(Some(p), EthnicityLabel, "\n") == "" &&
      ExtractBetween(Some(p), FaceLabel, "\n") == ""
  {
    SilentReplyIdentity();
    EmptyIdentityPrompt(goal);
  }

  /** A reply in the format shown in the instruction reads back as the
      placeholders themselves: the instruction and the parser agree. */
  lemma InstructionFormatParses()
    ensures ParseIdentity(Some(FormatIdentity(FormatPlaceholder))) == FormatPlaceholder
  {
    BracketsNotSpace();
    PlaceholderGender();
    PlaceholderEthnicity();
    PlaceholderFace();
    ParseFormatted(FormatPlaceholder);
  }

  lemma BracketsNotSpace()
    ensures '<' !in SpaceChars && '>' !in SpaceChars
  {
  }

  lemma PlaceholderGender()
    ensures GenderPlaceholder[0] == '<' && GenderPlaceholder[|GenderPlaceholder| - 1] == '>'
    ensures ':' !in GenderPlaceholder && '\n' !in GenderPlaceholder
  {
  }

  lemma PlaceholderEthnicity()
    ensures EthnicityPlaceholder[0] == '<' && EthnicityPlaceholder[|EthnicityPlaceholder| - 1] == '>'
    ensures ':' !in EthnicityPlaceholder && '\n' !in EthnicityPlaceholder
  {
  }

  lemma PlaceholderFace()
    ensures FacePlaceholder[0] == '<' && FacePlaceholder[|FacePlaceholder| - 1] == '>'
    ensures ':' !in FacePlaceholder && '\n' !in FacePlaceholder
  {
    assert ':' !in "<detailed face " && ':' !in "description>";
    assert '\n' !in "<detailed face " && '\n' !in "description>";
  }
}
