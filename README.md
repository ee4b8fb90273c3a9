# Future-career portrait generator: the text and data path

The system takes a webcam photograph of a student and a career goal such as
"doctor", and returns a generated portrait of the same student in that role.
`generate_profession_image` (ai_processor.py) runs in three steps:

1. It base64-encodes the photograph into a `data:image/png;base64,` URI and asks
   a vision model (`gpt-4o`) to describe the student in three lines:
   `GENDER: …`, `ETHNICITY: …`, `FACE: …`.
2. It reads each line back with `extract_between(text, marker, "\n")`, that is
   `text.split(marker)[1].split("\n")[0].strip()`. A bare `except` turns every
   failure into `""`, including the `AttributeError` raised when the reply
   has no text (`content` is `None`). The three values and the goal then fill a fixed prompt
   whose "LOCKED IDENTITY" section repeats the identity.
3. It sends that prompt to an image model (`gpt-image-1`, `1024x1024`) and
   base64-decodes the first image it returns.

The text handling the source does (finding, splitting, stripping, prompt
building, Base64) is pure, and the model states it as functions, datatypes and
lemmas. The two network calls to the vision and image services are not
modelled. They are function parameters of the pipeline, and the client setup
and environment reads are left out. The model has these modules:

- `PyStr`: the Python string operations the code uses. These are `find`,
  `split` with an explicit separator, `join` as its inverse, and `strip()`
  with Python's full `isspace` set of 29 code points.
- `Extract`: `extract_between`. It models which exception the expression
  raises and how the `except` maps each one to `""`.
- `IdentityParser`: the reply format and the three field extractions.
- `Prompt`: the portrait prompt. Its fixed text is a `Template` with the
  identity values and the goal as slots. The proofs are stated for every
  template with the character facts in `Sound`, and the actual template
  is proved to have them.
- `Base64`: section 4 of RFC 4648, standard alphabet with `=` padding.
  `Encode` is `b64encode`. `Decode` is its strict inverse: it accepts exactly
  the canonical encodings.
- `DataUri`: the URI of section 3 of RFC 2397 that carries the photograph.
- `Processor`: the whole pipeline. The two remote calls are parameters
  (`VisionService`, `ImageService`). Each maps the request it is given to
  the payload it answers with, or to the message of the exception the client
  raises.

The goal is named twice in the prompt: once in the role sentence and once in
the clothing sentence (ai_processor.py, lines 73-74).

## Model

| member | source | states |
|---|---|---|
| PyStr.IndexOf | ai_processor.py:14 | `find`: the index returned is an occurrence with none before it. There is no index exactly when the substring does not occur. |
| PyStr.SplitPiecesFree | ai_processor.py:14 | No piece of `split(sep)` contains `sep`. |
| PyStr.JoinSplit | ai_processor.py:14 | `sep.join(s.split(sep)) == s`: splitting loses no character. |
| PyStr.SplitSingleIff | ai_processor.py:14 | `split` gives a single piece (the whole text) exactly when the separator does not occur, which is when `[1]` fails. |
| PyStr.Split | ai_processor.py:14 | `str.split(sep)` for a non-empty separator: the pieces between the non-overlapping occurrences of `sep`, scanned left to right. Its own contract is that there is at least one piece. JoinSplit and SplitPiecesFree carry the rest: it loses no character and no piece holds `sep`. SplitFirst, SplitAt and SplitSecond carry the left-to-right choice: the first piece ends at the first occurrence, and the second piece starts right after it. |
| PyStr.Join | ai_processor.py:14 | `sep.join`, the inverse used to state that `split` loses nothing (JoinSplit). The source does not call it. |
| PyStr.Before | ai_processor.py:14 | The first piece of a split is a prefix with no occurrence of the separator in it. No occurrence of the separator starts inside it (so it ends at the first occurrence), and the separator stands right after it unless the piece is the whole text. |
| PyStr.SplitFirst | ai_processor.py:14 | `split(sep)[0]` is the text before the first `sep`. |
| PyStr.SplitAt | ai_processor.py:14 | When `sep` first occurs at `i`, `split(sep)` is the text before `i` followed by the split of the rest after that occurrence. |
| PyStr.SplitSecond | ai_processor.py:14 | When `sep` first occurs at `i`, `split(sep)[1]` exists and is the text after that occurrence up to the next one. |
| PyStr.TrimStartSpec | ai_processor.py:14 | The leading part `strip` removes is all whitespace, and what is left does not start with whitespace. |
| PyStr.TrimEndSpec | ai_processor.py:14 | The trailing part `strip` removes is all whitespace, and what is left does not end with whitespace. |
| PyStr.StripChars | ai_processor.py:14 | The stripped text is a slice of the input, everything cut from either end is whitespace, and neither end of the result is whitespace. |
| PyStr.StripUnique | ai_processor.py:14 | Only one trimming of a text has both ends outside the set, so the two facts above determine `strip()`. |
| PyStr.StripIdempotent | ai_processor.py:14 | Stripping twice is stripping once. |
| PyStr.TrimmingKeepsAbsence | ai_processor.py:14 | Any occurrence in a stripped text is an occurrence in the text it came from. |
| PyStr.Strip | ai_processor.py:14 | `strip()` with no argument: the result is a trimming of the input with no whitespace at either end. |
| Extract.PySplit | ai_processor.py:14 | `split` raises `ValueError` exactly for an empty separator. A successful split joins back to the text, and none of its pieces holds the separator. Which occurrences it cuts at, scanning left to right, is stated by PyStr.SplitFirst, PyStr.SplitAt and PyStr.SplitSecond. |
| Extract.ExtractRaw | ai_processor.py:13-14 | The expression inside the `try`, evaluated left to right, with the exception it raises as a `Failure`. Which exception, for every input, is stated by ExtractRawOutcome. |
| Extract.ExtractBetween | ai_processor.py:11-16 | `extract_between`: every failure becomes `""`. Its contract is carried by ExtractRawOutcome, ExtractFromNone, ExtractEmptySeparator, ExtractMissingMarker, ExtractExact, ExtractShape and ExtractIsSubstring. |
| Extract.ExtractRawOutcome | ai_processor.py:13-16 | There are four outcomes, each stated both ways. A `None` text raises `AttributeError`. An empty start marker, or a present one with an empty end marker, raises `ValueError`. An absent non-empty start marker raises `IndexError`. Every other input succeeds. |
| Extract.ExtractFromNone | ai_processor.py:13-16 | A `None` text gives `""` for every pair of markers, through the caught `AttributeError`. |
| Extract.ExtractEmptySeparator | ai_processor.py:13-16 | An empty marker on either side gives `""` rather than an exception. |
| Extract.ExtractMissingMarker | ai_processor.py:13-16 | A start marker that does not occur gives `""`. |
| Extract.ExtractExact | ai_processor.py:14 | With the first start marker at `i`, the result is the text after it, cut at the next start marker, cut at the first end marker, and stripped. |
| Extract.ExtractShape | ai_processor.py:13-16 | For a non-empty end marker, the result never contains that marker and has no whitespace at either end. |
| Extract.ExtractIsSubstring | ai_processor.py:13-16 | The result always occurs in the input text. |
| Extract.ExtractRunsToEnd | ai_processor.py:14 | A field followed by no end marker and no second start marker runs to the end of the text. |
| Extract.ExtractLine | ai_processor.py:14 | A marker on a line of its own yields the rest of that line, stripped. |
| IdentityParser.ParseIdentity | ai_processor.py:57-62 | The three calls on the reply's `message.content`, which may be `None`. The fields are stripped and hold no newline. A field is `""` when the reply has no text or lacks its marker. |
| IdentityParser.SilentReplyIdentity | ai_processor.py:57-62 | A reply with no text (`content` is `None`) yields three empty fields, each through the `AttributeError` that the bare `except` catches. |
| IdentityParser.ParseFormatted | ai_processor.py:41-62 | A reply in exactly the requested three-line format reads back as the identity it was written from. It assumes stripped one-line values without `:`. The `:` exclusion is sufficient but not necessary: it keeps every marker out of the values. |
| IdentityParser.ParseWithoutFinalNewline | ai_processor.py:41-62 | The same holds when the reply stops right after the face description, with no final newline. |
| IdentityParser.WellFormedExample | ai_processor.py:41-62 | A concrete three-line reply parses to its three values. |
| IdentityParser.MarkerOccurrences | ai_processor.py:41-43 | In a well-formed reply a marker can occur only at the start of its own line, so it occurs at most once. |
| IdentityParser.LinesStartWithMarkers | ai_processor.py:41-43 | Each line of a formatted reply begins with its marker. Together with MarkerOccurrences, each marker occurs exactly once in a well-formed reply. |
| IdentityParser.FieldFromUniqueMarker | ai_processor.py:60-62 | A marker that occurs once before the end of its line yields that line's value. |
| Prompt.Fill | ai_processor.py:65-78 | The f-string of the prompt over any template. FillReadBack, FillValues and FillSections state what can be read out of it. |
| Prompt.RenderPrompt | ai_processor.py:65-78 | For any identity and goal, the prompt starts with the fixed instruction. Its length is at least that of the instruction, the two section titles and two copies of the goal. |
| Prompt.PromptTemplateSound | ai_processor.py:66-72 | The fixed text has the character facts the read-back argument needs: no `:` or `-` in the instruction, and the shapes of the two section titles. |
| Prompt.PromptCarriesValues | ai_processor.py:69-74 | Each identity value stands right after its label and a space, and the goal occurs at two non-overlapping places. |
| Prompt.SectionOrder | ai_processor.py:66-72 | The locked-identity title first occurs right after the instruction, and the future-role title first occurs later. |
| Prompt.FillReadBack | ai_processor.py:65-78 | For every sound template, each stripped one-line value without `:` can be read back from the filled prompt with `extract_between(prompt, label, "\n")`. |
| Prompt.PromptReadBack | ai_processor.py:69-71 | The identity is locked into the actual prompt: the gender, ethnicity and face values read back exactly. |
| Prompt.EmptyIdentityPrompt | ai_processor.py:65-78 | With three empty values the prompt is still produced, and each label reads back as `""`. |
| Base64.CharSextet | ai_processor.py:29 | Each alphabet character has a 6-bit value, and the alphabet character of that value is the character again. |
| Base64.SextetRoundTrip | ai_processor.py:29 | Every 6-bit value has an alphabet character, never `=`, that maps back to it. |
| Base64.EncodeLength | ai_processor.py:29 | Every group of up to three bytes takes four characters. |
| Base64.EncodeAlphabet | ai_processor.py:29 | An encoding uses only alphabet characters, then at most two `=` that run to the end. It is ASCII, so `.decode("utf-8")` leaves it as it is. |
| Base64.DecodeEncode | ai_processor.py:29-88 | Decoding an encoding gives the bytes back. |
| Base64.EncodeDecode | ai_processor.py:88 | Every text that decodes is the encoding of what it decodes to. |
| Base64.Encode | ai_processor.py:29 | `base64.b64encode`. Its contract is carried by EncodeLength, EncodeAlphabet, DecodeEncode and EncodeInjective. |
| Base64.Decode | ai_processor.py:88 | The strict inverse of Encode that the last step uses. DecodeEncode and EncodeDecode state that it accepts exactly the encodings. |
| Base64.EncodeInjective | ai_processor.py:29 | Different byte strings have different encodings. |
| Base64.DecodeLength | ai_processor.py:88 | Only texts whose length is a multiple of four decode, and only the empty text decodes to no bytes. |
| DataUri.MakeDataUri | ai_processor.py:29-30 | The URI is the `data:image/png;base64,` prefix followed by four characters per group of up to three bytes. |
| DataUri.ParseDataUri | ai_processor.py:30 | Reads the photograph back out of a URI of this form. It is the partner of MakeDataUri in ParseMakeDataUri and MakeParseDataUri. |
| DataUri.ParseMakeDataUri | ai_processor.py:29-30 | The photograph can be recovered from its URI. |
| DataUri.MakeParseDataUri | ai_processor.py:30 | A URI that parses is the one made from the bytes it parses to. |
| DataUri.MakeDataUriInjective | ai_processor.py:29-30 | Different photographs give different URIs. |
| Processor.IdentityRequest | ai_processor.py:33-55 | The vision request names `gpt-4o`, the system instruction and the question, and its image URL decodes to the photograph. |
| Processor.PortraitRequest | ai_processor.py:81-85 | The image request names `gpt-image-1` and `1024x1024`, and its prompt starts with the fixed instruction. |
| Processor.InstructionFormatParses | ai_processor.py:39-62 | A reply in the format the system instruction shows parses back to the placeholders themselves: the instruction and the parser agree. |
| Processor.GenerateProfessionImage | ai_processor.py:19-88 | The whole pipeline. VisionFailureStops, NoChoicesStops, ImageFailureStops, ImageAnswerDecoded with DecodePortraitSpec, OnlyPortraitRequestMatters, SuccessTrace and SuccessWhenServicesAnswer state its outcome for every answer of the two services. |
| Processor.DecodePortrait | ai_processor.py:87-88 | `b64decode(img_result.data[0].b64_json)`. Its contract is DecodePortraitSpec and DecodeEncodedPortrait. |
| Processor.VisionFailureStops | ai_processor.py:33-57 | An exception from the vision call ends the run with that error, whatever the image service would do. |
| Processor.NoChoicesStops | ai_processor.py:57 | A vision answer with no choices fails with the `choices[0]` index error. |
| Processor.ImageFailureStops | ai_processor.py:81-85 | An exception from the image call ends the run with that error. |
| Processor.ImageAnswerDecoded | ai_processor.py:81-88 | When the vision call gives at least one choice and the image call answers, the run's result is DecodePortrait of that answer: the picture, or the `data[0]`, missing-payload or decoding error. |
| Processor.OnlyPortraitRequestMatters | ai_processor.py:57-85 | The image service is consulted on one request only: the prompt built from the first choice. Two services that agree on it give the same outcome. |
| Processor.DecodePortraitSpec | ai_processor.py:87-88 | The last step succeeds exactly when the first data item holds text that decodes, and the picture's encoding is then that text. No data gives the `data[0]` index error, a missing `b64_json` gives its own error, and text that does not decode gives the decoding error. Each of the three is an if-and-only-if. |
| Processor.DecodeEncodedPortrait | ai_processor.py:87-88 | A first data item holding the encoding of a picture yields that picture. |
| Processor.SuccessTrace | ai_processor.py:19-88 | A returned picture traces back through both calls. The vision service answered the photograph's request with a choice. The image service answered the prompt built from that choice with the picture's own encoding first. |
| Processor.SuccessWhenServicesAnswer | ai_processor.py:19-88 | Conversely, when both services answer and the first image item is the encoding of a picture, that picture is returned. |
| Processor.IdentityLocked | ai_processor.py:57-71 | When the vision model answers in the requested format, the prompt sent to the image model reads back the same gender, ethnicity and face values. |
| Processor.SilentReply | ai_processor.py:57-71 | A reply without text still yields a prompt, and each of its labels reads back as `""`. |

## Left out

- The OpenAI client, the network and the API key (ai_processor.py, lines 4-8; `load_dotenv`, `os.getenv`) are left out. The two calls are parameters with their answers reduced to the fields the code reads: each choice's `message.content` and each data item's `b64_json`.
- Exceptions from the client calls are one error, `ServiceFailed`, carrying a message. The client's exception classes are left out.
- `image_stream.getvalue()` is left out: the photograph is its byte string.
- Base64.Decode: `base64.b64decode` without `validate=True` is more lenient. It discards characters outside the alphabet and accepts non-zero padding bits. `Decode` accepts only canonical encodings, so such non-canonical text is an error in the model where Python returns bytes. Those bytes are not specified here.
- The `TypeError` that `b64decode(None)` raises and the `IndexError` of `data[0]` are separate errors (`MissingBase64`, `NoImageData`). An exception raised by the code that calls `generate_profession_image` is outside this model.
- Python strings that hold lone surrogates (U+D800 to U+DFFF) are left out: a Dafny `char` is a Unicode scalar value, so input text is modelled as scalar values only.
- The literal strings are the source's own, written as concatenations of short pieces; the system instruction's three format lines are written as `FormatIdentity` of the placeholders, which is the same text.
- app.py (the Streamlit interface) and database_history.py (the MongoDB history) are not part of this model.
