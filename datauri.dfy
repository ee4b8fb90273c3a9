// The data URI that carries the photograph to the vision model
// (ai_processor.py, lines 29-30): the media type `image/png` and the
// base64 marker, then the encoded bytes (section 3 of RFC 2397).

module DataUri {
  import opened Wrappers
  import opened Base64

  const Prefix := "data:image/png;base64,"

  function MakeDataUri(image: seq<byte>): (u: string)
    ensures Prefix <= u
    ensures |u| == |Prefix| + (|image| + 2) / 3 * 4
  {
    EncodeLength(image);
    Prefix + Encode(image)
  }

  /** Reads a URI of this form back into the bytes it carries. */
  function ParseDataUri(u: string): Option<seq<byte>> {
    if Prefix <= u then Decode(u[|Prefix|..]) else None
  }

  /** The photograph can be recovered from its data URI. */
  lemma ParseMakeDataUri(image: seq<byte>)
    ensures ParseDataUri(MakeDataUri(image)) == Some(image)
  {
    assert MakeDataUri(image)[|Prefix|..] == Encode(image);
    DecodeEncode(image);
  }

  /** A URI that parses is the one made from what it parses to. */
  lemma MakeParseDataUri(u: string)
    requires ParseDataUri(u).Some?
    ensures MakeDataUri(ParseDataUri(u).value) == u
  {
    EncodeDecode(u[|Prefix|..]);
    assert u == Prefix + u[|Prefix|..];
  }

  /** Different photographs give different URIs. */
  lemma MakeDataUriInjective(a: seq<byte>, b: seq<byte>)
    requires MakeDataUri(a) == MakeDataUri(b)
    ensures a == b
  {
    ParseMakeDataUri(a);
    ParseMakeDataUri(b);
  }
}
