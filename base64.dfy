// Base64 with the standard alphabet and `=` padding (section 4 of RFC 4648),
// as used to put the photograph into a data URI (ai_processor.py, line 29)
// and to read the generated portrait back (line 88).
//
// `Encode` is what `base64.b64encode` computes. `Decode` is the strict
// inverse: it accepts exactly the canonical encodings and rejects any other
// text, so that the two round-trip lemmas hold in both directions.

module Base64 {
  import opened Wrappers

  type byte = x: int | 0 <= x < 256

  predicate IsBase64Char(c: char) {
    ('A' <= c <= 'Z') || ('a' <= c <= 'z') || ('0' <= c <= '9') || c == '+' || c == '/'
  }

  /** The character for a 6-bit value: A-Z, a-z, 0-9, then `+` and `/`. */
  function SextetChar(v: int): char
    requires 0 <= v < 64
  {
    if v < 26 then (65 + v) as char
    else if v < 52 then (97 + v - 26) as char
    else if v < 62 then (48 + v - 52) as char
    else if v == 62 then '+'
    else '/'
  }

  /** The 6-bit value of an alphabet character; `SextetChar` undoes it. */
  function CharSextet(c: char): (v: int)
    requires IsBase64Char(c)
    ensures 0 <= v < 64 && SextetChar(v) == c
  {
    if 'A' <= c <= 'Z' then c as int - 65
    else if 'a' <= c <= 'z' then c as int - 97 + 26
    else if '0' <= c <= '9' then c as int - 48 + 52
    else if c == '+' then 62
    else 63
  }

  /** Every 6-bit value has an alphabet character (never the padding `=`),
      and `CharSextet` gives the value back. */
  lemma SextetRoundTrip(v: int)
    requires 0 <= v < 64
    ensures IsBase64Char(SextetChar(v)) && SextetChar(v) != '='
    ensures CharSextet(SextetChar(v)) == v
  {
  }

  // ---------------------------------------------------------------------
  // Encoding

  /** Three bytes become four characters, six bits each, high bits first. */
  function EncodeBlock(b0: byte, b1: byte, b2: byte): string {
    [SextetChar(b0 / 4), SextetChar((b0 % 4) * 16 + b1 / 16),
     SextetChar((b1 % 16) * 4 + b2 / 64), SextetChar(b2 % 64)]
  }

  /** A final single byte: two characters, the unused bits zero, then `==`. */
  function EncodeOne(b0: byte): string {
    [SextetChar(b0 / 4), SextetChar((b0 % 4) * 16), '=', '=']
  }

  /** A final pair of bytes: three characters, the unused bits zero, then `=`. */
  function EncodeTwo(b0: byte, b1: byte): string {
    [SextetChar(b0 / 4), SextetChar((b0 % 4) * 16 + b1 / 16), SextetChar((b1 % 16) * 4), '=']
  }

  /** The last group of at most three bytes. */
  function EncodeFinal(b: seq<byte>): string
    requires |b| <= 3
  {
    if |b| == 0 then ""
    else if |b| == 1 then EncodeOne(b[0])
    else if |b| == 2 then EncodeTwo(b[0], b[1])
    else EncodeBlock(b[0], b[1], b[2])
  }

  function Encode(b: seq<byte>): string
    decreases |b|
  {
    if |b| <= 3 then EncodeFinal(b)
    else EncodeBlock(b[0], b[1], b[2]) + Encode(b[3..])
  }

  /** Every three bytes, and a last group of one or two, take four characters. */
  lemma {:induction false} EncodeLength(b: seq<byte>)
    ensures |Encode(b)| == (|b| + 2) / 3 * 4
    decreases |b|
  {
    if |b| <= 3 {
      FinalLength(b);
    } else {
      EncodeLength(b[3..]);
      EncodeUnfold(b);
      QuantaStep(|b|);
    }
  }

  lemma QuantaStep(n: int)
    requires n > 3
    ensures (n + 2) / 3 * 4 == (n - 3 + 2) / 3 * 4 + 4
  {
  }

  lemma FinalLength(b: seq<byte>)
    requires |b| <= 3
    ensures |EncodeFinal(b)| == (|b| + 2) / 3 * 4
  {
  }

  // ---------------------------------------------------------------------
  // Decoding

  /** Four alphabet characters carry three bytes. */
  function DecodeBlock(c0: char, c1: char, c2: char, c3: char): Option<seq<byte>> {
    if IsBase64Char(c0) && IsBase64Char(c1) && IsBase64Char(c2) && IsBase64Char(c3) then
      var v0, v1, v2, v3 := CharSextet(c0), CharSextet(c1), CharSextet(c2), CharSextet(c3);
      Some([v0 * 4 + v1 / 16, (v1 % 16) * 16 + v2 / 4, (v2 % 4) * 64 + v3])
    else None
  }

  /** The last quantum: nothing, or four characters which may end in one or
      two `=`; the bits that padding leaves unused must be zero. */
  function DecodeFinal(s: string): Option<seq<byte>>
    requires |s| <= 4
  {
    if |s| == 0 then Some([])
    else if |s| < 4 then None
    else if s[2] == '=' && s[3] == '=' then
      if IsBase64Char(s[0]) && IsBase64Char(s[1]) && CharSextet(s[1]) % 16 == 0 then
        Some([CharSextet(s[0]) * 4 + CharSextet(s[1]) / 16])
      else None
    else if s[3] == '=' then
      if IsBase64Char(s[0]) && IsBase64Char(s[1]) && IsBase64Char(s[2]) && CharSextet(s[2]) % 4 == 0 then
        var v0, v1, v2 := CharSextet(s[0]), CharSextet(s[1]), CharSextet(s[2]);
        Some([v0 * 4 + v1 / 16, (v1 % 16) * 16 + v2 / 4])
      else None
    else DecodeBlock(s[0], s[1], s[2], s[3])
  }

  function Decode(s: string): Option<seq<byte>>
    decreases |s|
  {
    if |s| <= 4 then DecodeFinal(s)
    else
      match DecodeBlock(s[0], s[1], s[2], s[3])
      case None => None
      case Some(q) =>
        match Decode(s[4..])
        case None => None
        case Some(rest) => Some(q + rest)
  }

  /** One step of `Decode` on a text longer than one quantum. */
  lemma DecodeStep(s: string)
    requires |s| > 4 && Decode(s).Some?
    ensures DecodeBlock(s[0], s[1], s[2], s[3]).Some? && Decode(s[4..]).Some?
    ensures Decode(s).value == DecodeBlock(s[0], s[1], s[2], s[3]).value + Decode(s[4..]).value
  {
  }

  /** Only texts whose length is a multiple of four decode, and only the
      empty text decodes to no bytes. */
  lemma {:induction false} DecodeLength(s: string)
    requires Decode(s).Some?
    ensures |s| % 4 == 0
    ensures |s| > 0 ==> |Decode(s).value| > 0
    decreases |s|
  {
    if |s| <= 4 {
      DecodeFinalLength(s);
    } else {
      DecodeStep(s);
      DecodeLength(s[4..]);
      BlockLength(s[0], s[1], s[2], s[3]);
      QuantumMultiple(|s|);
    }
  }

  lemma QuantumMultiple(n: int)
    requires n >= 4 && (n - 4) % 4 == 0
    ensures n % 4 == 0
  {
  }

  lemma DecodeFinalLength(s: string)
    requires |s| <= 4 && DecodeFinal(s).Some?
    ensures |s| % 4 == 0
    ensures |s| > 0 ==> |DecodeFinal(s).value| > 0
  {
  }

  lemma BlockLength(c0: char, c1: char, c2: char, c3: char)
    requires DecodeBlock(c0, c1, c2, c3).Some?
    ensures |DecodeBlock(c0, c1, c2, c3).value| == 3
  {
  }

  // ---------------------------------------------------------------------
  // Round trips

  lemma BlockRoundTrip(b0: byte, b1: byte, b2: byte)
    ensures var e := EncodeBlock(b0, b1, b2); DecodeBlock(e[0], e[1], e[2], e[3]) == Some([b0, b1, b2])
  {
    var v0, v1, v2, v3 := b0 / 4, (b0 % 4) * 16 + b1 / 16, (b1 % 16) * 4 + b2 / 64, b2 % 64;
    SextetRoundTrip(v0);
    SextetRoundTrip(v1);
    SextetRoundTrip(v2);
    SextetRoundTrip(v3);
    BytesToSextets(b0, b1, b2);
  }

  /** Cutting three bytes into sextets and joining the sextets again is the identity. */
  lemma BytesToSextets(b0: byte, b1: byte, b2: byte)
    ensures var v0, v1, v2, v3 := b0 / 4, (b0 % 4) * 16 + b1 / 16, (b1 % 16) * 4 + b2 / 64, b2 % 64;
      v0 * 4 + v1 / 16 == b0 && (v1 % 16) * 16 + v2 / 4 == b1 && (v2 % 4) * 64 + v3 == b2
  {
  }

  /** Joining four sextets into bytes and cutting the bytes again is the identity. */
  lemma SextetsToBytes(v0: int, v1: int, v2: int, v3: int)
    requires 0 <= v0 < 64 && 0 <= v1 < 64 && 0 <= v2 < 64 && 0 <= v3 < 64
    ensures var b0, b1, b2 := v0 * 4 + v1 / 16, (v1 % 16) * 16 + v2 / 4, (v2 % 4) * 64 + v3;
      b0 / 4 == v0 && (b0 % 4) * 16 + b1 / 16 == v1 && (b1 % 16) * 4 + b2 / 64 == v2 && b2 % 64 == v3
  {
  }

  lemma BlockCanonical(c0: char, c1: char, c2: char, c3: char)
    requires DecodeBlock(c0, c1, c2, c3).Some?
    ensures var q := DecodeBlock(c0, c1, c2, c3).value; EncodeBlock(q[0], q[1], q[2]) == [c0, c1, c2, c3]
  {
    var v0, v1, v2, v3 := CharSextet(c0), CharSextet(c1), CharSextet(c2), CharSextet(c3);
    var b0, b1, b2 := v0 * 4 + v1 / 16, (v1 % 16) * 16 + v2 / 4, (v2 % 4) * 64 + v3;
    assert DecodeBlock(c0, c1, c2, c3).value == [b0, b1, b2];
    SextetsToBytes(v0, v1, v2, v3);
    EncodeSextets(b0, b1, b2, v0, v1, v2, v3);
  }

  /** The characters of a quantum, given its sextets. */
  lemma EncodeSextets(b0: byte, b1: byte, b2: byte, v0: int, v1: int, v2: int, v3: int)
    requires 0 <= v0 < 64 && 0 <= v1 < 64 && 0 <= v2 < 64 && 0 <= v3 < 64
    requires b0 / 4 == v0 && (b0 % 4) * 16 + b1 / 16 == v1 && (b1 % 16) * 4 + b2 / 64 == v2 && b2 % 64 == v3
    ensures EncodeBlock(b0, b1, b2) == [SextetChar(v0), SextetChar(v1), SextetChar(v2), SextetChar(v3)]
  {
  }

  lemma OneToSextets(b0: byte)
    ensures var v0, v1 := b0 / 4, (b0 % 4) * 16; v0 * 4 + v1 / 16 == b0 && v1 % 16 == 0
  {
  }

  lemma TwoToSextets(b0: byte, b1: byte)
    ensures var v0, v1, v2 := b0 / 4, (b0 % 4) * 16 + b1 / 16, (b1 % 16) * 4;
      v0 * 4 + v1 / 16 == b0 && (v1 % 16) * 16 + v2 / 4 == b1 && v2 % 4 == 0
  {
  }

  lemma SextetsToOne(v0: int, v1: int)
    requires 0 <= v0 < 64 && 0 <= v1 < 64 && v1 % 16 == 0
    ensures var b0 := v0 * 4 + v1 / 16; b0 / 4 == v0 && (b0 % 4) * 16 == v1
  {
  }

  lemma SextetsToTwo(v0: int, v1: int, v2: int)
    requires 0 <= v0 < 64 && 0 <= v1 < 64 && 0 <= v2 < 64 && v2 % 4 == 0
    ensures var b0, b1 := v0 * 4 + v1 / 16, (v1 % 16) * 16 + v2 / 4;
      b0 / 4 == v0 && (b0 % 4) * 16 + b1 / 16 == v1 && (b1 % 16) * 4 == v2
  {
  }

  lemma OneRoundTrip(b0: byte)
    ensures DecodeFinal(EncodeOne(b0)) == Some([b0])
  {
    var v0, v1 := b0 / 4, (b0 % 4) * 16;
    SextetRoundTrip(v0);
    SextetRoundTrip(v1);
    OneToSextets(b0);
  }

  lemma TwoRoundTrip(b0: byte, b1: byte)
    ensures DecodeFinal(EncodeTwo(b0, b1)) == Some([b0, b1])
  {
    var v0, v1, v2 := b0 / 4, (b0 % 4) * 16 + b1 / 16, (b1 % 16) * 4;
    SextetRoundTrip(v0);
    SextetRoundTrip(v1);
    SextetRoundTrip(v2);
    TwoToSextets(b0, b1);
  }

  lemma FinalCanonical(s: string)
    requires |s| <= 4 && DecodeFinal(s).Some?
    ensures EncodeFinal(DecodeFinal(s).value) == s
  {
    if |s| == 0 {
    } else if s[2] == '=' && s[3] == '=' {
      OneCanonical(s);
    } else if s[3] == '=' {
      TwoCanonical(s);
    } else {
      BlockCanonical(s[0], s[1], s[2], s[3]);
      assert s == [s[0], s[1], s[2], s[3]];
    }
  }

  lemma OneCanonical(s: string)
    requires |s| == 4 && s[2] == '=' && s[3] == '=' && DecodeFinal(s).Some?
    ensures EncodeFinal(DecodeFinal(s).value) == s
  {
    var v0, v1 := CharSextet(s[0]), CharSextet(s[1]);
    var b0 := v0 * 4 + v1 / 16;
    assert DecodeFinal(s).value == [b0];
    SextetsToOne(v0, v1);
    assert EncodeOne(b0) == [SextetChar(v0), SextetChar(v1), '=', '='];
  }

  lemma TwoCanonical(s: string)
    requires |s| == 4 && s[2] != '=' && s[3] == '=' && DecodeFinal(s).Some?
    ensures EncodeFinal(DecodeFinal(s).value) == s
  {
    var v0, v1, v2 := CharSextet(s[0]), CharSextet(s[1]), CharSextet(s[2]);
    var b0, b1 := v0 * 4 + v1 / 16, (v1 % 16) * 16 + v2 / 4;
    assert DecodeFinal(s).value == [b0, b1];
    SextetsToTwo(v0, v1, v2);
    assert EncodeTwo(b0, b1) == [SextetChar(v0), SextetChar(v1), SextetChar(v2), '='];
  }

  lemma FinalRoundTrip(b: seq<byte>)
    requires |b| <= 3
    ensures |EncodeFinal(b)| <= 4 && DecodeFinal(EncodeFinal(b)) == Some(b)
  {
    if |b| == 1 {
      OneRoundTrip(b[0]);
      assert b == [b[0]];
    } else if |b| == 2 {
      TwoRoundTrip(b[0], b[1]);
      assert b == [b[0], b[1]];
    } else if |b| == 3 {
      BlockRoundTrip(b[0], b[1], b[2]);
      var e := EncodeBlock(b[0], b[1], b[2]);
      SextetRoundTrip((b[1] % 16) * 4 + b[2] / 64);
      SextetRoundTrip(b[2] % 64);
      assert e[2] != '=' && e[3] != '=';
      assert b == [b[0], b[1], b[2]];
    }
  }

  /** Decoding an encoding gives the bytes back. */
  lemma {:induction false} DecodeEncode(b: seq<byte>)
    ensures Decode(Encode(b)) == Some(b)
    decreases |b|
  {
    if |b| <= 3 {
      FinalRoundTrip(b);
    } else {
      DecodeEncode(b[3..]);
      EncodeLength(b[3..]);
      BlockRoundTrip(b[0], b[1], b[2]);
      EncodeUnfold(b);
      DecodeConcat(EncodeBlock(b[0], b[1], b[2]), Encode(b[3..]), [b[0], b[1], b[2]], b[3..]);
      BytesSplit(b);
    }
  }

  lemma EncodeUnfold(b: seq<byte>)
    requires |b| > 3
    ensures Encode(b) == EncodeBlock(b[0], b[1], b[2]) + Encode(b[3..])
  {
  }

  lemma BytesSplit(b: seq<byte>)
    requires |b| >= 3
    ensures b == [b[0], b[1], b[2]] + b[3..]
  {
  }

  /** A full quantum followed by more quanta decodes to its three bytes followed by the rest. */
  lemma DecodeConcat(head: string, tail: string, q: seq<byte>, r: seq<byte>)
    requires |head| == 4 && DecodeBlock(head[0], head[1], head[2], head[3]) == Some(q)
    requires |tail| > 0 && Decode(tail) == Some(r)
    ensures Decode(head + tail) == Some(q + r)
  {
    var s := head + tail;
    assert s[0] == head[0] && s[1] == head[1] && s[2] == head[2] && s[3] == head[3];
    assert s[4..] == tail;
  }

  /** Every text that decodes is the encoding of what it decodes to, so the
      encoding is canonical and `Decode` accepts nothing else. */
  lemma {:induction false} EncodeDecode(s: string)
    requires Decode(s).Some?
    ensures Encode(Decode(s).value) == s
    decreases |s|
  {
    if |s| <= 4 {
      FinalCanonical(s);
    } else {
      DecodeStep(s);
      EncodeDecode(s[4..]);
      EncodeDecodeStep(s);
    }
  }

  lemma EncodeDecodeStep(s: string)
    requires |s| > 4 && Decode(s).Some?
    requires Decode(s[4..]).Some? && Encode(Decode(s[4..]).value) == s[4..]
    ensures Encode(Decode(s).value) == s
  {
    DecodeStep(s);
    var q := DecodeBlock(s[0], s[1], s[2], s[3]).value;
    var rest := Decode(s[4..]).value;
    BlockCanonical(s[0], s[1], s[2], s[3]);
    DecodeLength(s[4..]);
    EncodeRejoin(s, q, rest);
  }

  lemma EncodeRejoin(s: string, q: seq<byte>, rest: seq<byte>)
    requires |s| > 4 && |q| == 3 && |rest| > 0
    requires EncodeBlock(q[0], q[1], q[2]) == [s[0], s[1], s[2], s[3]] && Encode(rest) == s[4..]
    ensures Encode(q + rest) == s
  {
    EncodeCons(q, rest);
    assert s == [s[0], s[1], s[2], s[3]] + s[4..];
  }

  /** Three bytes followed by more bytes encode as one quantum followed by the rest. */
  lemma EncodeCons(q: seq<byte>, rest: seq<byte>)
    requires |q| == 3 && |rest| > 0
    ensures Encode(q + rest) == EncodeBlock(q[0], q[1], q[2]) + Encode(rest)
  {
    var b := q + rest;
    assert b[3..] == rest;
    EncodeUnfold(b);
  }

  /** Different byte strings have different encodings. */
  lemma EncodeInjective(a: seq<byte>, b: seq<byte>)
    requires Encode(a) == Encode(b)
    ensures a == b
  {
    DecodeEncode(a);
    DecodeEncode(b);
  }

  /** An encoding uses only the alphabet, then at most two `=` that run to the end. */
  ghost predicate Canonical(s: string) {
    forall i :: 0 <= i < |s| ==>
      IsBase64Char(s[i]) || (s[i] == '=' && i >= |s| - 2 && PaddedFrom(s, i))
  }

  ghost predicate PaddedFrom(s: string, i: nat) {
    forall k :: i <= k < |s| ==> s[k] == '='
  }

  lemma {:induction false} EncodeAlphabet(b: seq<byte>)
    ensures Canonical(Encode(b))
    decreases |b|
  {
    if |b| <= 3 {
      FinalAlphabet(b);
    } else {
      var s, head, tail := Encode(b), EncodeBlock(b[0], b[1], b[2]), Encode(b[3..]);
      EncodeAlphabet(b[3..]);
      BlockAlphabet(b[0], b[1], b[2]);
      forall i | 0 <= i < |s|
        ensures IsBase64Char(s[i]) || (s[i] == '=' && i >= |s| - 2)
      {
        if i < 4 { assert s[i] == head[i]; } else { assert s[i] == tail[i - 4]; }
      }
    }
  }

  lemma BlockAlphabet(b0: byte, b1: byte, b2: byte)
    ensures var e := EncodeBlock(b0, b1, b2); |e| == 4 && forall i :: 0 <= i < 4 ==> IsBase64Char(e[i])
  {
    SextetRoundTrip(b0 / 4);
    SextetRoundTrip((b0 % 4) * 16 + b1 / 16);
    SextetRoundTrip((b1 % 16) * 4 + b2 / 64);
    SextetRoundTrip(b2 % 64);
  }

  lemma FinalAlphabet(b: seq<byte>)
    requires |b| <= 3
    ensures Canonical(EncodeFinal(b))
  {
    if |b| == 1 {
      SextetRoundTrip(b[0] / 4);
      SextetRoundTrip((b[0] % 4) * 16);
    } else if |b| == 2 {
      SextetRoundTrip(b[0] / 4);
      SextetRoundTrip((b[0] % 4) * 16 + b[1] / 16);
      SextetRoundTrip((b[1] % 16) * 4);
    } else if |b| == 3 {
      BlockAlphabet(b[0], b[1], b[2]);
    }
  }
}
