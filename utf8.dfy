/**
 * UTF-8 as Rust's standard library treats it: `str::as_bytes` (Encode), `str::from_utf8`
 * (Decode: the whole buffer or an error) and `String::from_utf8_lossy` (DecodeLossy:
 * every ill-formed maximal subpart becomes one U+FFFD).
 */
module Utf8 {
  import opened Wrappers

  type byte = b: int | 0 <= b < 0x100

  predicate IsContinuation(b: byte)
  {
    0x80 <= b < 0xC0
  }

  /** The UTF-8 encoding of one scalar value, by successive six-bit groups. */
  function EncodeChar(c: char): (r: seq<byte>)
    ensures 1 <= |r| <= 4
    ensures (r[0] < 0x80) == (|r| == 1)
    ensures forall i :: 1 <= i < |r| ==> IsContinuation(r[i])
  {
    var cp := c as int;
    var c1 := cp / 0x40;
    var c2 := c1 / 0x40;
    var c3 := c2 / 0x40;
    if cp < 0x80 then [cp]
    else if cp < 0x800 then [0xC0 + c1, 0x80 + cp % 0x40]
    else if cp < 0x10000 then [0xE0 + c2, 0x80 + c1 % 0x40, 0x80 + cp % 0x40]
    else [0xF0 + c3, 0x80 + c2 % 0x40, 0x80 + c1 % 0x40, 0x80 + cp % 0x40]
  }

  /** `s.as_bytes()`. */
  function Encode(s: string): (r: seq<byte>)
    ensures |s| <= |r| <= 4 * |s|
  {
    if |s| == 0 then [] else EncodeChar(s[0]) + Encode(s[1..])
  }

  lemma {:induction false} EncodeAppend(s: string, t: string)
    ensures Encode(s + t) == Encode(s) + Encode(t)
    decreases |s|
  {
    if |s| > 0 {
      assert (s + t)[1..] == s[1..] + t;
      EncodeAppend(s[1..], t);
    } else {
      assert s + t == t;
    }
  }

  /**
   * The result of decoding at the start of a buffer: a scalar value and the number of bytes
   * it used, or an ill-formed maximal subpart of the given length.
   */
  datatype Step = Scalar(c: char, len: nat) | Invalid(len: nat)

  /** The length of the sequence a lead byte announces; 0 for a byte that cannot start one. */
  function SequenceLength(b0: byte): nat
  {
    if b0 < 0x80 then 1
    else if 0xC2 <= b0 <= 0xDF then 2
    else if 0xE0 <= b0 <= 0xEF then 3
    else if 0xF0 <= b0 <= 0xF4 then 4
    else 0
  }

  /** The bytes allowed in second position after lead byte `b0` (no overlong forms, no surrogates, nothing above U+10FFFF). */
  predicate SecondByteOk(b0: byte, b1: byte)
  {
    if b0 == 0xE0 then 0xA0 <= b1 <= 0xBF
    else if b0 == 0xED then 0x80 <= b1 <= 0x9F
    else if b0 == 0xF0 then 0x90 <= b1 <= 0xBF
    else if b0 == 0xF4 then 0x80 <= b1 <= 0x8F
    else IsContinuation(b1)
  }

  /** Decodes the first scalar value of a non-empty buffer. */
  function DecodeStep(b: seq<byte>): (r: Step)
    requires |b| > 0
    ensures 1 <= r.len <= |b| && r.len <= 4
  {
    var n := SequenceLength(b[0]);
    var b0: int, b1: int := b[0], if |b| > 1 then b[1] else 0;
    if n == 1 then Scalar(b0 as char, 1)
    else if n == 0 || |b| < 2 || !SecondByteOk(b[0], b[1]) then Invalid(1)
    else if n == 2 then
      Scalar(((b0 - 0xC0) * 0x40 + (b1 - 0x80)) as char, 2)
    else if |b| < 3 || !IsContinuation(b[2]) then Invalid(2)
    else
      var b2: int := b[2];
      if n == 3 then
        Scalar((((b0 - 0xE0) * 0x40 + (b1 - 0x80)) * 0x40 + (b2 - 0x80)) as char, 3)
      else if |b| < 4 || !IsContinuation(b[3]) then Invalid(3)
      else
        var b3: int := b[3];
        Scalar(((((b0 - 0xF0) * 0x40 + (b1 - 0x80)) * 0x40 + (b2 - 0x80)) * 0x40 + (b3 - 0x80)) as char, 4)
  }

  /** `str::from_utf8`: the text a buffer holds, or None if any part of it is ill-formed. */
  function Decode(b: seq<byte>): (r: Option<string>)
    ensures r.Some? ==> |r.value| <= |b|
    decreases |b|
  {
    if |b| == 0 then Some([])
    else
      match DecodeStep(b)
      case Invalid(_) => None
      case Scalar(c, n) =>
        match Decode(b[n..])
        case None => None
        case Some(s) => Some([c] + s)
  }

  predicate IsValid(b: seq<byte>)
  {
    Decode(b).Some?
  }

  const ReplacementCharacter: char := '\U{FFFD}'

  /** `String::from_utf8_lossy`: ill-formed subparts are each replaced by U+FFFD. */
  function DecodeLossy(b: seq<byte>): (r: string)
    ensures |r| <= |b| <= 4 * |r|
    decreases |b|
  {
    if |b| == 0 then []
    else
      match DecodeStep(b)
      case Invalid(n) => [ReplacementCharacter] + DecodeLossy(b[n..])
      case Scalar(c, n) => [c] + DecodeLossy(b[n..])
  }

  /** Decoding the encoding of a character gives it back, whatever follows it. */
  lemma DecodeStepEncodeChar(c: char, rest: seq<byte>)
    ensures DecodeStep(EncodeChar(c) + rest) == Scalar(c, |EncodeChar(c)|)
  {
    var cp := c as int;
    if cp < 0x80 {
    } else if cp < 0x800 {
      DecodeStepTwo(c, rest);
    } else if cp < 0x10000 {
      DecodeStepThree(c, rest);
    } else {
      DecodeStepFour(c, rest);
    }
  }

  lemma DecodeStepTwo(c: char, rest: seq<byte>)
    requires 0x80 <= c as int < 0x800
    ensures DecodeStep(EncodeChar(c) + rest) == Scalar(c, 2)
  {
    var b := EncodeChar(c) + rest;
    var cp := c as int;
    var c1 := cp / 0x40;
    assert cp == c1 * 0x40 + cp % 0x40;
    assert b[0] == 0xC0 + c1 && b[1] == 0x80 + cp % 0x40;
  }

  lemma DecodeStepThree(c: char, rest: seq<byte>)
    requires 0x800 <= c as int < 0x10000
    ensures DecodeStep(EncodeChar(c) + rest) == Scalar(c, 3)
  {
    var b := EncodeChar(c) + rest;
    var cp := c as int;
    var c1 := cp / 0x40;
    var c2 := c1 / 0x40;
    assert cp == c1 * 0x40 + cp % 0x40;
    assert c1 == c2 * 0x40 + c1 % 0x40;
    assert b[0] == 0xE0 + c2 && b[1] == 0x80 + c1 % 0x40 && b[2] == 0x80 + cp % 0x40;
  }

  lemma DecodeStepFour(c: char, rest: seq<byte>)
    requires 0x10000 <= c as int
    ensures DecodeStep(EncodeChar(c) + rest) == Scalar(c, 4)
  {
    var b := EncodeChar(c) + rest;
    var cp := c as int;
    var c1 := cp / 0x40;
    var c2 := c1 / 0x40;
    var c3 := c2 / 0x40;
    assert cp == c1 * 0x40 + cp % 0x40;
    assert c1 == c2 * 0x40 + c1 % 0x40;
    assert c2 == c3 * 0x40 + c2 % 0x40;
    assert b[0] == 0xF0 + c3 && b[1] == 0x80 + c2 % 0x40;
    assert b[2] == 0x80 + c1 % 0x40 && b[3] == 0x80 + cp % 0x40;
  }

  /** Every text survives the round trip through its bytes, strictly and lossily. */
  lemma {:induction false} DecodeEncode(s: string)
    ensures Decode(Encode(s)) == Some(s)
    ensures DecodeLossy(Encode(s)) == s
    decreases |s|
  {
    if |s| > 0 {
      var e := EncodeChar(s[0]);
      DecodeStepEncodeChar(s[0], Encode(s[1..]));
      assert (e + Encode(s[1..]))[|e|..] == Encode(s[1..]);
      DecodeEncode(s[1..]);
      assert [s[0]] + s[1..] == s;
    }
  }

  /** A well-formed two-byte sequence is the encoding of the value it denotes. */
  lemma EncodeTwo(b0: byte, b1: byte)
    requires 0xC2 <= b0 <= 0xDF && IsContinuation(b1)
    ensures EncodeChar(((b0 - 0xC0) * 0x40 + (b1 - 0x80)) as char) == [b0, b1]
  {
    var cp := (b0 - 0xC0) * 0x40 + (b1 - 0x80);
    assert cp / 0x40 == b0 - 0xC0 && cp % 0x40 == b1 - 0x80;
  }

  /** A well-formed three-byte sequence is the encoding of the value it denotes. */
  lemma EncodeThree(b0: byte, b1: byte, b2: byte)
    requires 0xE0 <= b0 <= 0xEF && SecondByteOk(b0, b1) && IsContinuation(b2)
    ensures EncodeChar((((b0 - 0xE0) * 0x40 + (b1 - 0x80)) * 0x40 + (b2 - 0x80)) as char) == [b0, b1, b2]
  {
    var hi := (b0 - 0xE0) * 0x40 + (b1 - 0x80);
    var cp := hi * 0x40 + (b2 - 0x80);
    assert cp / 0x40 == hi && cp % 0x40 == b2 - 0x80;
    assert hi / 0x40 == b0 - 0xE0 && hi % 0x40 == b1 - 0x80;
  }

  /** A well-formed four-byte sequence is the encoding of the value it denotes. */
  lemma EncodeFour(b0: byte, b1: byte, b2: byte, b3: byte)
    requires 0xF0 <= b0 <= 0xF4 && SecondByteOk(b0, b1) && IsContinuation(b2) && IsContinuation(b3)
    ensures EncodeChar(((((b0 - 0xF0) * 0x40 + (b1 - 0x80)) * 0x40 + (b2 - 0x80)) * 0x40 + (b3 - 0x80)) as char)
      == [b0, b1, b2, b3]
  {
    var hi := (b0 - 0xF0) * 0x40 + (b1 - 0x80);
    var mid := hi * 0x40 + (b2 - 0x80);
    var cp := mid * 0x40 + (b3 - 0x80);
    assert cp / 0x40 == mid && cp % 0x40 == b3 - 0x80;
    assert mid / 0x40 == hi && mid % 0x40 == b2 - 0x80;
    assert hi / 0x40 == b0 - 0xF0 && hi % 0x40 == b1 - 0x80;
  }

  /** A decoded scalar value is encoded by exactly the bytes it was decoded from. */
  lemma EncodeCharDecodeStep(b: seq<byte>)
    requires |b| > 0 && DecodeStep(b).Scalar?
    ensures EncodeChar(DecodeStep(b).c) == b[..DecodeStep(b).len]
  {
    var step := DecodeStep(b);
    if step.len == 2 {
      EncodeTwo(b[0], b[1]);
    } else if step.len == 3 {
      EncodeThree(b[0], b[1], b[2]);
    } else if step.len == 4 {
      EncodeFour(b[0], b[1], b[2], b[3]);
    }
  }

  /** A well-formed buffer is the encoding of the text it decodes to: `Encode` and `Decode` are inverse. */
  lemma {:induction false} EncodeDecode(b: seq<byte>)
    requires IsValid(b)
    ensures Encode(Decode(b).value) == b
    decreases |b|
  {
    if |b| > 0 {
      var step := DecodeStep(b);
      var rest := Decode(b[step.len..]).value;
      EncodeCharDecodeStep(b);
      EncodeDecode(b[step.len..]);
      var s := Decode(b).value;
      assert s == [step.c] + rest;
      assert s[0] == step.c && s[1..] == rest;
      assert Encode(s) == EncodeChar(step.c) + Encode(rest);
      assert b[..step.len] + b[step.len..] == b;
    }
  }

  /** On a well-formed buffer the lossy decoder agrees with the strict one. */
  lemma {:induction false} LossyAgreesOnValid(b: seq<byte>)
    requires IsValid(b)
    ensures DecodeLossy(b) == Decode(b).value
    decreases |b|
  {
    if |b| > 0 {
      var step := DecodeStep(b);
      LossyAgreesOnValid(b[step.len..]);
    }
  }

  /** Characters below U+0080 are encoded as themselves. */
  lemma {:induction false} EncodeAscii(s: string)
    requires forall i :: 0 <= i < |s| ==> s[i] < '\U{0080}'
    ensures |Encode(s)| == |s|
    ensures forall i :: 0 <= i < |s| ==> Encode(s)[i] == s[i] as int
    decreases |s|
  {
    if |s| > 0 {
      EncodeAscii(s[1..]);
    }
  }

  /** No byte of an encoded text is an ASCII byte unless it encodes that very character. */
  lemma {:induction false} EncodeAsciiByteAbsent(s: string, a: char)
    requires a < '\U{0080}'
    requires a !in s
    ensures a as int !in Encode(s)
    decreases |s|
  {
    if |s| > 0 {
      EncodeAsciiByteAbsent(s[1..], a);
      assert s[0] != a;
      var e := EncodeChar(s[0]);
      assert a as int !in e;
    }
  }
}
