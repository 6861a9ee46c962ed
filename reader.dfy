/** `read_text_file`: open the file in text mode with each encoding of a fixed
    list in turn and return the first text that decodes; if none does, read
    the raw bytes and decode them as UTF-8 dropping what does not decode. Any
    other error gives no text at all. */
module Reader {
  import opened Common

  /** The encodings tried, named as in the converter. */
  datatype Encoding = Utf8 | Gbk | Gb2312 | Utf16 | Latin1

  /** The order in which the encodings are tried. */
  const Encodings: seq<Encoding> := [Utf8, Gbk, Gb2312, Utf16, Latin1]

  /** What one text-mode read with one encoding ends in: the text, a decode
      (or unknown-encoding) error, which moves on to the next encoding, or any
      other error, which abandons the read. */
  datatype Attempt = Decoded(text: string) | DecodeError | OtherError

  /** The text-mode decoders, left abstract: what reading `bytes` in text
      mode with an encoding yields. */
  datatype Codecs = Codecs(read: (Encoding, seq<byte>) -> Attempt)

  // ---------------------------------------------------------------------------
  // The binary fallback: `bytes.decode('utf-8', errors='ignore')`
  // ---------------------------------------------------------------------------

  /** A UTF-8 continuation byte. */
  predicate IsCont(x: byte) {
    0x80 <= x <= 0xBF
  }

  /** The second byte allowed after a three-byte lead: no overlong forms
      after 0xE0, no surrogates after 0xED. */
  predicate SecondOf3(lead: byte, x: byte) {
    if lead == 0xE0 then 0xA0 <= x <= 0xBF
    else if lead == 0xED then 0x80 <= x <= 0x9F
    else IsCont(x)
  }

  /** The second byte allowed after a four-byte lead: no overlong forms after
      0xF0, nothing above U+10FFFF after 0xF4. */
  predicate SecondOf4(lead: byte, x: byte) {
    if lead == 0xF0 then 0x90 <= x <= 0xBF
    else if lead == 0xF4 then 0x80 <= x <= 0x8F
    else IsCont(x)
  }

  /** Six more low bits appended to `hi`: dividing by 64 gives back both. */
  lemma {:induction false} Shift6(hi: int, lo: int)
    requires 0 <= hi && 0 <= lo < 64
    ensures (hi * 64 + lo) / 64 == hi && (hi * 64 + lo) % 64 == lo
  {
  }

  /** The well-formed UTF-8 sequence at the start of `b`, if there is one:
      the character it encodes and its length in bytes. The bytes taken are
      exactly the encoding of that character, so nothing that is not the
      encoding of a character is decoded. */
  function DecodeOne(b: seq<byte>): (r: Option<(char, nat)>)
    requires b != []
    ensures r.Some? ==> 1 <= r.value.1 <= |b| && EncodeChar(r.value.0) == b[..r.value.1]
  {
    var b0 := b[0] as int;
    if b0 < 0x80 then Some((b0 as char, 1))
    else if 0xC2 <= b0 <= 0xDF && |b| >= 2 && IsCont(b[1]) then
      Decoded2(b);
      Some((((b0 - 0xC0) * 64 + (b[1] as int - 0x80)) as char, 2))
    else if 0xE0 <= b0 <= 0xEF && |b| >= 3 && SecondOf3(b[0], b[1]) && IsCont(b[2]) then
      Decoded3(b);
      Some(((((b0 - 0xE0) * 64 + (b[1] as int - 0x80)) * 64 + (b[2] as int - 0x80)) as char, 3))
    else if 0xF0 <= b0 <= 0xF4 && |b| >= 4 && SecondOf4(b[0], b[1]) && IsCont(b[2]) && IsCont(b[3]) then
      Decoded4(b);
      Some((((((b0 - 0xF0) * 64 + (b[1] as int - 0x80)) * 64 + (b[2] as int - 0x80)) * 64
             + (b[3] as int - 0x80)) as char, 4))
    else None
  }

  /** A two-byte sequence denotes a code point from U+0080 to U+07FF whose
      encoding is those two bytes. */
  lemma {:induction false} Decoded2(b: seq<byte>)
    requires |b| >= 2 && 0xC2 <= b[0] <= 0xDF && IsCont(b[1])
    ensures var cp := (b[0] as int - 0xC0) * 64 + (b[1] as int - 0x80);
      0x80 <= cp < 0x800 && EncodeChar(cp as char) == b[..2]
  {
    Shift6(b[0] as int - 0xC0, b[1] as int - 0x80);
  }

  /** A three-byte sequence denotes a code point from U+0800 to U+FFFF, not a
      surrogate, whose encoding is those three bytes. */
  lemma {:induction false} Decoded3(b: seq<byte>)
    requires |b| >= 3 && 0xE0 <= b[0] <= 0xEF && SecondOf3(b[0], b[1]) && IsCont(b[2])
    ensures var cp := ((b[0] as int - 0xE0) * 64 + (b[1] as int - 0x80)) * 64 + (b[2] as int - 0x80);
      0x800 <= cp < 0x10000 && !(0xD800 <= cp < 0xE000) && EncodeChar(cp as char) == b[..3]
  {
    var q := (b[0] as int - 0xE0) * 64 + (b[1] as int - 0x80);
    Shift6(b[0] as int - 0xE0, b[1] as int - 0x80);
    Shift6(q, b[2] as int - 0x80);
  }

  /** A four-byte sequence denotes a code point from U+10000 to U+10FFFF
      whose encoding is those four bytes. */
  lemma {:induction false} Decoded4(b: seq<byte>)
    requires |b| >= 4 && 0xF0 <= b[0] <= 0xF4 && SecondOf4(b[0], b[1]) && IsCont(b[2]) && IsCont(b[3])
    ensures var cp := (((b[0] as int - 0xF0) * 64 + (b[1] as int - 0x80)) * 64 + (b[2] as int - 0x80)) * 64
                      + (b[3] as int - 0x80);
      0x10000 <= cp <= 0x10FFFF && EncodeChar(cp as char) == b[..4]
  {
    var q := (b[0] as int - 0xF0) * 64 + (b[1] as int - 0x80);
    var q' := q * 64 + (b[2] as int - 0x80);
    Shift6(b[0] as int - 0xF0, b[1] as int - 0x80);
    Shift6(q, b[2] as int - 0x80);
    Shift6(q', b[3] as int - 0x80);
  }

  /** UTF-8 decoding that drops what does not decode: each well-formed
      sequence gives its character, and a byte that starts none is skipped.
      Skipping one byte at a time drops the same bytes as dropping each
      maximal ill-formed subpart, since the continuation bytes that follow a
      bad lead never start a sequence themselves. */
  function LossyUtf8(b: seq<byte>): (s: string)
    ensures |s| <= |b|
    decreases |b|
  {
    if b == [] then []
    else
      match DecodeOne(b)
      case Some((c, n)) => [c] + LossyUtf8(b[n..])
      case None => LossyUtf8(b[1..])
  }

  /** The attempt with `encs[i]` ends in `a`, and every attempt before it
      ended in a decode error. */
  predicate StopsAt(codecs: Codecs, encs: seq<Encoding>, bytes: seq<byte>, i: int, a: Attempt) {
    && 0 <= i < |encs|
    && codecs.read(encs[i], bytes) == a
    && forall j :: 0 <= j < i ==> codecs.read(encs[j], bytes) == DecodeError
  }

  /** The outcome of trying `encs` in order on `bytes`: the first attempt that
      is not a decode error, or `DecodeError` when every attempt is one. */
  function FirstAttempt(codecs: Codecs, encs: seq<Encoding>, bytes: seq<byte>): (a: Attempt)
    ensures a == DecodeError <==> forall i :: 0 <= i < |encs| ==> codecs.read(encs[i], bytes) == DecodeError
    ensures a != DecodeError ==> exists i :: StopsAt(codecs, encs, bytes, i, a)
  {
    if encs == [] then DecodeError
    else
      var a := codecs.read(encs[0], bytes);
      if a != DecodeError then
        assert StopsAt(codecs, encs, bytes, 0, a);
        a
      else
        var rest := FirstAttempt(codecs, encs[1..], bytes);
        assert forall i :: 1 <= i < |encs| ==> encs[i] == encs[1..][i - 1];
        if rest != DecodeError then
          var i :| StopsAt(codecs, encs[1..], bytes, i, rest);
          assert StopsAt(codecs, encs, bytes, i + 1, rest);
          rest
        else rest
  }

  /** Only one attempt can be the first that is not a decode error. */
  lemma {:induction false} StopsAtUnique(codecs: Codecs, encs: seq<Encoding>, bytes: seq<byte>, i: int, a: Attempt, k: int, b: Attempt)
    requires a != DecodeError && b != DecodeError
    requires StopsAt(codecs, encs, bytes, i, a) && StopsAt(codecs, encs, bytes, k, b)
    ensures i == k && a == b
  {
  }

  /** The value `read_text_file` returns for `path`: no text exactly when the
      file cannot be opened or some encoding's attempt ends in an error other
      than a decode error, all earlier ones having failed to decode. */
  function ReadText(fs: FileSystem, path: string, codecs: Codecs): (r: Option<string>)
    ensures r == None <==>
      || path !in fs
      || fs[path].Unopenable?
      || exists i :: StopsAt(codecs, Encodings, fs[path].bytes, i, OtherError)
  {
    if path !in fs || fs[path].Unopenable? then None
    else
      var bytes := fs[path].bytes;
      var a := FirstAttempt(codecs, Encodings, bytes);
      OtherErrorAt(codecs, bytes);
      match a
      case Decoded(text) => Some(text)
      case OtherError => None
      case DecodeError => Some(LossyUtf8(bytes))
  }

  /** Trying the encodings ends in another error exactly when some attempt
      ends in one after all earlier attempts failed to decode. */
  lemma {:induction false} OtherErrorAt(codecs: Codecs, bytes: seq<byte>)
    ensures FirstAttempt(codecs, Encodings, bytes) == OtherError <==>
      exists i :: StopsAt(codecs, Encodings, bytes, i, OtherError)
  {
    var a := FirstAttempt(codecs, Encodings, bytes);
    if i :| StopsAt(codecs, Encodings, bytes, i, OtherError) {
      var k :| StopsAt(codecs, Encodings, bytes, k, a);
      StopsAtUnique(codecs, Encodings, bytes, i, OtherError, k, a);
    }
  }

  /** The reader as written: a loop over the encodings with an early return. */
  method ReadTextFile(fs: FileSystem, path: string, codecs: Codecs) returns (text: Option<string>)
    ensures text == ReadText(fs, path, codecs)
  {
    if path !in fs || fs[path].Unopenable? {
      return None;
    }
    var bytes := fs[path].bytes;
    for i := 0 to |Encodings|
      invariant FirstAttempt(codecs, Encodings, bytes) == FirstAttempt(codecs, Encodings[i..], bytes)
    {
      var attempt := codecs.read(Encodings[i], bytes);
      match attempt {
        case Decoded(t) =>
          return Some(t);
        case OtherError =>
          return None;
        case DecodeError =>
          assert Encodings[i..][1..] == Encodings[i + 1..];
      }
    }
    return Some(LossyUtf8(bytes));
  }

  /** The UTF-8 encoding of one character. */
  function EncodeChar(c: char): (e: seq<byte>)
    ensures 1 <= |e| <= 4
  {
    var cp := c as int;
    if cp < 0x80 then [cp as byte]
    else if cp < 0x800 then [(0xC0 + cp / 64) as byte, (0x80 + cp % 64) as byte]
    else if cp < 0x10000 then
      [(0xE0 + cp / 64 / 64) as byte, (0x80 + cp / 64 % 64) as byte, (0x80 + cp % 64) as byte]
    else
      [(0xF0 + cp / 64 / 64 / 64) as byte, (0x80 + cp / 64 / 64 % 64) as byte,
       (0x80 + cp / 64 % 64) as byte, (0x80 + cp % 64) as byte]
  }

  /** The UTF-8 encoding of a string. */
  function EncodeUtf8(s: string): seq<byte> {
    if s == [] then [] else EncodeChar(s[0]) + EncodeUtf8(s[1..])
  }

  // ---------------------------------------------------------------------------
  // Properties
  // ---------------------------------------------------------------------------

  /** The text of the first encoding that decodes is returned, provided every
      earlier encoding failed to decode. */
  lemma {:induction false} FirstDecodingWins(fs: FileSystem, path: string, codecs: Codecs, i: nat, text: string)
    requires path in fs && fs[path].Regular?
    requires i < |Encodings|
    requires forall j :: 0 <= j < i ==> codecs.read(Encodings[j], fs[path].bytes) == DecodeError
    requires codecs.read(Encodings[i], fs[path].bytes) == Decoded(text)
    ensures ReadText(fs, path, codecs) == Some(text)
  {
    var bytes := fs[path].bytes;
    assert StopsAt(codecs, Encodings, bytes, i, Decoded(text));
    var a := FirstAttempt(codecs, Encodings, bytes);
    var k :| StopsAt(codecs, Encodings, bytes, k, a);
    StopsAtUnique(codecs, Encodings, bytes, i, Decoded(text), k, a);
  }

  /** When no encoding decodes, the lossy decode of the raw bytes is returned. */
  lemma {:induction false} LossyFallback(fs: FileSystem, path: string, codecs: Codecs)
    requires path in fs && fs[path].Regular?
    requires forall j :: 0 <= j < |Encodings| ==> codecs.read(Encodings[j], fs[path].bytes) == DecodeError
    ensures ReadText(fs, path, codecs) == Some(LossyUtf8(fs[path].bytes))
  {
  }

  /** ASCII bytes come out as the same characters, one for one. */
  lemma {:induction false} LossyAscii(b: seq<byte>)
    requires forall i :: 0 <= i < |b| ==> b[i] < 0x80
    ensures |LossyUtf8(b)| == |b|
    ensures forall i :: 0 <= i < |b| ==> LossyUtf8(b)[i] as int == b[i] as int
    decreases |b|
  {
    if b != [] {
      var rest := b[1..];
      assert forall i :: 0 <= i < |rest| ==> rest[i] == b[i + 1];
      LossyAscii(rest);
      var r := LossyUtf8(b);
      assert r == [b[0] as int as char] + LossyUtf8(rest);
      forall i | 1 <= i < |b|
        ensures r[i] as int == b[i] as int
      {
        assert r[i] == LossyUtf8(rest)[i - 1];
      }
    }
  }

  /** A byte that starts no well-formed sequence (a continuation byte, 0xC0,
      0xC1 or a byte above 0xF4) is dropped, with nothing put in its place. */
  lemma {:induction false} LossyDropsInvalid(x: byte, rest: seq<byte>)
    requires IsCont(x) || x == 0xC0 || x == 0xC1 || x >= 0xF5
    ensures LossyUtf8([x] + rest) == LossyUtf8(rest)
  {
    assert ([x] + rest)[1..] == rest;
  }

  /** No well-formed sequence starts `b` exactly when no character's UTF-8
      encoding is a prefix of it. */
  lemma {:induction false} UndecodableIff(b: seq<byte>)
    requires b != []
    ensures DecodeOne(b).None? <==> forall c: char :: !(EncodeChar(c) <= b)
  {
    forall c: char | EncodeChar(c) <= b
      ensures DecodeOne(b).Some?
    {
      var e := EncodeChar(c);
      assert b == e + b[|e|..];
      DecodeEncodedChar(c, b[|e|..]);
    }
  }

  /** A byte at which no character's encoding begins is dropped, with nothing
      put in its place: a stray continuation byte, a byte that never occurs
      in UTF-8, or a lead byte whose continuation is missing or out of
      range. */
  lemma {:induction false} LossySkipsUndecodable(x: byte, rest: seq<byte>)
    requires forall c: char :: !(EncodeChar(c) <= [x] + rest)
    ensures LossyUtf8([x] + rest) == LossyUtf8(rest)
  {
    UndecodableIff([x] + rest);
    assert ([x] + rest)[1..] == rest;
  }

  /** A three-byte lead followed by an ASCII letter: the lead is dropped and
      the letter kept. */
  lemma LossyTruncatedLead()
    ensures LossyUtf8([0xE0, 0x41]) == "A"
  {
  }

  /** The decoder reads the encoding of a character back as that character. */
  lemma {:induction false} DecodeEncodedChar(c: char, rest: seq<byte>)
    ensures DecodeOne(EncodeChar(c) + rest) == Some((c, |EncodeChar(c)|))
  {
    var cp := c as int;
    var b := EncodeChar(c) + rest;
    if cp < 0x80 {
    } else if cp < 0x800 {
      assert b[0] as int == 0xC0 + cp / 64 && b[1] as int == 0x80 + cp % 64;
      assert (b[0] as int - 0xC0) * 64 + (b[1] as int - 0x80) == cp;
    } else if cp < 0x10000 {
      DecodeEncoded3(c, rest);
    } else {
      DecodeEncoded4(c, rest);
    }
  }

  /** Three-byte sequences: the lead carries the top four bits, and the
      second byte stays within the range its lead allows. */
  lemma {:induction false} DecodeEncoded3(c: char, rest: seq<byte>)
    requires 0x800 <= c as int < 0x10000
    ensures DecodeOne(EncodeChar(c) + rest) == Some((c, 3))
  {
    var cp := c as int;
    var b := EncodeChar(c) + rest;
    var q := cp / 64;
    var hi, mid, lo := q / 64, q % 64, cp % 64;
    assert cp == q * 64 + lo && q == hi * 64 + mid;
    assert b[0] as int == 0xE0 + hi && b[1] as int == 0x80 + mid && b[2] as int == 0x80 + lo;
    assert hi == 0 ==> mid >= 32;
    assert hi == 13 ==> mid < 32;
  }

  /** Four-byte sequences: the lead carries the top three bits, and the
      second byte stays within the range its lead allows. */
  lemma {:induction false} DecodeEncoded4(c: char, rest: seq<byte>)
    requires 0x10000 <= c as int
    ensures DecodeOne(EncodeChar(c) + rest) == Some((c, 4))
  {
    var cp := c as int;
    var b := EncodeChar(c) + rest;
    var q := cp / 64;
    var r := q / 64;
    var top, hi, mid, lo := r / 64, r % 64, q % 64, cp % 64;
    assert cp == q * 64 + lo && q == r * 64 + mid && r == top * 64 + hi;
    assert b[0] as int == 0xF0 + top && b[1] as int == 0x80 + hi;
    assert b[2] as int == 0x80 + mid && b[3] as int == 0x80 + lo;
    assert top == 0 ==> hi >= 16;
    assert top == 4 ==> hi < 16;
  }

  /** Round trip: valid UTF-8 is decoded to exactly the text it encodes. */
  lemma {:induction false} LossyDecodesValid(s: string)
    ensures LossyUtf8(EncodeUtf8(s)) == s
    decreases |s|
  {
    if s != [] {
      var e := EncodeChar(s[0]);
      var rest := EncodeUtf8(s[1..]);
      DecodeEncodedChar(s[0], rest);
      assert (e + rest)[|e|..] == rest;
      LossyDecodesValid(s[1..]);
      assert s == [s[0]] + s[1..];
    }
  }

  /** Latin-1 maps every byte to a character, so when its text-mode read never
      ends in a decode error, the binary fallback is never reached. */
  lemma {:induction false} FallbackNeedsLatin1Failure(codecs: Codecs, bytes: seq<byte>)
    requires codecs.read(Latin1, bytes) != DecodeError
    ensures FirstAttempt(codecs, Encodings, bytes) != DecodeError
  {
    assert Encodings[4] == Latin1;
  }
}
