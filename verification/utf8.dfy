/** UTF-8 as RFC 3629 defines it: `TextEncoder.encode` on the way in, and
    on the way out the `TextDecoder` that `pako.ungzip(…, { to: 'string' })`
    applies, which also drops a leading byte order mark.

    Dafny's `char` is a Unicode scalar value, so every string here is
    well-formed Unicode. */
module Utf8 {
  import opened Bytes

  /** The replacement character a decoder emits for bytes it cannot read. */
  const Replacement: char := 0xFFFD as char

  predicate IsContinuation(b: byte) {
    0x80 <= b < 0xC0
  }

  /** The one to four bytes section 3 of RFC 3629 assigns to a scalar value. */
  function EncodeChar(c: char): (r: seq<byte>)
    ensures 1 <= |r| <= 4
    ensures |r| == 1 <==> (c as int) < 0x80
    ensures forall i :: 1 <= i < |r| ==> IsContinuation(r[i])
  {
    var n := c as int;
    if n < 0x80 then [n]
    else if n < 0x800 then [0xC0 + n / 64, 0x80 + n % 64]
    else if n < 0x10000 then [0xE0 + n / 4096, 0x80 + (n / 64) % 64, 0x80 + n % 64]
    else [0xF0 + n / 262144, 0x80 + (n / 4096) % 64, 0x80 + (n / 64) % 64, 0x80 + n % 64]
  }

  /** `TextEncoder.encode(s)`. */
  function Encode(s: string): seq<byte> {
    if |s| == 0 then [] else EncodeChar(s[0]) + Encode(s[1..])
  }

  /** Is `n` a Unicode scalar value: a code point that is not a surrogate? */
  predicate IsScalar(n: int) {
    0 <= n < 0xD800 || 0xE000 <= n <= 0x10FFFF
  }

  /** The character at the head of `b` and the number of bytes it takes. A
      lead byte that does not start a well-formed sequence (a stray
      continuation byte, an overlong form, a surrogate, a value above
      U+10FFFF, a truncated sequence) reads as one replacement character. */
  function DecodeOne(b: seq<byte>): (r: (char, nat))
    requires |b| >= 1
    ensures 1 <= r.1 <= |b| && r.1 <= 4
  {
    var b0: int := b[0];
    if b0 < 0x80 then (b0 as char, 1)
    else if 0xC2 <= b0 < 0xE0 && |b| >= 2 && IsContinuation(b[1]) then
      var n := (b0 - 0xC0) * 64 + (b[1] as int - 0x80);
      (n as char, 2)
    else if 0xE0 <= b0 < 0xF0 && |b| >= 3 && IsContinuation(b[1]) && IsContinuation(b[2]) then
      var n := (b0 - 0xE0) * 4096 + (b[1] as int - 0x80) * 64 + (b[2] as int - 0x80);
      if 0x800 <= n && IsScalar(n) then (n as char, 3) else (Replacement, 1)
    else if 0xF0 <= b0 < 0xF5 && |b| >= 4 && IsContinuation(b[1]) && IsContinuation(b[2]) && IsContinuation(b[3]) then
      var n := (b0 - 0xF0) * 262144 + (b[1] as int - 0x80) * 4096 + (b[2] as int - 0x80) * 64 + (b[3] as int - 0x80);
      if 0x10000 <= n <= 0x10FFFF then (n as char, 4) else (Replacement, 1)
    else (Replacement, 1)
  }

  /** Decodes a byte sequence, replacing what is malformed. */
  function Decode(b: seq<byte>): string
    decreases |b|
  {
    if |b| == 0 then []
    else
      var (c, k) := DecodeOne(b);
      [c] + Decode(b[k..])
  }

  lemma FourDigits(n: int)
    requires 0 <= n
    ensures n == (n / 262144) * 262144 + ((n / 4096) % 64) * 4096 + ((n / 64) % 64) * 64 + n % 64
  {
    var a := n / 64;
    var b := a / 64;
    var c := b / 64;
    assert n == a * 64 + n % 64;
    assert a == b * 64 + a % 64;
    assert b == c * 64 + b % 64;
    assert n / 4096 == b;
    assert n / 262144 == c;
  }

  lemma ThreeDigits(n: int)
    requires 0 <= n
    ensures n == (n / 4096) * 4096 + ((n / 64) % 64) * 64 + n % 64
  {
    var a := n / 64;
    var b := a / 64;
    assert n == a * 64 + n % 64;
    assert a == b * 64 + a % 64;
    assert n / 4096 == b;
  }

  /** Reading the encoding of `c` gives back `c` and consumes all of it,
      whatever follows. */
  lemma DecodeOneOfEncodeChar(c: char, rest: seq<byte>)
    ensures DecodeOne(EncodeChar(c) + rest) == (c, |EncodeChar(c)|)
  {
    var n := c as int;
    var b := EncodeChar(c) + rest;
    if n < 0x80 {
    } else if n < 0x800 {
      assert b[0] == 0xC0 + n / 64 && b[1] == 0x80 + n % 64;
    } else if n < 0x10000 {
      ThreeDigits(n);
      assert b[0] == 0xE0 + n / 4096 && b[1] == 0x80 + (n / 64) % 64 && b[2] == 0x80 + n % 64;
    } else {
      FourDigits(n);
      assert b[0] == 0xF0 + n / 262144 && b[1] == 0x80 + (n / 4096) % 64;
      assert b[2] == 0x80 + (n / 64) % 64 && b[3] == 0x80 + n % 64;
    }
  }

  /** Decoding inverts encoding on every string. */
  lemma {:induction false} DecodeEncode(s: string)
    ensures Decode(Encode(s)) == s
    decreases |s|
  {
    if |s| > 0 {
      var head := EncodeChar(s[0]);
      DecodeOneOfEncodeChar(s[0], Encode(s[1..]));
      assert (head + Encode(s[1..]))[|head|..] == Encode(s[1..]);
      DecodeEncode(s[1..]);
    }
  }

  /** Encoding is injective: distinct strings have distinct encodings. */
  lemma EncodeIsInjective(s: string, t: string)
    requires Encode(s) == Encode(t)
    ensures s == t
  {
    DecodeEncode(s);
    DecodeEncode(t);
  }

  /** U+FEFF, the byte order mark. */
  const ByteOrderMark: char := 0xFEFF as char

  /** Its UTF-8 form. */
  const BomBytes: seq<byte> := [0xEF, 0xBB, 0xBF]

  /** `new TextDecoder().decode(b)`, which `pako.ungzip(…, { to: 'string' })`
      calls: by default (`ignoreBOM` false) a leading byte order mark is
      consumed and not returned. */
  function TextDecode(b: seq<byte>): (r: string)
    ensures |b| >= 3 && b[..3] == BomBytes ==> r == Decode(b[3..])
    ensures !(|b| >= 3 && b[..3] == BomBytes) ==> r == Decode(b)
  {
    if |b| >= 3 && b[..3] == BomBytes then Decode(b[3..]) else Decode(b)
  }

  /** The string without its leading byte order mark, if it has one. */
  function StripBom(s: string): (r: string)
    ensures |s| >= 1 && s[0] == ByteOrderMark ==> r == s[1..]
    ensures !(|s| >= 1 && s[0] == ByteOrderMark) ==> r == s
  {
    if |s| >= 1 && s[0] == ByteOrderMark then s[1..] else s
  }

  /** An encoding starts with the byte order mark's bytes exactly when the
      string starts with the byte order mark. */
  lemma EncodeStartsWithBom(s: string)
    ensures (|Encode(s)| >= 3 && Encode(s)[..3] == BomBytes) <==> (|s| >= 1 && s[0] == ByteOrderMark)
  {
    if |s| >= 1 {
      var b := Encode(s);
      assert b == EncodeChar(s[0]) + Encode(s[1..]);
      if s[0] == ByteOrderMark {
        assert EncodeChar(s[0]) == BomBytes;
        assert b[..3] == BomBytes;
      }
      if |b| >= 3 && b[..3] == BomBytes {
        DecodeOneOfEncodeChar(s[0], Encode(s[1..]));
        assert b[0] == 0xEF && b[1] == 0xBB && b[2] == 0xBF;
        assert DecodeOne(b) == (ByteOrderMark, 3);
      }
    }
  }

  /** Decoding with `TextDecoder` what `TextEncoder` produced gives the
      string back, less a leading byte order mark. */
  lemma TextDecodeEncode(s: string)
    ensures TextDecode(Encode(s)) == StripBom(s)
  {
    EncodeStartsWithBom(s);
    if |s| >= 1 && s[0] == ByteOrderMark {
      var b := Encode(s);
      assert b == EncodeChar(s[0]) + Encode(s[1..]);
      assert EncodeChar(s[0]) == BomBytes;
      assert b[3..] == Encode(s[1..]);
      DecodeEncode(s[1..]);
    } else {
      DecodeEncode(s);
    }
  }
}
