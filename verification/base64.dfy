/** Base 64 as section 4 of RFC 4648 defines it: `btoa` writes it, with
    padding, and `atob` reads it with the forgiving-base64 decoding of the
    WHATWG Infra standard (section 4.6), which drops ASCII whitespace and
    accepts a missing padding. */
module Base64 {
  import opened Wrappers
  import opened Bytes

  /** A value of six bits. */
  type sextet = v: int | 0 <= v < 64

  /** The character for a six-bit value, from Table 1 of RFC 4648. */
  function CharOf(v: sextet): (c: char) {
    if v < 26 then ('A' as int + v) as char
    else if v < 52 then ('a' as int + (v - 26)) as char
    else if v < 62 then ('0' as int + (v - 52)) as char
    else if v == 62 then '+'
    else '/'
  }

  predicate IsAlphabet(c: char) {
    'A' <= c <= 'Z' || 'a' <= c <= 'z' || '0' <= c <= '9' || c == '+' || c == '/'
  }

  /** The six-bit value of an alphabet character. */
  function ValueOf(c: char): (v: sextet)
    requires IsAlphabet(c)
    ensures CharOf(v) == c
  {
    if 'A' <= c <= 'Z' then c as int - 'A' as int
    else if 'a' <= c <= 'z' then c as int - 'a' as int + 26
    else if '0' <= c <= '9' then c as int - '0' as int + 52
    else if c == '+' then 62
    else 63
  }

  lemma ValueOfCharOf(v: sextet)
    ensures IsAlphabet(CharOf(v)) && ValueOf(CharOf(v)) == v
  {
  }

  predicate AllAlphabet(s: string) {
    forall i :: 0 <= i < |s| ==> IsAlphabet(s[i])
  }

  /** Three bytes as four characters. */
  function Quad(x: byte, y: byte, z: byte): (r: string)
    ensures |r| == 4 && AllAlphabet(r)
  {
    ValueOfCharOf(x / 4);
    ValueOfCharOf((x % 4) * 16 + y / 16);
    ValueOfCharOf((y % 16) * 4 + z / 64);
    ValueOfCharOf(z % 64);
    [CharOf(x / 4), CharOf((x % 4) * 16 + y / 16), CharOf((y % 16) * 4 + z / 64), CharOf(z % 64)]
  }

  /** A final pair of bytes as three characters. */
  function Triad(x: byte, y: byte): (r: string)
    ensures |r| == 3 && AllAlphabet(r)
  {
    ValueOfCharOf(x / 4);
    ValueOfCharOf((x % 4) * 16 + y / 16);
    ValueOfCharOf((y % 16) * 4);
    [CharOf(x / 4), CharOf((x % 4) * 16 + y / 16), CharOf((y % 16) * 4)]
  }

  /** A final single byte as two characters. */
  function Dyad(x: byte): (r: string)
    ensures |r| == 2 && AllAlphabet(r)
  {
    ValueOfCharOf(x / 4);
    ValueOfCharOf((x % 4) * 16);
    [CharOf(x / 4), CharOf((x % 4) * 16)]
  }

  /** The encoding without its `=` padding: a final single byte takes two
      characters, a final pair three. */
  function EncodeDigits(b: seq<byte>): (r: string)
    ensures AllAlphabet(r)
    ensures |r| == DigitCount(|b|)
    decreases |b|
  {
    if |b| >= 3 then Quad(b[0], b[1], b[2]) + EncodeDigits(b[3..])
    else if |b| == 2 then Triad(b[0], b[1])
    else if |b| == 1 then Dyad(b[0])
    else []
  }

  /** Four characters per whole group of three bytes, and one more than the
      bytes of a final partial group. */
  function DigitCount(n: nat): nat {
    if n >= 3 then 4 + DigitCount(n - 3) else if n == 0 then 0 else n + 1
  }

  /** The digit count in closed form. */
  lemma {:induction false} DigitCountClosedForm(n: nat)
    ensures DigitCount(n) == 4 * (n / 3) + (if n % 3 == 0 then 0 else n % 3 + 1)
  {
    if n >= 3 {
      DigitCountClosedForm(n - 3);
      assert (n - 3) / 3 == n / 3 - 1 && (n - 3) % 3 == n % 3;
    }
  }

  /** The padding completes the digits to whole groups of four, and the
      digits alone never leave a single character over. */
  lemma {:induction false} PaddingCompletes(n: nat)
    ensures (DigitCount(n) + |Padding(n)|) % 4 == 0
    ensures DigitCount(n) % 4 != 1
  {
    if n >= 3 {
      PaddingCompletes(n - 3);
    }
  }

  /** `=` characters that complete the last group of four. */
  function Padding(n: nat): (r: string)
    ensures r == "" || r == "=" || r == "=="
  {
    if n >= 3 then Padding(n - 3) else if n == 1 then "==" else if n == 2 then "=" else ""
  }

  /** Two `=` after a final single byte, one after a final pair. */
  lemma {:induction false} PaddingClosedForm(n: nat)
    ensures Padding(n) == if n % 3 == 1 then "==" else if n % 3 == 2 then "=" else ""
  {
    if n >= 3 {
      PaddingClosedForm(n - 3);
      assert (n - 3) % 3 == n % 3;
    }
  }

  /** `btoa` applied to the bytes `b`. */
  function Encode(b: seq<byte>): (r: string)
    ensures |r| % 4 == 0
    ensures forall i :: 0 <= i < |r| ==> IsAlphabet(r[i]) || r[i] == '='
  {
    PaddingCompletes(|b|);
    EncodeDigits(b) + Padding(|b|)
  }

  /** The output has no more than two `=`, all at the end. */
  lemma PaddingOnlyAtEnd(b: seq<byte>)
    ensures var r := Encode(b);
      forall i :: 0 <= i < |r| && r[i] == '=' ==> i >= |r| - 2 && forall j :: i <= j < |r| ==> r[j] == '='
  {
  }

  /** Four characters for every started group of three bytes. */
  lemma EncodeLength(b: seq<byte>)
    ensures |Encode(b)| == 4 * ((|b| + 2) / 3)
  {
    var n := |b|;
    DigitCountClosedForm(n);
    PaddingClosedForm(n);
    assert |Encode(b)| == DigitCount(n) + |Padding(n)|;
    if n % 3 == 0 {
      assert (n + 2) / 3 == n / 3;
    } else {
      assert (n + 2) / 3 == n / 3 + 1;
    }
  }

  /** TAB, LF, FF, CR and SPACE. */
  predicate IsAsciiWhitespace(c: char) {
    c == '\t' || c == '\n' || c == '\U{000C}' || c == '\r' || c == ' '
  }

  /** The input with every ASCII whitespace character removed. Every other
      character is kept, as often as it occurs (`StripWhitespaceCounts`),
      and in the order written (`StripWhitespaceAround`). */
  function StripWhitespace(s: string): (r: string)
    ensures |r| <= |s|
    ensures forall i :: 0 <= i < |r| ==> !IsAsciiWhitespace(r[i])
  {
    if |s| == 0 then []
    else
      assert s == [s[0]] + s[1..];
      (if IsAsciiWhitespace(s[0]) then [] else [s[0]]) + StripWhitespace(s[1..])
  }

  /** Why `atob` threw (an `InvalidCharacterError`). */
  datatype DecodeError = BadLength | BadCharacter

  /** Bytes from unpadded digits: four characters give three bytes, a final
      three give two and a final two give one; bits left over are dropped. */
  function DecodeDigits(s: string): (r: seq<byte>)
    requires AllAlphabet(s)
    decreases |s|
  {
    if |s| >= 4 then
      Group(ValueOf(s[0]), ValueOf(s[1]), ValueOf(s[2]), ValueOf(s[3])) + DecodeDigits(s[4..])
    else if |s| == 3 then
      var a, b, c := ValueOf(s[0]), ValueOf(s[1]), ValueOf(s[2]);
      [a * 4 + b / 16, (b % 16) * 16 + c / 4]
    else if |s| == 2 then
      var a, b := ValueOf(s[0]), ValueOf(s[1]);
      [a * 4 + b / 16]
    else []
  }

  /** The three bytes four six-bit values carry. */
  function Group(a: sextet, b: sextet, c: sextet, d: sextet): seq<byte> {
    [a * 4 + b / 16, (b % 16) * 16 + c / 4, (c % 4) * 64 + d]
  }

  /** Removes one or two trailing `=` from a text whose length is a multiple
      of four. */
  function Unpad(s: string): (r: string)
    ensures |r| <= |s|
  {
    if |s| % 4 != 0 then s
    else if |s| >= 2 && s[|s| - 2..] == "==" then s[..|s| - 2]
    else if |s| >= 1 && s[|s| - 1] == '=' then s[..|s| - 1]
    else s
  }

  /** `atob(s)`: forgiving-base64 decoding. */
  function Decode(s: string): Result<seq<byte>, DecodeError> {
    var data := Unpad(StripWhitespace(s));
    if |data| % 4 == 1 then Failure(BadLength)
    else if !AllAlphabet(data) then Failure(BadCharacter)
    else Success(DecodeDigits(data))
  }

  /** The bit arithmetic of one group: the four six-bit values re-assemble
      the three bytes they were cut from. */
  lemma RegroupBits(x: byte, y: byte, z: byte)
    ensures (x / 4) * 4 + ((x % 4) * 16 + y / 16) / 16 == x
    ensures (((x % 4) * 16 + y / 16) % 16) * 16 + ((y % 16) * 4 + z / 64) / 4 == y
    ensures (((y % 16) * 4 + z / 64) % 4) * 64 + z % 64 == z
  {
    var b := (x % 4) * 16 + y / 16;
    assert b / 16 == x % 4 && b % 16 == y / 16;
    var c := (y % 16) * 4 + z / 64;
    assert c / 4 == y % 16 && c % 4 == z / 64;
  }

  lemma GroupOfQuad(x: byte, y: byte, z: byte)
    ensures Group(x / 4, (x % 4) * 16 + y / 16, (y % 16) * 4 + z / 64, z % 64) == [x, y, z]
  {
    RegroupBits(x, y, z);
  }

  lemma QuadReadsBack(x: byte, y: byte, z: byte, rest: string)
    requires AllAlphabet(rest)
    ensures DecodeDigits(Quad(x, y, z) + rest) == [x, y, z] + DecodeDigits(rest)
  {
    var q := Quad(x, y, z);
    var s := q + rest;
    assert AllAlphabet(s);
    assert s[4..] == rest;
    ValueOfCharOf(x / 4);
    ValueOfCharOf((x % 4) * 16 + y / 16);
    ValueOfCharOf((y % 16) * 4 + z / 64);
    ValueOfCharOf(z % 64);
    assert ValueOf(s[0]) == x / 4 && ValueOf(s[1]) == (x % 4) * 16 + y / 16;
    assert ValueOf(s[2]) == (y % 16) * 4 + z / 64 && ValueOf(s[3]) == z % 64;
    GroupOfQuad(x, y, z);
  }

  /** A final pair of bytes, as three characters, reads back. */
  lemma PairReadsBack(x: byte, y: byte)
    ensures DecodeDigits(Triad(x, y)) == [x, y]
  {
    var s := Triad(x, y);
    ValueOfCharOf(x / 4);
    ValueOfCharOf((x % 4) * 16 + y / 16);
    ValueOfCharOf((y % 16) * 4);
    assert ValueOf(s[0]) == x / 4 && ValueOf(s[1]) == (x % 4) * 16 + y / 16;
    assert ValueOf(s[2]) == (y % 16) * 4;
    RegroupBits(x, y, 0);
  }

  /** A final single byte, as two characters, reads back. */
  lemma SingleReadsBack(x: byte)
    ensures DecodeDigits(Dyad(x)) == [x]
  {
    var s := Dyad(x);
    ValueOfCharOf(x / 4);
    ValueOfCharOf((x % 4) * 16);
    assert ValueOf(s[0]) == x / 4 && ValueOf(s[1]) == (x % 4) * 16;
    RegroupBits(x, 0, 0);
  }

  /** Decoding the digits of `b` gives back `b`. */
  lemma {:induction false} DecodeEncodeDigits(b: seq<byte>)
    ensures DecodeDigits(EncodeDigits(b)) == b
    decreases |b|
  {
    if |b| >= 3 {
      var rest := EncodeDigits(b[3..]);
      assert EncodeDigits(b) == Quad(b[0], b[1], b[2]) + rest;
      DecodeEncodeDigits(b[3..]);
      QuadReadsBack(b[0], b[1], b[2], rest);
      assert [b[0], b[1], b[2]] + b[3..] == b;
    } else if |b| == 2 {
      PairReadsBack(b[0], b[1]);
      assert b == [b[0], b[1]];
    } else if |b| == 1 {
      SingleReadsBack(b[0]);
      assert b == [b[0]];
    }
  }

  lemma {:induction false} StripWhitespaceOfClean(s: string)
    requires forall i :: 0 <= i < |s| ==> !IsAsciiWhitespace(s[i])
    ensures StripWhitespace(s) == s
    decreases |s|
  {
    if |s| > 0 {
      StripWhitespaceOfClean(s[1..]);
    }
  }

  lemma StripWhitespaceOfAlphabet(s: string)
    requires forall i :: 0 <= i < |s| ==> IsAlphabet(s[i]) || s[i] == '='
    ensures StripWhitespace(s) == s
  {
    StripWhitespaceOfClean(s);
  }

  /** Stripping distributes over concatenation, so the characters kept
      stay in the order they were written. */
  lemma {:induction false} StripWhitespaceAppend(a: string, b: string)
    ensures StripWhitespace(a + b) == StripWhitespace(a) + StripWhitespace(b)
    decreases |a|
  {
    if |a| == 0 {
      assert a + b == b;
    } else {
      var head := if IsAsciiWhitespace(a[0]) then [] else [a[0]];
      assert (a + b)[0] == a[0] && (a + b)[1..] == a[1..] + b;
      assert StripWhitespace(a + b) == head + StripWhitespace(a[1..] + b);
      StripWhitespaceAppend(a[1..], b);
      assert StripWhitespace(a) == head + StripWhitespace(a[1..]);
    }
  }

  /** Stripping keeps every other character exactly as often as it occurs. */
  lemma {:induction false} StripWhitespaceCounts(s: string)
    ensures forall c :: !IsAsciiWhitespace(c) ==> multiset(StripWhitespace(s))[c] == multiset(s)[c]
    decreases |s|
  {
    if |s| > 0 {
      assert s == [s[0]] + s[1..];
      StripWhitespaceCounts(s[1..]);
    }
  }

  /** One whitespace character anywhere in the text is dropped by stripping,
      and one other character is kept in its place. */
  lemma StripWhitespaceAround(a: string, c: char, b: string)
    ensures StripWhitespace(a + [c] + b)
      == StripWhitespace(a) + (if IsAsciiWhitespace(c) then [] else [c]) + StripWhitespace(b)
  {
    StripWhitespaceAppend(a + [c], b);
    StripWhitespaceAppend(a, [c]);
    assert StripWhitespace([c]) == (if IsAsciiWhitespace(c) then [] else [c]) by {
      assert [c][1..] == [];
    }
  }

  /** Decoding sees only the stripped text. */
  lemma DecodeOfStripped(s: string)
    ensures Decode(s) == Decode(StripWhitespace(s))
  {
    StripWhitespaceOfClean(StripWhitespace(s));
  }

  /** An ASCII whitespace character anywhere in the input makes no
      difference to what `atob` gives. */
  lemma WhitespaceIsIgnored(a: string, w: char, b: string)
    requires IsAsciiWhitespace(w)
    ensures Decode(a + [w] + b) == Decode(a + b)
  {
    StripWhitespaceAround(a, w, b);
    StripWhitespaceAppend(a, b);
    SameStrippedSameDecode(a + [w] + b, a + b);
  }

  lemma SameStrippedSameDecode(s: string, t: string)
    requires StripWhitespace(s) == StripWhitespace(t)
    ensures Decode(s) == Decode(t)
  {
  }

  /** Unpadding the encoding of `b` leaves its digits. */
  lemma UnpadOfEncode(b: seq<byte>)
    ensures Unpad(Encode(b)) == EncodeDigits(b)
  {
    var digits, pad := EncodeDigits(b), Padding(|b|);
    assert Encode(b) == digits + pad;
    assert (|digits| + |pad|) % 4 == 0 by {
      assert |Encode(b)| % 4 == 0;
    }
    UnpadOfPadded(digits, pad);
  }

  /** Unpadding digits followed by no, one or two `=` leaves the digits. */
  lemma UnpadOfPadded(digits: string, pad: string)
    requires AllAlphabet(digits) && (pad == "" || pad == "=" || pad == "==")
    requires (|digits| + |pad|) % 4 == 0
    ensures Unpad(digits + pad) == digits
  {
    var r := digits + pad;
    if pad == "==" {
      assert r[|r| - 2..] == "==";
      assert r[..|r| - 2] == digits;
    } else if pad == "=" {
      assert |digits| >= 1;
      assert r[|r| - 2..][0] == digits[|digits| - 1];
      assert r[|r| - 1] == '=';
      assert r[..|r| - 1] == digits;
    } else {
      assert r == digits;
      UnpadOfDigits(digits);
    }
  }

  /** `atob(btoa(b)) == b` for every byte sequence. */
  lemma DecodeEncode(b: seq<byte>)
    ensures Decode(Encode(b)) == Success(b)
  {
    StripWhitespaceOfAlphabet(Encode(b));
    UnpadOfEncode(b);
    DigitsAreNeverOneOver(b);
    DecodeEncodeDigits(b);
  }

  /** The digits of an encoding never leave a lone character after their
      groups of four. */
  lemma DigitsAreNeverOneOver(b: seq<byte>)
    ensures |EncodeDigits(b)| % 4 != 1
  {
    PaddingCompletes(|b|);
  }

  /** The padding may be left out: the bare digits decode as well. */
  lemma MissingPaddingIsAccepted(b: seq<byte>)
    ensures Decode(EncodeDigits(b)) == Success(b)
  {
    var digits := EncodeDigits(b);
    StripWhitespaceOfAlphabet(digits);
    UnpadOfDigits(digits);
    DigitsAreNeverOneOver(b);
    DecodeEncodeDigits(b);
  }

  /** Text without `=` has nothing to unpad. */
  lemma UnpadOfDigits(s: string)
    requires AllAlphabet(s)
    ensures Unpad(s) == s
  {
    if |s| >= 1 {
      assert IsAlphabet(s[|s| - 1]);
    }
    if |s| >= 2 {
      assert s[|s| - 2..][0] == s[|s| - 2];
    }
  }

  /** A text with one character too many for its groups of four is refused. */
  lemma LoneCharacterIsRefused(s: string)
    requires AllAlphabet(s) && |s| % 4 == 1
    ensures Decode(s).Failure?
  {
    StripWhitespaceOfAlphabet(s);
  }
}
