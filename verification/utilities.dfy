/** The string compression pair and the interface picker.

    `compressString` encodes a string as UTF-8, gzips it, spreads the bytes
    into a binary string (one character per byte) and writes that as base
    64. `decompressString` undoes each step, and rethrows whatever a step
    throws; its text decoder drops a leading byte order mark. gzip is
    abstract: a pair of functions passed in, lawful when decompressing what
    was compressed gives it back. */
module Utilities {
  import opened Wrappers
  import opened Bytes
  import Utf8
  import Base64

  /** `String.fromCharCode(...bytes)`: one character per byte, with that
      byte as its code. */
  function BinaryString(b: seq<byte>): (r: string)
    ensures |r| == |b|
    ensures forall i :: 0 <= i < |r| ==> r[i] as int == b[i]
  {
    if |b| == 0 then [] else [b[0] as char] + BinaryString(b[1..])
  }

  /** `new Uint8Array(s.split('').map(c => c.charCodeAt(0)))`: each code
      stored in a byte, keeping its low eight bits. `split('')` yields UTF-16
      code units, so this is one byte per character only for characters
      below U+10000; the only strings given to it are the binary strings
      `atob` yields, whose codes are all below 256. */
  function CharCodes(s: string): (r: seq<byte>)
    ensures |r| == |s|
    ensures forall i :: 0 <= i < |r| ==> r[i] == (s[i] as int) % 256
  {
    if |s| == 0 then [] else [(s[0] as int) % 256] + CharCodes(s[1..])
  }

  /** Every character of a binary string has a code below 256. */
  predicate IsBinary(s: string) {
    forall i :: 0 <= i < |s| ==> (s[i] as int) < 256
  }

  /** Bytes survive the trip through a binary string unchanged. */
  lemma CharCodesOfBinaryString(b: seq<byte>)
    ensures IsBinary(BinaryString(b))
    ensures CharCodes(BinaryString(b)) == b
  {
  }

  /** Why `btoa` threw: a character above U+00FF. */
  datatype BtoaError = NotLatin1

  /** `btoa(s)`. */
  function Btoa(s: string): (r: Result<string, BtoaError>)
    ensures r.Success? <==> IsBinary(s)
    ensures r.Success? ==> Base64.Decode(r.value) == Success(CharCodes(s))
  {
    if IsBinary(s) then
      Base64.DecodeEncode(CharCodes(s));
      Success(Base64.Encode(CharCodes(s)))
    else Failure(NotLatin1)
  }

  /** `atob(s)`: the decoded bytes as a binary string. */
  function Atob(s: string): (r: Result<string, Base64.DecodeError>)
    ensures r.Success? ==> IsBinary(r.value)
    ensures r.Success? <==> Base64.Decode(s).Success?
  {
    var bytes :- Base64.Decode(s);
    CharCodesOfBinaryString(bytes);
    Success(BinaryString(bytes))
  }

  /** `pako.gzip` and `pako.ungzip`; `inflate` yields `None` where
      `ungzip` throws on data that is not a gzip member. */
  datatype Gzip = Gzip(deflate: seq<byte> -> seq<byte>, inflate: seq<byte> -> Option<seq<byte>>)

  ghost predicate Lawful(gz: Gzip) {
    forall b :: gz.inflate(gz.deflate(b)) == Some(b)
  }

  /** `compressString(input)`: base 64 text, a multiple of four characters
      drawn from the alphabet of section 4 of RFC 4648 and `=`. */
  function CompressString(input: string, gz: Gzip): (r: string)
    ensures |r| % 4 == 0
    ensures forall i :: 0 <= i < |r| ==> Base64.IsAlphabet(r[i]) || r[i] == '='
    ensures Base64.Decode(r) == Success(gz.deflate(Utf8.Encode(input)))
  {
    var compressed := gz.deflate(Utf8.Encode(input));
    CharCodesOfBinaryString(compressed);
    Btoa(BinaryString(compressed)).value
  }

  /** What `decompressString` rethrows. */
  datatype DecompressError = NotBase64(reason: Base64.DecodeError) | NotGzip

  /** `decompressString(compressed)`: the decoded text, or the error of the
      step that threw; there is no fallback value. */
  function DecompressString(compressed: string, gz: Gzip): (r: Result<string, DecompressError>)
    ensures Base64.Decode(compressed).Failure? ==> r == Failure(NotBase64(Base64.Decode(compressed).error))
    ensures r.Success? ==>
      Base64.Decode(compressed).Success?
      && gz.inflate(Base64.Decode(compressed).value).Some?
      && r.value == Utf8.TextDecode(gz.inflate(Base64.Decode(compressed).value).value)
    ensures Base64.Decode(compressed).Success? && gz.inflate(Base64.Decode(compressed).value).None? ==>
      r == Failure(NotGzip)
  {
    match Atob(compressed)
    case Failure(e) => Failure(NotBase64(e))
    case Success(binary) =>
      var bytes := CharCodes(binary);
      assert bytes == Base64.Decode(compressed).value by {
        CharCodesOfBinaryString(Base64.Decode(compressed).value);
      }
      match gz.inflate(bytes)
      case None => Failure(NotGzip)
      case Some(inflated) => Success(Utf8.TextDecode(inflated))
  }

  /** Decompressing what was compressed gives back the input, less a
      leading byte order mark, for every string, when gzip is lawful. */
  lemma DecompressCompress(input: string, gz: Gzip)
    requires Lawful(gz)
    ensures DecompressString(CompressString(input, gz), gz) == Success(Utf8.StripBom(input))
  {
    var encoded := Utf8.Encode(input);
    assert gz.inflate(gz.deflate(encoded)) == Some(encoded);
    Utf8.TextDecodeEncode(input);
  }

  /** A string that does not start with U+FEFF survives the round trip. */
  lemma DecompressCompressWithoutBom(input: string, gz: Gzip)
    requires Lawful(gz)
    requires |input| == 0 || input[0] != Utf8.ByteOrderMark
    ensures DecompressString(CompressString(input, gz), gz) == Success(input)
  {
    DecompressCompress(input, gz);
  }

  /** A leading U+FEFF is lost on the way back. */
  lemma LeadingBomIsLost(rest: string, gz: Gzip)
    requires Lawful(gz)
    ensures DecompressString(CompressString([Utf8.ByteOrderMark] + rest, gz), gz) == Success(rest)
  {
    DecompressCompress([Utf8.ByteOrderMark] + rest, gz);
    assert ([Utf8.ByteOrderMark] + rest)[1..] == rest;
  }

  /** An entry of `os.networkInterfaces()`. */
  datatype Interface = Interface(family: string, internal: bool, address: string)

  /** A table of named interfaces, in `Object.keys` order. */
  type InterfaceTable = seq<(string, seq<Interface>)>

  const Loopback := "127.0.0.1"

  predicate IsExternalIPv4(iface: Interface) {
    iface.family == "IPv4" && !iface.internal
  }

  /** Every interface of the table, name by name, in order. */
  function Flatten(table: InterfaceTable): seq<Interface> {
    if |table| == 0 then [] else table[0].1 + Flatten(table[1..])
  }

  /** The position of the first external IPv4 interface of a list. */
  function FirstExternal(ifaces: seq<Interface>): (r: Option<nat>)
    ensures r.Some? ==> r.value < |ifaces| && IsExternalIPv4(ifaces[r.value])
    ensures r.Some? ==> forall k :: 0 <= k < r.value ==> !IsExternalIPv4(ifaces[k])
    ensures r.None? ==> forall k :: 0 <= k < |ifaces| ==> !IsExternalIPv4(ifaces[k])
  {
    if |ifaces| == 0 then None
    else if IsExternalIPv4(ifaces[0]) then Some(0)
    else match FirstExternal(ifaces[1..])
      case None => None
      case Some(k) => Some(k + 1)
  }

  /** The address `getLocalIPAddress` is meant to report: that of the first
      external IPv4 interface in table order, else the loopback address. */
  function LocalAddress(table: InterfaceTable): string {
    match FirstExternal(Flatten(table))
    case Some(k) => Flatten(table)[k].address
    case None => Loopback
  }

  lemma {:induction false} FlattenSplit(table: InterfaceTable, i: nat)
    requires i < |table|
    ensures Flatten(table) == Flatten(table[..i]) + table[i].1 + Flatten(table[i + 1..])
    decreases i
  {
    if i > 0 {
      FlattenSplit(table[1..], i - 1);
      assert table[1..][..i - 1] == table[1..i];
      assert table[1..][i - 1] == table[i];
      assert table[1..][i..] == table[i + 1..];
      assert Flatten(table[..i]) == table[0].1 + Flatten(table[1..i]) by {
        assert table[..i][1..] == table[1..i];
      }
    } else {
      assert table[..0] == [];
    }
  }

  /** `getLocalIPAddress()` with the interface table as input: the first
      IPv4 interface that is not internal, by name and then by position,
      else `127.0.0.1`. */
  method GetLocalIPAddress(table: InterfaceTable) returns (address: string)
    ensures address == LocalAddress(table)
    ensures address == Loopback || exists k :: 0 <= k < |Flatten(table)| && IsExternalIPv4(Flatten(table)[k]) && Flatten(table)[k].address == address
  {
    var i := 0;
    while i < |table|
      invariant 0 <= i <= |table|
      invariant forall k :: 0 <= k < |Flatten(table[..i])| ==> !IsExternalIPv4(Flatten(table[..i])[k])
    {
      var ifaces := table[i].1;
      var j := 0;
      FlattenSplit(table, i);
      while j < |ifaces|
        invariant 0 <= j <= |ifaces|
        invariant forall k :: 0 <= k < j ==> !IsExternalIPv4(ifaces[k])
      {
        if ifaces[j].family == "IPv4" && !ifaces[j].internal {
          var all := Flatten(table);
          var before := |Flatten(table[..i])|;
          assert all[before + j] == ifaces[j];
          assert forall k :: 0 <= k < before + j ==> !IsExternalIPv4(all[k]) by {
            forall k | 0 <= k < before + j
              ensures !IsExternalIPv4(all[k])
            {
              if k < before {
                assert all[k] == Flatten(table[..i])[k];
              } else {
                assert all[k] == ifaces[k - before];
              }
            }
          }
          return ifaces[j].address;
        }
        j := j + 1;
      }
      assert Flatten(table[..i + 1]) == Flatten(table[..i]) + ifaces by {
        FlattenSplit(table[..i + 1], i);
        assert table[..i + 1][..i] == table[..i];
        assert table[..i + 1][i + 1..] == [];
      }
      i := i + 1;
    }
    assert table[..i] == table;
    return Loopback;
  }
}
