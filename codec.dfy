/** The update codec of client.js: Yjs update bytes to base64 text for the JSON
    envelope (StringToBinay) and back (BinaryToString). Both go through a "binary
    string", one char per byte. */
module Codec {
  import opened Wrappers
  import opened Base64

  /** The number of bytes turned into chars by one `String.fromCharCode.apply` call. */
  const ChunkSize: nat := 0x8000

  /** A string whose every char code is a byte. */
  predicate IsBinaryString(s: string) {
    forall i :: 0 <= i < |s| ==> (s[i] as int) < 256
  }

  /** `String.fromCharCode.apply(null, bs)`. */
  function FromCharCodes(bs: seq<byte>): (s: string)
    ensures |s| == |bs|
  {
    seq(|bs|, i requires 0 <= i < |bs| => bs[i] as char)
  }

  /** The char codes of a binary string. */
  function CharCodes(s: string): (bs: seq<byte>)
    requires IsBinaryString(s)
    ensures |bs| == |s|
  {
    seq(|s|, i requires 0 <= i < |s| => s[i] as int)
  }

  /** `btoa(s)`, on the binary strings it is given here. */
  function Btoa(s: string): string
    requires IsBinaryString(s)
  {
    Encode(CharCodes(s))
  }

  /** `atob(s)`: `None` where it throws. */
  function Atob(s: string): (r: Option<string>)
    ensures r.Some? ==> IsBinaryString(r.value)
    ensures r.Some? <==> Decode(s).Some?
    ensures r.Some? ==> CharCodes(r.value) == Decode(s).value
  {
    match Decode(s)
    case None => None
    case Some(bs) => Some(FromCharCodes(bs))
  }

  function Min(a: int, b: int): int {
    if a <= b then a else b
  }

  /** The loop of StringToBinay (client.js:26-31): the binary string of `u8`, built
      `chunkSize` bytes at a time. Whatever the chunk size, it has one char per byte and
      char `i` has code `u8[i]`. */
  method BinaryString(u8: seq<byte>, chunkSize: nat) returns (binary: string)
    requires chunkSize > 0
    ensures |binary| == |u8|
    ensures forall i :: 0 <= i < |u8| ==> binary[i] as int == u8[i]
  {
    binary := "";
    var i := 0;
    while i < |u8|
      invariant 0 <= i
      invariant |binary| == Min(i, |u8|)
      invariant forall j :: 0 <= j < |binary| ==> binary[j] as int == u8[j]
      decreases |u8| - i
    {
      var slice := u8[i..Min(i + chunkSize, |u8|)];
      binary := binary + FromCharCodes(slice);
      i := i + chunkSize;
    }
  }

  /** StringToBinay (client.js:25-33): the base64 text of the update bytes, which
      `atob` decodes back to exactly those bytes. */
  method StringToBinary(u8: seq<byte>) returns (b64: string)
    ensures b64 == Encode(u8)
    ensures Decode(b64) == Some(u8)
  {
    var binary := BinaryString(u8, ChunkSize);
    assert CharCodes(binary) == u8;
    b64 := Btoa(binary);
    DecodeEncode(u8);
  }

  /** BinaryToString (client.js:35-41): the bytes of base64 text in a new array, or
      `None` where `atob` throws. */
  method BinaryToString(b64: string) returns (arr: Option<array<byte>>)
    ensures arr.None? <==> Decode(b64).None?
    ensures arr.Some? ==> fresh(arr.value) && arr.value[..] == Decode(b64).value
  {
    var bin := Atob(b64);
    if bin.None? {
      return None;
    }
    var s := bin.value;
    var len := |s|;
    var a := new byte[len];
    for i := 0 to len
      invariant forall j :: 0 <= j < i ==> a[j] == s[j] as int
    {
      a[i] := s[i] as int;
    }
    assert a[..] == CharCodes(s);
    return Some(a);
  }
}
