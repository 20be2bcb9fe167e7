/** Base64 as the browser's `btoa` and `atob` apply it: `btoa` encodes with the
    alphabet and `=` padding of section 4 of RFC 4648; `atob` is the HTML standard's
    forgiving-base64 decode, which skips ASCII whitespace, accepts missing padding and
    ignores the leftover bits of a short final group, and fails (throws) on anything
    else. */
module Base64 {
  import opened Wrappers

  type byte = x: int | 0 <= x < 256
  type sextet = x: int | 0 <= x < 64

  /** The encoding alphabet: A-Z, a-z, 0-9, '+', '/'. */
  function SextetChar(x: sextet): char {
    if x < 26 then (('A' as int) + x) as char
    else if x < 52 then (('a' as int) + (x - 26)) as char
    else if x < 62 then (('0' as int) + (x - 52)) as char
    else if x == 62 then '+'
    else '/'
  }

  function CharSextet(c: char): Option<sextet> {
    if 'A' <= c <= 'Z' then Some((c as int) - ('A' as int))
    else if 'a' <= c <= 'z' then Some((c as int) - ('a' as int) + 26)
    else if '0' <= c <= '9' then Some((c as int) - ('0' as int) + 52)
    else if c == '+' then Some(62)
    else if c == '/' then Some(63)
    else None
  }

  /** Three bytes as four 6-bit groups, most significant bits first. */
  function EncodeGroup(b0: byte, b1: byte, b2: byte): seq<sextet> {
    [b0 / 4, (b0 % 4) * 16 + b1 / 16, (b1 % 16) * 4 + b2 / 64, b2 % 64]
  }

  /** Four 6-bit groups as the three bytes they hold. */
  function DecodeGroup(x0: sextet, x1: sextet, x2: sextet, x3: sextet): seq<byte> {
    [x0 * 4 + x1 / 16, (x1 % 16) * 16 + x2 / 4, (x2 % 4) * 64 + x3]
  }

  /** The 6-bit groups of `b`, three bytes to four groups; a final one or two bytes
      give two or three groups, the missing low bits zero. */
  function Sextets(b: seq<byte>): seq<sextet>
    decreases |b|
  {
    if |b| == 0 then []
    else if |b| == 1 then EncodeGroup(b[0], 0, 0)[..2]
    else if |b| == 2 then EncodeGroup(b[0], b[1], 0)[..3]
    else EncodeGroup(b[0], b[1], b[2]) + Sextets(b[3..])
  }

  function SextetString(xs: seq<sextet>): (s: string)
    ensures |s| == |xs|
  {
    seq(|xs|, i requires 0 <= i < |xs| => SextetChar(xs[i]))
  }

  /** The `=` characters that fill the last group of four. */
  function Padding(n: nat): string {
    if n % 3 == 1 then "==" else if n % 3 == 2 then "=" else ""
  }

  /** `btoa` on the binary string of `b`: padded base64. */
  function Encode(b: seq<byte>): (s: string)
    ensures |s| == 4 * ((|b| + 2) / 3)
  {
    SextetsLength(b);
    SextetString(Sextets(b)) + Padding(|b|)
  }

  /** Four groups per three bytes, and two or three for a final one or two. */
  lemma {:induction false} SextetsLength(b: seq<byte>)
    ensures |Sextets(b)| == 4 * (|b| / 3) + (if |b| % 3 == 0 then 0 else |b| % 3 + 1)
    ensures |Sextets(b)| % 4 != 1
    decreases |b|
  {
    if |b| >= 3 {
      SextetsLength(b[3..]);
      var m := |b[3..]|;
      assert |b| == m + 3;
      assert (m + 3) / 3 == m / 3 + 1 && (m + 3) % 3 == m % 3;
      assert |Sextets(b)| == 4 + |Sextets(b[3..])|;
    }
  }

  predicate IsAsciiWhitespace(c: char) {
    c == ' ' || c == '\t' || c == '\n' || c == '\r' || c as int == 12
  }

  function StripWhitespace(s: string): (t: string)
    ensures |t| <= |s|
    decreases |s|
  {
    if s == [] then []
    else if IsAsciiWhitespace(s[0]) then StripWhitespace(s[1..])
    else [s[0]] + StripWhitespace(s[1..])
  }

  /** When the length is a multiple of four, one or two final `=` are dropped. */
  function StripPadding(t: string): string {
    if |t| % 4 == 0 && |t| >= 2 && t[|t| - 2] == '=' && t[|t| - 1] == '=' then t[..|t| - 2]
    else if |t| % 4 == 0 && |t| >= 1 && t[|t| - 1] == '=' then t[..|t| - 1]
    else t
  }

  function CharsToSextets(t: string): (r: Option<seq<sextet>>)
    ensures r.Some? ==> |r.value| == |t|
    decreases |t|
  {
    if t == [] then Some([])
    else match (CharSextet(t[0]), CharsToSextets(t[1..]))
      case (Some(x), Some(xs)) => Some([x] + xs)
      case _ => None
  }

  /** Four groups to three bytes; a final two or three groups give one or two bytes,
      their leftover low bits dropped. */
  function SextetsToBytes(xs: seq<sextet>): (b: seq<byte>)
    requires |xs| % 4 != 1
    decreases |xs|
  {
    if |xs| == 0 then []
    else if |xs| == 2 then DecodeGroup(xs[0], xs[1], 0, 0)[..1]
    else if |xs| == 3 then DecodeGroup(xs[0], xs[1], xs[2], 0)[..2]
    else DecodeGroup(xs[0], xs[1], xs[2], xs[3]) + SextetsToBytes(xs[4..])
  }

  /** What `atob` leaves to decode: the input without whitespace and final padding. */
  function Normalized(s: string): string {
    StripPadding(StripWhitespace(s))
  }

  /** `atob` as bytes: `None` where it throws InvalidCharacterError. */
  function Decode(s: string): Option<seq<byte>> {
    var t := Normalized(s);
    if |t| % 4 == 1 then None
    else match CharsToSextets(t)
      case None => None
      case Some(xs) => Some(SextetsToBytes(xs))
  }

  /** The groups of "foo" and the characters they give. */
  lemma FooGroup()
    ensures EncodeGroup(102, 111, 111) == [25, 38, 61, 47]
    ensures SextetString([25, 38, 61, 47]) == "Zm9v"
  {
  }

  /** The test vectors of section 10 of RFC 4648 up to three bytes. */
  lemma EncodeF()
    ensures Encode([]) == ""
    ensures Encode([102]) == "Zg=="
  {
    assert Sextets([102]) == [25, 32];
  }

  lemma EncodeFo()
    ensures Encode([102, 111]) == "Zm8="
  {
    assert Sextets([102, 111]) == [25, 38, 60];
  }

  lemma EncodeFoo()
    ensures Encode([102, 111, 111]) == "Zm9v"
  {
    FooGroup();
    assert [102, 111, 111][3..] == [];
    assert Sextets([102, 111, 111]) == [25, 38, 61, 47];
  }

  /** The test vectors of section 10 of RFC 4648 beyond three bytes, built on "foo". */
  lemma EncodeFoob()
    ensures Encode([102, 111, 111, 98]) == "Zm9vYg=="
  {
    var b := [102, 111, 111, 98];
    FooGroup();
    assert b[3..] == [98];
    assert Sextets([98]) == [24, 32];
    assert Sextets(b) == [25, 38, 61, 47] + [24, 32];
    assert SextetString([25, 38, 61, 47] + [24, 32]) == "Zm9v" + SextetString([24, 32]);
  }

  lemma EncodeFooba()
    ensures Encode([102, 111, 111, 98, 97]) == "Zm9vYmE="
  {
    var b := [102, 111, 111, 98, 97];
    FooGroup();
    assert b[3..] == [98, 97];
    assert Sextets([98, 97]) == [24, 38, 4];
    assert Sextets(b) == [25, 38, 61, 47] + [24, 38, 4];
    assert SextetString([25, 38, 61, 47] + [24, 38, 4]) == "Zm9v" + SextetString([24, 38, 4]);
  }

  lemma EncodeFoobar()
    ensures Encode([102, 111, 111, 98, 97, 114]) == "Zm9vYmFy"
  {
    var b := [102, 111, 111, 98, 97, 114];
    FooGroup();
    assert b[3..] == [98, 97, 114] && [98, 97, 114][3..] == [];
    assert Sextets([98, 97, 114]) == [24, 38, 5, 50];
    assert Sextets(b) == [25, 38, 61, 47] + [24, 38, 5, 50];
    assert SextetString([25, 38, 61, 47] + [24, 38, 5, 50]) == "Zm9v" + SextetString([24, 38, 5, 50]);
  }

  /** The two characters after `9` are `+` and `/`. */
  lemma EncodeAlphabetEnd()
    ensures Encode([0xfb, 0xff]) == "+/8="
  {
  }

  // ---------------------------------------------------------------------------
  // Decode inverts Encode

  /** One group of three bytes survives the trip through four sextets, and zero
      bytes at its end give zero groups at its end. */
  lemma GroupRoundTrip(b0: byte, b1: byte, b2: byte)
    ensures var g := EncodeGroup(b0, b1, b2); DecodeGroup(g[0], g[1], g[2], g[3]) == [b0, b1, b2]
    ensures b2 == 0 ==> EncodeGroup(b0, b1, b2)[3] == 0
    ensures b1 == 0 && b2 == 0 ==> EncodeGroup(b0, b1, b2)[2] == 0
  {
    var x1 := (b0 % 4) * 16 + b1 / 16;
    var x2 := (b1 % 16) * 4 + b2 / 64;
    assert x1 / 16 == b0 % 4 && x1 % 16 == b1 / 16;
    assert x2 / 4 == b1 % 16 && x2 % 4 == b2 / 64;
  }

  /** Decoding a full group of four followed by more groups decodes the group first. */
  lemma GroupStep(g: seq<sextet>, rest: seq<sextet>)
    requires |g| == 4 && |rest| % 4 != 1
    ensures SextetsToBytes(g + rest) == DecodeGroup(g[0], g[1], g[2], g[3]) + SextetsToBytes(rest)
  {
    var xs := g + rest;
    assert xs[0] == g[0] && xs[1] == g[1] && xs[2] == g[2] && xs[3] == g[3];
    assert xs[4..] == rest;
  }

  /** A final single byte survives the trip through two sextets. */
  lemma OneByteRoundTrip(b0: byte)
    ensures SextetsToBytes(EncodeGroup(b0, 0, 0)[..2]) == [b0]
  {
    var g := EncodeGroup(b0, 0, 0);
    GroupRoundTrip(b0, 0, 0);
    var xs := g[..2];
    assert xs[0] == g[0] && xs[1] == g[1] && g[2] == 0 && g[3] == 0;
    assert SextetsToBytes(xs) == DecodeGroup(g[0], g[1], g[2], g[3])[..1];
  }

  /** A final two bytes survive the trip through three sextets. */
  lemma TwoBytesRoundTrip(b0: byte, b1: byte)
    ensures SextetsToBytes(EncodeGroup(b0, b1, 0)[..3]) == [b0, b1]
  {
    var g := EncodeGroup(b0, b1, 0);
    GroupRoundTrip(b0, b1, 0);
    var xs := g[..3];
    assert xs[0] == g[0] && xs[1] == g[1] && xs[2] == g[2] && g[3] == 0;
    assert SextetsToBytes(xs) == DecodeGroup(g[0], g[1], g[2], g[3])[..2];
  }

  lemma {:induction false} SextetsRoundTrip(b: seq<byte>)
    ensures |Sextets(b)| % 4 != 1
    ensures SextetsToBytes(Sextets(b)) == b
    decreases |b|
  {
    SextetsLength(b);
    if |b| == 1 {
      OneByteRoundTrip(b[0]);
      assert b == [b[0]];
    } else if |b| == 2 {
      TwoBytesRoundTrip(b[0], b[1]);
      assert b == [b[0], b[1]];
    } else if |b| >= 3 {
      var g := EncodeGroup(b[0], b[1], b[2]);
      var rest := Sextets(b[3..]);
      assert Sextets(b) == g + rest;
      SextetsLength(b[3..]);
      SextetsRoundTrip(b[3..]);
      GroupStep(g, rest);
      GroupRoundTrip(b[0], b[1], b[2]);
      assert b == [b[0], b[1], b[2]] + b[3..];
    }
  }

  lemma {:induction false} CharsRoundTrip(xs: seq<sextet>)
    ensures CharsToSextets(SextetString(xs)) == Some(xs)
    decreases |xs|
  {
    if xs != [] {
      var s := SextetString(xs);
      assert CharSextet(SextetChar(xs[0])) == Some(xs[0]);
      assert s[1..] == SextetString(xs[1..]);
      CharsRoundTrip(xs[1..]);
      assert xs == [xs[0]] + xs[1..];
    }
  }

  lemma {:induction false} StripWhitespaceNone(s: string)
    requires forall i :: 0 <= i < |s| ==> !IsAsciiWhitespace(s[i])
    ensures StripWhitespace(s) == s
    decreases |s|
  {
    if s != [] {
      StripWhitespaceNone(s[1..]);
      assert s == [s[0]] + s[1..];
    }
  }

  lemma SextetStringPlain(xs: seq<sextet>)
    ensures forall i :: 0 <= i < |xs| ==>
              SextetString(xs)[i] != '=' && !IsAsciiWhitespace(SextetString(xs)[i])
  {
  }

  /** The encoded text has no whitespace. */
  lemma EncodeNoWhitespace(b: seq<byte>)
    ensures StripWhitespace(Encode(b)) == Encode(b)
  {
    var body := SextetString(Sextets(b));
    SextetStringPlain(Sextets(b));
    var e := Encode(b);
    assert forall i :: 0 <= i < |e| ==> e[i] == '=' || e[i] == body[i];
    StripWhitespaceNone(e);
  }

  /** `atob` drops exactly the padding that follows a body without `=`. */
  lemma DropPadding(body: string, pad: string)
    requires forall i :: 0 <= i < |body| ==> body[i] != '='
    requires pad == "" || pad == "=" || pad == "=="
    requires |body + pad| % 4 == 0
    requires pad == "=" ==> |body| > 0
    ensures StripPadding(body + pad) == body
  {
    var e := body + pad;
    if pad == "==" {
      assert e[..|e| - 2] == body;
    } else if pad == "=" {
      assert e[..|e| - 1] == body;
      assert e[|e| - 2] == body[|body| - 1];
    } else {
      assert e == body;
      assert |e| > 0 ==> e[|e| - 1] == body[|body| - 1];
    }
  }

  /** The whitespace and padding `atob` drops from the encoded text leave its body. */
  lemma EncodeNormalized(b: seq<byte>)
    ensures Normalized(Encode(b)) == SextetString(Sextets(b))
  {
    EncodeNoWhitespace(b);
    SextetStringPlain(Sextets(b));
    DropPadding(SextetString(Sextets(b)), Padding(|b|));
  }

  /** Every byte sequence, the empty one included, survives `atob(btoa(...))`. */
  lemma DecodeEncode(b: seq<byte>)
    ensures Decode(Encode(b)) == Some(b)
  {
    EncodeNormalized(b);
    CharsRoundTrip(Sextets(b));
    SextetsRoundTrip(b);
  }

  // ---------------------------------------------------------------------------
  // When decoding fails

  lemma {:induction false} CharsToSextetsFails(t: string)
    ensures CharsToSextets(t).None? <==> exists i :: 0 <= i < |t| && CharSextet(t[i]).None?
    decreases |t|
  {
    if t != [] {
      CharsToSextetsFails(t[1..]);
      if CharSextet(t[0]).Some? && CharsToSextets(t[1..]).None? {
        var i :| 0 <= i < |t[1..]| && CharSextet(t[1..][i]).None?;
        assert CharSextet(t[i + 1]).None?;
      }
      if exists i :: 0 <= i < |t| && CharSextet(t[i]).None? {
        var i :| 0 <= i < |t| && CharSextet(t[i]).None?;
        if i > 0 {
          assert CharSextet(t[1..][i - 1]).None?;
        }
      }
    }
  }

  /** `atob` throws exactly when, once whitespace and final padding are dropped, the
      length leaves a remainder of one or a character is outside the alphabet; it
      yields three bytes per four characters otherwise. */
  lemma DecodeFails(s: string)
    ensures Decode(s).None? <==>
            |Normalized(s)| % 4 == 1 || exists i :: 0 <= i < |Normalized(s)| && CharSextet(Normalized(s)[i]).None?
    ensures Decode(s).Some? ==> |Decode(s).value| == (3 * |Normalized(s)|) / 4
  {
    CharsToSextetsFails(Normalized(s));
    if Decode(s).Some? {
      DecodedLength(CharsToSextets(Normalized(s)).value);
    }
  }

  lemma QuarterStep(m: nat)
    ensures (m + 4) % 4 == m % 4
    ensures (3 * (m + 4)) / 4 == (3 * m) / 4 + 3
  {
  }

  lemma {:induction false} DecodedLength(xs: seq<sextet>)
    requires |xs| % 4 != 1
    ensures |SextetsToBytes(xs)| == (3 * |xs|) / 4
    decreases |xs|
  {
    if |xs| >= 4 {
      var rest := xs[4..];
      QuarterStep(|rest|);
      assert |xs| == |rest| + 4;
      DecodedLength(rest);
      assert SextetsToBytes(xs) == DecodeGroup(xs[0], xs[1], xs[2], xs[3]) + SextetsToBytes(rest);
    }
  }
}
