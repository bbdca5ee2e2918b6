/** Base64 text as a byte buffer (`Buffer.from(text, 'base64')`), in the
    standard alphabet of section 4 of RFC 4648. Each group of four characters
    stands for a 24-bit value whose three bytes, most significant first, are
    the group's bytes; a final group ending in "=" or "==" stands for two or
    one bytes.
 */
module Base64 {
  import opened Bytes
  import opened Seqs

  const Pad: char := '='

  /** The 64 characters of the standard alphabet: A-Z, a-z, 0-9, '+' and '/'. */
  predicate IsAlphabet(c: char) {
    ('A' <= c <= 'Z') || ('a' <= c <= 'z') || ('0' <= c <= '9') || c == '+' || c == '/'
  }

  /** The 6-bit value of an alphabet character (table 1 of RFC 4648). */
  function Index(c: char): (v: nat)
    requires IsAlphabet(c)
    ensures v < 64
  {
    if 'A' <= c <= 'Z' then (c - 'A') as nat
    else if 'a' <= c <= 'z' then (c - 'a') as nat + 26
    else if '0' <= c <= '9' then (c - '0') as nat + 52
    else if c == '+' then 62
    else 63
  }

  /** The alphabet character of a 6-bit value. */
  function Char(v: nat): (c: char)
    requires v < 64
    ensures IsAlphabet(c)
    ensures Index(c) == v
  {
    if v < 26 then 'A' + v as char
    else if v < 52 then 'a' + (v - 26) as char
    else if v < 62 then '0' + (v - 52) as char
    else if v == 62 then '+'
    else '/'
  }

  /** Every alphabet character is the character of its own value. */
  lemma CharOfIndex(c: char)
    requires IsAlphabet(c)
    ensures Char(Index(c)) == c
  {
  }

  /** The number of trailing pad characters, at most two. */
  function PadCount(s: string): (p: nat)
    ensures p <= 2 && p <= |s|
    ensures forall i :: |s| - p <= i < |s| ==> s[i] == Pad
    ensures p < 2 && p < |s| ==> s[|s| - p - 1] != Pad
  {
    if |s| >= 2 && s[|s| - 2] == Pad && s[|s| - 1] == Pad then 2
    else if |s| >= 1 && s[|s| - 1] == Pad then 1
    else 0
  }

  /** Well-formed base64 text: whole groups of four characters, every
      character in the alphabet except at most two trailing pads. */
  predicate IsBase64(s: string) {
    && |s| % 4 == 0
    && forall i :: 0 <= i < |s| - PadCount(s) ==> IsAlphabet(s[i])
  }

  /** True when the bits a padded final group leaves over are zero, as the
      encoder writes them (section 3.5 of RFC 4648). */
  predicate IsCanonical(s: string)
    requires IsBase64(s)
  {
    && (PadCount(s) == 2 ==> Index(s[|s| - 3]) % 16 == 0)
    && (PadCount(s) == 1 ==> Index(s[|s| - 2]) % 4 == 0)
  }

  /** The 24-bit value of four 6-bit values, first one most significant. */
  function Value24(a: nat, b: nat, c: nat, d: nat): (n: nat)
    requires a < 64 && b < 64 && c < 64 && d < 64
    ensures n < 0x100_0000
  {
    ((a * 64 + b) * 64 + c) * 64 + d
  }

  /** The three bytes of a 24-bit value, most significant first. */
  function Bytes24(n: nat): (bs: seq<byte>)
    requires n < 0x100_0000
    ensures |bs| == 3
  {
    [n / 0x1_0000, n / 0x100 % 0x100, n % 0x100]
  }

  /** The value of a group character, a pad counting as zero bits. */
  function GroupIndex(c: char): (v: nat)
    requires IsAlphabet(c) || c == Pad
    ensures v < 64
  {
    if c == Pad then 0 else Index(c)
  }

  /** The 24-bit value of a group of four characters. */
  function GroupValue(g: string): (n: nat)
    requires |g| == 4 && IsBase64(g)
    ensures n < 0x100_0000
  {
    Value24(GroupIndex(g[0]), GroupIndex(g[1]), GroupIndex(g[2]), GroupIndex(g[3]))
  }

  /** The bytes of one group of four characters: three, or fewer by one per
      trailing pad. */
  function DecodeGroup(g: string): (bs: seq<byte>)
    requires |g| == 4 && IsBase64(g)
    ensures |bs| == 3 - PadCount(g)
  {
    Bytes24(GroupValue(g))[.. 3 - PadCount(g)]
  }

  /** The first group of longer well-formed text is unpadded, and the rest of
      the text is well-formed with the same padding. */
  lemma SplitFirstGroup(s: string)
    requires IsBase64(s) && |s| > 0
    ensures IsBase64(s[..4]) && IsBase64(s[4..])
    ensures |s| > 4 ==> PadCount(s[..4]) == 0 && PadCount(s[4..]) == PadCount(s)
    ensures |s| > 4 ==> forall i :: 0 <= i < 4 ==> IsAlphabet(s[..4][i])
    ensures |s| > 4 && IsCanonical(s) ==> IsCanonical(s[4..])
    ensures |s| == 4 ==> s[..4] == s
  {
    if |s| > 4 {
      assert s[..4][3] == s[3] && s[..4][2] == s[2];
      var t := s[4..];
      assert t[|t| - 1] == s[|s| - 1] && t[|t| - 2] == s[|s| - 2] && t[|t| - 3] == s[|s| - 3];
      assert forall i :: 0 <= i < |t| - PadCount(t) ==> t[i] == s[i + 4];
    }
  }

  /** Decodes well-formed base64 text: 4m characters give 3m bytes, less one
      per trailing pad, and each group gives its own bytes in order. */
  function Decode(s: string): (bs: seq<byte>)
    requires IsBase64(s)
    ensures |bs| == 3 * (|s| / 4) - PadCount(s)
    decreases |s|
  {
    if |s| == 0 then []
    else
      SplitFirstGroup(s);
      DecodeGroup(s[..4]) + Decode(s[4..])
  }

  /** The group of four characters that stands for three bytes. */
  function EncodeGroup(x: byte, y: byte, z: byte): (g: string)
    ensures |g| == 4
    ensures forall i :: 0 <= i < 4 ==> IsAlphabet(g[i])
  {
    [Char(x / 4), Char(x % 4 * 16 + y / 16), Char(y % 16 * 4 + z / 64), Char(z % 64)]
  }

  /** The final group for one byte left over: two characters, then two
      pads. */
  function EncodeFinal1(x: byte): (g: string)
    ensures |g| == 4 && IsBase64(g) && PadCount(g) == 2 && IsCanonical(g)
  {
    EncodeGroup(x, 0, 0)[..2] + [Pad, Pad]
  }

  /** The final group for two bytes left over: three characters, then one
      pad. */
  function EncodeFinal2(x: byte, y: byte): (g: string)
    ensures |g| == 4 && IsBase64(g) && PadCount(g) == 1 && IsCanonical(g)
  {
    EncodeGroup(x, y, 0)[..3] + [Pad]
  }

  /** Encodes bytes as canonical base64: each three bytes become a group of
      four characters; one or two bytes left over become a final group with
      two or one pads. */
  function Encode(bs: seq<byte>): (s: string)
    ensures |s| == 4 * ((|bs| + 2) / 3)
    ensures IsBase64(s)
    ensures PadCount(s) == (3 - |bs| % 3) % 3
    ensures IsCanonical(s)
    decreases |bs|
  {
    if |bs| == 0 then []
    else if |bs| == 1 then EncodeFinal1(bs[0])
    else if |bs| == 2 then EncodeFinal2(bs[0], bs[1])
    else
      var g, rest := EncodeGroup(bs[0], bs[1], bs[2]), Encode(bs[3..]);
      FullGroupPrefix(g, rest);
      assert (|bs| + 2) / 3 == (|bs| - 3 + 2) / 3 + 1;
      assert |bs| % 3 == (|bs| - 3) % 3;
      g + rest
  }

  /** An unpadded group in front of well-formed text keeps it well-formed and
      keeps its padding. */
  lemma FullGroupPrefix(g: string, t: string)
    requires |g| == 4 && forall i :: 0 <= i < 4 ==> IsAlphabet(g[i])
    requires IsBase64(t)
    ensures IsBase64(g + t)
    ensures PadCount(g + t) == PadCount(t)
    ensures IsCanonical(t) ==> IsCanonical(g + t)
  {
    var s := g + t;
    if |t| > 0 {
      assert s[|s| - 1] == t[|t| - 1] && s[|s| - 2] == t[|t| - 2] && s[|s| - 3] == t[|t| - 3];
    }
    forall i | 0 <= i < |s| - PadCount(s) ensures IsAlphabet(s[i]) {
      if i >= 4 {
        assert s[i] == t[i - 4];
      }
    }
  }

  /** The 24-bit value of three bytes, first one most significant. */
  function Join24(x: byte, y: byte, z: byte): (n: nat)
    ensures n < 0x100_0000
  {
    x as int * 0x1_0000 + y as int * 0x100 + z as int
  }

  /** The 6-bit digits written for three bytes make up the 24-bit value of
      the bytes. */
  lemma Digits24(x: byte, y: byte, z: byte)
    ensures Value24(x / 4, x % 4 * 16 + y / 16, y % 16 * 4 + z / 64, z % 64) == Join24(x, y, z)
  {
  }

  /** The three bytes of a value built from three bytes give back the bytes. */
  lemma BytesOf24(x: byte, y: byte, z: byte)
    ensures Bytes24(Join24(x, y, z)) == [x, y, z]
  {
    var hi := x as int * 0x100 + y as int;
    var n := hi * 0x100 + z as int;
    assert n == Join24(x, y, z);
    assert n % 0x100 == z && n / 0x100 == hi;
    assert hi % 0x100 == y && hi / 0x100 == x;
    assert n / 0x1_0000 == x;
  }

  /** The group of four 6-bit digits, each below 64 so each an alphabet
      character, decodes to the bytes of their 24-bit value. */
  lemma DecodeDigits(a: nat, b: nat, c: nat, d: nat)
    requires a < 64 && b < 64 && c < 64 && d < 64
    ensures var g := [Char(a), Char(b), Char(c), Char(d)];
      IsBase64(g) && PadCount(g) == 0 && DecodeGroup(g) == Bytes24(Value24(a, b, c, d))
  {
    var g := [Char(a), Char(b), Char(c), Char(d)];
    assert GroupIndex(g[0]) == a && GroupIndex(g[1]) == b;
    assert GroupIndex(g[2]) == c && GroupIndex(g[3]) == d;
  }

  /** Decoding the group written for three bytes gives back the bytes. */
  lemma DecodeEncodeGroup(x: byte, y: byte, z: byte)
    ensures IsBase64(EncodeGroup(x, y, z))
    ensures DecodeGroup(EncodeGroup(x, y, z)) == [x, y, z]
  {
    DecodeDigits(x / 4, x % 4 * 16 + y / 16, y % 16 * 4 + z / 64, z % 64);
    Digits24(x, y, z);
    BytesOf24(x, y, z);
  }

  /** Decoding the final group written for one byte gives back the byte. */
  lemma DecodeEncodeFinal1(x: byte)
    ensures DecodeGroup(EncodeFinal1(x)) == [x]
  {
    var g := EncodeFinal1(x);
    var a, b := x / 4, x % 4 * 16;
    assert GroupIndex(g[0]) == a && GroupIndex(g[1]) == b;
    assert GroupIndex(g[2]) == 0 && GroupIndex(g[3]) == 0;
    Digits24(x, 0, 0);
    BytesOf24(x, 0, 0);
  }

  /** Decoding the final group written for two bytes gives back the bytes. */
  lemma DecodeEncodeFinal2(x: byte, y: byte)
    ensures DecodeGroup(EncodeFinal2(x, y)) == [x, y]
  {
    var g := EncodeFinal2(x, y);
    var a, b, c := x / 4, x % 4 * 16 + y / 16, y % 16 * 4;
    assert GroupIndex(g[0]) == a && GroupIndex(g[1]) == b;
    assert GroupIndex(g[2]) == c && GroupIndex(g[3]) == 0;
    Digits24(x, y, 0);
    BytesOf24(x, y, 0);
  }

  /** Decoding text that starts with an unpadded group decodes that group,
      then the rest. */
  lemma DecodeCons(g: string, t: string)
    requires |g| == 4 && forall i :: 0 <= i < 4 ==> IsAlphabet(g[i])
    requires IsBase64(t)
    ensures IsBase64(g + t) && IsBase64(g)
    ensures Decode(g + t) == DecodeGroup(g) + Decode(t)
  {
    FullGroupPrefix(g, t);
    var s := g + t;
    assert s[..4] == g && s[4..] == t;
  }

  /** Text of one group decodes as that group. */
  lemma DecodeOneGroup(g: string)
    requires |g| == 4 && IsBase64(g)
    ensures Decode(g) == DecodeGroup(g)
  {
    assert g[..4] == g;
    assert g[4..] == [];
  }

  /** Decoding the text written for one byte gives back the byte. */
  lemma DecodeEncodeOne(x: byte)
    ensures Decode(Encode([x])) == [x]
  {
    var g := EncodeFinal1(x);
    assert Encode([x]) == g;
    DecodeOneGroup(g);
    DecodeEncodeFinal1(x);
  }

  /** Decoding the text written for two bytes gives back the bytes. */
  lemma DecodeEncodeTwo(x: byte, y: byte)
    ensures Decode(Encode([x, y])) == [x, y]
  {
    var g := EncodeFinal2(x, y);
    assert Encode([x, y]) == g;
    DecodeOneGroup(g);
    DecodeEncodeFinal2(x, y);
  }

  /** Decoding the base64 text written for any bytes gives back the bytes. */
  lemma {:induction false} DecodeEncode(bs: seq<byte>)
    ensures Decode(Encode(bs)) == bs
    decreases |bs|
  {
    if |bs| == 1 {
      assert bs == [bs[0]];
      DecodeEncodeOne(bs[0]);
    } else if |bs| == 2 {
      assert bs == [bs[0], bs[1]];
      DecodeEncodeTwo(bs[0], bs[1]);
    } else if |bs| >= 3 {
      assert bs == [bs[0], bs[1], bs[2]] + bs[3..];
      var g, rest := EncodeGroup(bs[0], bs[1], bs[2]), Encode(bs[3..]);
      assert Encode(bs) == g + rest;
      DecodeEncode(bs[3..]);
      DecodeCons(g, rest);
      DecodeEncodeGroup(bs[0], bs[1], bs[2]);
    }
  }

  /** A 24-bit value is its three bytes put back together. */
  lemma Split24(n: nat)
    requires n < 0x100_0000
    ensures var bs := Bytes24(n); Join24(bs[0], bs[1], bs[2]) == n
  {
  }

  /** Four 6-bit digits are determined by their 24-bit value. */
  lemma Value24Injective(a: nat, b: nat, c: nat, d: nat, a': nat, b': nat, c': nat, d': nat)
    requires a < 64 && b < 64 && c < 64 && d < 64
    requires a' < 64 && b' < 64 && c' < 64 && d' < 64
    requires Value24(a, b, c, d) == Value24(a', b', c', d')
    ensures a == a' && b == b' && c == c' && d == d'
  {
  }

  /** The three bytes of a group's value, cut back into 6-bit digits, give
      the values of the group's characters, a pad counting as zero. */
  lemma GroupDigits(g: string)
    requires |g| == 4 && IsBase64(g)
    ensures var bs := Bytes24(GroupValue(g));
      && bs[0] / 4 == GroupIndex(g[0])
      && bs[0] % 4 * 16 + bs[1] / 16 == GroupIndex(g[1])
      && bs[1] % 16 * 4 + bs[2] / 64 == GroupIndex(g[2])
      && bs[2] % 64 == GroupIndex(g[3])
  {
    var a, b, c, d := GroupIndex(g[0]), GroupIndex(g[1]), GroupIndex(g[2]), GroupIndex(g[3]);
    var n := GroupValue(g);
    var bs := Bytes24(n);
    var x, y, z := bs[0], bs[1], bs[2];
    Split24(n);
    Digits24(x, y, z);
    Value24Injective(x / 4, x % 4 * 16 + y / 16, y % 16 * 4 + z / 64, z % 64, a, b, c, d);
  }

  /** The bytes of a group of four alphabet characters, re-encoded, give back
      the group. */
  lemma EncodeDecodeGroup(g: string)
    requires |g| == 4 && forall i :: 0 <= i < 4 ==> IsAlphabet(g[i])
    ensures IsBase64(g) && PadCount(g) == 0
    ensures var bs := DecodeGroup(g); |bs| == 3 && EncodeGroup(bs[0], bs[1], bs[2]) == g
  {
    assert IsBase64(g) && PadCount(g) == 0;
    GroupDigits(g);
    CharOfIndex(g[0]);
    CharOfIndex(g[1]);
    CharOfIndex(g[2]);
    CharOfIndex(g[3]);
  }

  /** The digits written for the byte of a canonical final group with two
      pads are the group's two characters. */
  lemma Final1Digits(g: string)
    requires |g| == 4 && IsBase64(g) && PadCount(g) == 2 && IsCanonical(g)
    ensures var x := Bytes24(GroupValue(g))[0];
      && DecodeGroup(g) == [x]
      && EncodeGroup(x, 0, 0)[0] == g[0] && EncodeGroup(x, 0, 0)[1] == g[1]
  {
    var x := Bytes24(GroupValue(g))[0];
    assert IsAlphabet(g[0]) && IsAlphabet(g[1]);
    GroupDigits(g);
    assert x % 4 * 16 == Index(g[1]);
    CharOfIndex(g[0]);
    CharOfIndex(g[1]);
  }

  /** The byte of a canonical final group with two pads, re-encoded, gives
      back the group. */
  lemma EncodeDecodeFinal1(g: string)
    requires |g| == 4 && IsBase64(g) && PadCount(g) == 2 && IsCanonical(g)
    ensures var bs := DecodeGroup(g); |bs| == 1 && EncodeFinal1(bs[0]) == g
  {
    var x := Bytes24(GroupValue(g))[0];
    Final1Digits(g);
    var e := EncodeGroup(x, 0, 0);
    assert EncodeFinal1(x) == [e[0], e[1], Pad, Pad];
    assert g == [g[0], g[1], Pad, Pad];
  }

  /** The digits written for the bytes of a canonical final group with one
      pad are the group's three characters. */
  lemma Final2Digits(g: string)
    requires |g| == 4 && IsBase64(g) && PadCount(g) == 1 && IsCanonical(g)
    ensures var full := Bytes24(GroupValue(g));
      && DecodeGroup(g) == [full[0], full[1]]
      && EncodeGroup(full[0], full[1], 0)[0] == g[0]
      && EncodeGroup(full[0], full[1], 0)[1] == g[1]
      && EncodeGroup(full[0], full[1], 0)[2] == g[2]
  {
    var full := Bytes24(GroupValue(g));
    var y := full[1];
    assert IsAlphabet(g[0]) && IsAlphabet(g[1]) && IsAlphabet(g[2]);
    GroupDigits(g);
    assert y % 16 * 4 == Index(g[2]);
    CharOfIndex(g[0]);
    CharOfIndex(g[1]);
    CharOfIndex(g[2]);
  }

  /** The bytes of a canonical final group with one pad, re-encoded, give back
      the group. */
  lemma EncodeDecodeFinal2(g: string)
    requires |g| == 4 && IsBase64(g) && PadCount(g) == 1 && IsCanonical(g)
    ensures var bs := DecodeGroup(g); |bs| == 2 && EncodeFinal2(bs[0], bs[1]) == g
  {
    var full := Bytes24(GroupValue(g));
    var x, y := full[0], full[1];
    Final2Digits(g);
    var e := EncodeGroup(x, y, 0);
    assert EncodeFinal2(x, y) == [e[0], e[1], e[2], Pad];
    assert g == [g[0], g[1], g[2], Pad];
  }

  /** Re-encoding the bytes of one canonical group gives back the group. */
  lemma EncodeDecodeOneGroup(s: string)
    requires |s| == 4 && IsBase64(s) && IsCanonical(s)
    ensures Encode(Decode(s)) == s
  {
    DecodeOneGroup(s);
    var bs := DecodeGroup(s);
    if PadCount(s) == 0 {
      EncodeDecodeGroup(s);
      assert Encode(bs) == EncodeGroup(bs[0], bs[1], bs[2]) + Encode(bs[3..]);
      assert bs[3..] == [];
    } else if PadCount(s) == 1 {
      EncodeDecodeFinal2(s);
    } else {
      EncodeDecodeFinal1(s);
    }
  }

  /** Encoding three bytes and more encodes the three as a group, then the
      rest. */
  lemma EncodeCons(head: seq<byte>, rest: seq<byte>)
    requires |head| == 3
    ensures Encode(head + rest) == EncodeGroup(head[0], head[1], head[2]) + Encode(rest)
  {
    var bs := head + rest;
    assert bs[0] == head[0] && bs[1] == head[1] && bs[2] == head[2];
    assert bs[3..] == rest;
  }

  /** Re-encoding the bytes of canonical base64 text gives back the text. */
  lemma {:induction false} EncodeDecode(s: string)
    requires IsBase64(s) && IsCanonical(s)
    ensures Encode(Decode(s)) == s
    decreases |s|
  {
    if |s| == 4 {
      EncodeDecodeOneGroup(s);
    } else if |s| > 4 {
      var g, t := s[..4], s[4..];
      assert g + t == s;
      SplitFirstGroup(s);
      EncodeDecodeGroup(g);
      EncodeDecode(t);
      var head := DecodeGroup(g);
      assert Decode(s) == head + Decode(t);
      EncodeCons(head, Decode(t));
    }
  }

  /** Unpadded text in front of well-formed text keeps it well-formed and
      keeps its padding. */
  lemma UnpaddedPrefix(s: string, t: string)
    requires IsBase64(s) && PadCount(s) == 0 && IsBase64(t)
    ensures IsBase64(s + t) && PadCount(s + t) == PadCount(t)
  {
    var u := s + t;
    if |t| == 0 {
      assert u == s;
    } else {
      assert u[|u| - 1] == t[|t| - 1];
      if |t| >= 2 {
        assert u[|u| - 2] == t[|t| - 2];
      }
      forall i | 0 <= i < |u| - PadCount(u) ensures IsAlphabet(u[i]) {
        if i >= |s| {
          assert u[i] == t[i - |s|];
        }
      }
    }
  }

  /** Unpadded text splits into an unpadded first group and unpadded rest. */
  lemma UnpaddedSplit(s: string)
    requires IsBase64(s) && PadCount(s) == 0 && |s| > 0
    ensures s[..4] + s[4..] == s
    ensures forall i :: 0 <= i < 4 ==> IsAlphabet(s[..4][i])
    ensures IsBase64(s[4..]) && PadCount(s[4..]) == 0
  {
    SplitFirstGroup(s);
    if |s| == 4 {
      assert s[4..] == [];
    }
  }

  /** One inductive step of `DecodeAppend`: an unpadded group in front of
      both sides keeps decoding distributive. */
  lemma DecodeAppendStep(g: string, rest: string, t: string)
    requires |g| == 4 && forall i :: 0 <= i < 4 ==> IsAlphabet(g[i])
    requires IsBase64(rest) && IsBase64(t) && IsBase64(rest + t)
    requires Decode(rest + t) == Decode(rest) + Decode(t)
    ensures IsBase64(g + rest) && IsBase64(g + rest + t)
    ensures Decode(g + rest + t) == Decode(g + rest) + Decode(t)
  {
    var u := rest + t;
    AppendAssoc(g, rest, t);
    DecodeCons(g, u);
    DecodeCons(g, rest);
    AppendAssoc(DecodeGroup(g), Decode(rest), Decode(t));
  }

  /** Decoding distributes over concatenation when the first text has no
      padding, so groups decode in order. */
  lemma {:induction false} DecodeAppend(s: string, t: string)
    requires IsBase64(s) && PadCount(s) == 0 && IsBase64(t)
    ensures IsBase64(s + t) && PadCount(s + t) == PadCount(t)
    ensures Decode(s + t) == Decode(s) + Decode(t)
    decreases |s|
  {
    UnpaddedPrefix(s, t);
    if |s| == 0 {
      assert s + t == t;
    } else {
      var g, rest := s[..4], s[4..];
      UnpaddedSplit(s);
      DecodeAppend(rest, t);
      DecodeAppendStep(g, rest, t);
      assert s + t == g + rest + t;
    }
  }
}
