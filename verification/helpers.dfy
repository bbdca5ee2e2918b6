/** The leaked-credential decoder `leakToPrivateKey` of utils/helpers.js and
    the encoder that undoes it.

    A leak is a string of two-digit hex tokens separated by spaces. The
    decoder removes the spaces, hex-decodes the digits and reads the bytes as
    text, which gives base64 text; it then base64-decodes that text and reads
    the bytes as text, which gives the private key.
 */
module Helpers {
  import opened Bytes
  import opened Separators
  import Hex
  import Base64

  /** A leak whose separators strip off to an even run of hex digits that
      decode to ASCII bytes. */
  predicate IsHexLeak(leak: string) {
    var digits := StripSpaces(leak);
    Hex.IsHexStream(digits) && IsAsciiBytes(Hex.Decode(digits))
  }

  /** The first stage: the base64 text the leak's digits spell, one character
      per digit pair. */
  function LeakToBase64(leak: string): (text: string)
    requires IsHexLeak(leak)
    ensures |text| == |StripSpaces(leak)| / 2
    ensures forall i :: 0 <= i < |text| ==>
      text[i] as int == Hex.PairValue(StripSpaces(leak)[2 * i], StripSpaces(leak)[2 * i + 1])
  {
    AsciiDecode(Hex.Decode(StripSpaces(leak)))
  }

  /** A leak the decoder reads to the end: hex digits in pairs, ASCII bytes,
      well-formed base64 text, and an ASCII key. */
  predicate IsWellFormedLeak(leak: string) {
    && IsHexLeak(leak)
    && Base64.IsBase64(LeakToBase64(leak))
    && IsAsciiBytes(Base64.Decode(LeakToBase64(leak)))
  }

  /** `leakToPrivateKey`: the key a well-formed leak spells. Two hex digits
      make one base64 character, and each four base64 characters make three
      key characters, less one per trailing pad. */
  function LeakToPrivateKey(leak: string): (key: string)
    requires IsWellFormedLeak(leak)
    ensures IsAsciiText(key)
    ensures |StripSpaces(leak)| % 8 == 0
    ensures |key| == 3 * (|StripSpaces(leak)| / 8) - Base64.PadCount(LeakToBase64(leak))
  {
    var text := LeakToBase64(leak);
    PairsPerGroup(|StripSpaces(leak)|, |text|);
    AsciiDecode(Base64.Decode(text))
  }

  /** The leak written for base64 text bytes: each byte as two lower-case hex
      digits, the pairs joined by single spaces. */
  function TextLeak(text: seq<byte>): (leak: string)
    ensures StripSpaces(leak) == Hex.Encode(text)
    ensures |text| > 0 ==> |leak| == 3 * |text| - 1
  {
    var digits := Hex.Encode(text);
    PairsHaveNoSpace(digits);
    StripJoin(Pairs(digits));
    ConcatPairs(digits);
    JoinPairsLength(digits);
    JoinWithSpaces(Pairs(digits))
  }

  /** The leak written for a key: the key's base64 text, each character as two
      lower-case hex digits, the pairs joined by single spaces. */
  function PrivateKeyToLeak(key: string): (leak: string)
    requires IsAsciiText(key)
    ensures |StripSpaces(leak)| == 8 * ((|key| + 2) / 3)
    ensures forall i :: 0 <= i < |StripSpaces(leak)| ==> Hex.IsLowerHexDigit(StripSpaces(leak)[i])
    ensures |key| > 0 ==> |leak| == 3 * (4 * ((|key| + 2) / 3)) - 1
  {
    var text := Base64.Encode(AsciiEncode(key));
    var digits := Hex.Encode(AsciiEncode(text));
    var leak := TextLeak(AsciiEncode(text));
    PairsHaveNoSpace(digits);
    StripJoin(Pairs(digits));
    ConcatPairs(digits);
    JoinPairsLength(digits);
    var groups := (|key| + 2) / 3;
    assert |digits| == 2 * |text| == 8 * groups;
    assert |digits| / 2 == 4 * groups;
    leak
  }

  /** Two digits per character and four characters per group make eight
      digits per group. */
  lemma PairsPerGroup(digits: nat, chars: nat)
    requires digits % 2 == 0 && chars == digits / 2 && chars % 4 == 0
    ensures digits % 8 == 0 && digits / 8 == chars / 4
  {
  }

  /** Hex digits in pairs contain no separator. */
  lemma PairsHaveNoSpace(digits: string)
    requires Hex.IsHexStream(digits)
    ensures NoSpaceIn(Pairs(digits))
  {
    var ps := Pairs(digits);
    forall i | 0 <= i < |ps| ensures Space !in ps[i] {
      assert ps[i] == [digits[2 * i], digits[2 * i + 1]];
    }
  }

  /** Joining n > 0 pairs with single spaces gives 3n - 1 characters. */
  lemma {:induction false} JoinPairsLength(digits: string)
    requires |digits| % 2 == 0
    ensures |digits| > 0 ==> |JoinWithSpaces(Pairs(digits))| == 3 * (|digits| / 2) - 1
    decreases |digits|
  {
    if |digits| > 2 {
      var ps := Pairs(digits);
      assert ps[1..] == Pairs(digits[2..]);
      JoinPairsLength(digits[2..]);
    }
  }

  /** Round trip: the leak written for any ASCII key decodes to that key. */
  lemma KeyRoundTrip(key: string)
    requires IsAsciiText(key)
    ensures IsWellFormedLeak(PrivateKeyToLeak(key))
    ensures LeakToPrivateKey(PrivateKeyToLeak(key)) == key
  {
    var keyBytes := AsciiEncode(key);
    var text := Base64.Encode(keyBytes);
    var textBytes := AsciiEncode(text);
    var digits := Hex.Encode(textBytes);
    var leak := PrivateKeyToLeak(key);
    PairsHaveNoSpace(digits);
    StripJoin(Pairs(digits));
    ConcatPairs(digits);
    assert StripSpaces(leak) == digits;
    Hex.DecodeEncode(textBytes);
    DecodeEncode(text);
    assert LeakToBase64(leak) == text;
    Base64.DecodeEncode(keyBytes);
    DecodeEncode(key);
  }

  /** A leak as the encoder writes it: single spaces between pairs of
      lower-case digits, and base64 text whose padded group leaves zero
      bits. */
  predicate IsCanonicalLeak(leak: string) {
    && IsWellFormedLeak(leak)
    && (forall i :: 0 <= i < |StripSpaces(leak)| ==> Hex.IsLowerHexDigit(StripSpaces(leak)[i]))
    && leak == JoinWithSpaces(Pairs(StripSpaces(leak)))
    && Base64.IsCanonical(LeakToBase64(leak))
  }

  /** Round trip the other way: re-encoding the key of a canonical leak gives
      back the leak. */
  lemma LeakRoundTrip(leak: string)
    requires IsCanonicalLeak(leak)
    ensures PrivateKeyToLeak(LeakToPrivateKey(leak)) == leak
  {
    var digits := StripSpaces(leak);
    var textBytes := Hex.Decode(digits);
    var text := LeakToBase64(leak);
    var keyBytes := Base64.Decode(text);
    var key := LeakToPrivateKey(leak);
    EncodeDecode(keyBytes);
    assert AsciiEncode(key) == keyBytes;
    Base64.EncodeDecode(text);
    EncodeDecode(textBytes);
    assert AsciiEncode(text) == textBytes;
    Hex.EncodeDecode(digits);
  }

  /** The empty leak decodes to the empty key. */
  lemma EmptyLeak()
    ensures IsWellFormedLeak("")
    ensures LeakToPrivateKey("") == ""
  {
    assert StripSpaces("") == "";
  }

  /** Separators do not matter: any run of spaces put anywhere into a leak
      leaves it well-formed and leaves its key unchanged. */
  lemma SeparatorsIgnored(leak: string, i: nat, k: nat)
    requires IsWellFormedLeak(leak) && i <= |leak|
    ensures IsWellFormedLeak(leak[..i] + Spaces(k) + leak[i..])
    ensures LeakToPrivateKey(leak[..i] + Spaces(k) + leak[i..]) == LeakToPrivateKey(leak)
  {
    InsertSpaces(leak, i, k);
  }

  /** Letter case does not matter: a leak whose digits differ from those of a
      well-formed leak only in the case of their letters has the same key. */
  lemma CaseIgnored(leak: string, other: string)
    requires IsWellFormedLeak(leak)
    requires Hex.IsHexText(StripSpaces(other))
    requires Hex.LowerCase(StripSpaces(other)) == Hex.LowerCase(StripSpaces(leak))
    ensures IsWellFormedLeak(other)
    ensures LeakToPrivateKey(other) == LeakToPrivateKey(leak)
  {
    var a, b := StripSpaces(leak), StripSpaces(other);
    assert |b| == |Hex.LowerCase(b)| == |a|;
    assert Hex.IsHexStream(b);
    Hex.DecodeIgnoresCase(a);
    Hex.DecodeIgnoresCase(b);
    assert Hex.Decode(b) == Hex.Decode(a);
    assert IsHexLeak(other);
    assert LeakToBase64(other) == LeakToBase64(leak);
  }

  /** The digits of a leak, a space, and another leak, read as base64 text,
      are the first leak's text followed by the second's. */
  lemma HexStageAppend(a: string, b: string)
    requires IsHexLeak(a) && IsHexLeak(b)
    ensures IsHexLeak(a + [Space] + b)
    ensures LeakToBase64(a + [Space] + b) == LeakToBase64(a) + LeakToBase64(b)
  {
    var da, db := StripSpaces(a), StripSpaces(b);
    StripAroundSpace(a, b);
    Hex.DecodeAppend(da, db);
    DecodeAppend(Hex.Decode(da), Hex.Decode(db));
  }

  /** A leak whose base64 text has no padding, a space, and another leak
      decode to the first key followed by the second: the decoder works one
      group of four digit pairs at a time. */
  lemma LeakAppend(a: string, b: string)
    requires IsWellFormedLeak(a) && IsWellFormedLeak(b)
    requires Base64.PadCount(LeakToBase64(a)) == 0
    ensures IsWellFormedLeak(a + [Space] + b)
    ensures LeakToPrivateKey(a + [Space] + b) == LeakToPrivateKey(a) + LeakToPrivateKey(b)
    ensures Base64.PadCount(LeakToBase64(a + [Space] + b)) == Base64.PadCount(LeakToBase64(b))
  {
    HexStageAppend(a, b);
    var ta, tb := LeakToBase64(a), LeakToBase64(b);
    Base64.DecodeAppend(ta, tb);
    DecodeAppend(Base64.Decode(ta), Base64.Decode(tb));
  }
}
