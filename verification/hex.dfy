/** Hexadecimal text as a byte buffer (`Buffer.from(digits, 'hex')`): each
    consecutive pair of digits is one byte, high nibble first. Digits may be
    upper or lower case; the encoder writes lower case, as the leaks are
    written.
 */
module Hex {
  import opened Bytes
  import opened Seqs

  /** True for the characters 0-9, a-f and A-F. */
  predicate IsHexDigit(c: char) {
    ('0' <= c <= '9') || ('a' <= c <= 'f') || ('A' <= c <= 'F')
  }

  /** True when every character is a hex digit. */
  predicate IsHexText(s: string) {
    forall i :: 0 <= i < |s| ==> IsHexDigit(s[i])
  }

  /** A digit stream that decodes to whole bytes. */
  predicate IsHexStream(s: string) {
    |s| % 2 == 0 && IsHexText(s)
  }

  /** True for the lower-case digits 0-9 and a-f. */
  predicate IsLowerHexDigit(c: char) {
    ('0' <= c <= '9') || ('a' <= c <= 'f')
  }

  /** The value of one digit; a letter and its upper-case form have the same
      value. */
  function DigitValue(c: char): (v: nat)
    requires IsHexDigit(c)
    ensures v < 16
    ensures '0' <= c <= '9' ==> v < 10
    ensures !('0' <= c <= '9') ==> 10 <= v
  {
    if '0' <= c <= '9' then (c - '0') as nat
    else if 'a' <= c <= 'f' then (c - 'a') as nat + 10
    else (c - 'A') as nat + 10
  }

  /** The lower-case digit for a value below 16. */
  function Digit(v: nat): (c: char)
    requires v < 16
    ensures IsLowerHexDigit(c) && IsHexDigit(c)
    ensures DigitValue(c) == v
  {
    if v < 10 then '0' + v as char else 'a' + (v - 10) as char
  }

  /** A lower-case digit is the digit written for its own value. */
  lemma DigitOfValue(c: char)
    requires IsLowerHexDigit(c)
    ensures Digit(DigitValue(c)) == c
  {
  }

  /** The digit with its letter, if any, in lower case. */
  function ToLower(c: char): (d: char)
    requires IsHexDigit(c)
    ensures IsLowerHexDigit(d)
    ensures DigitValue(d) == DigitValue(c)
  {
    if 'A' <= c <= 'F' then c - 'A' + 'a' else c
  }

  /** The byte written by the two digits `hi` and `lo`. */
  function PairValue(hi: char, lo: char): (b: byte)
    requires IsHexDigit(hi) && IsHexDigit(lo)
  {
    16 * DigitValue(hi) + DigitValue(lo)
  }

  /** Decodes a stream of 2n digits to its n bytes, in digit order. */
  function Decode(s: string): (bs: seq<byte>)
    requires IsHexStream(s)
    ensures |bs| == |s| / 2
    ensures forall i :: 0 <= i < |bs| ==>
      bs[i] == 16 * DigitValue(s[2 * i]) + DigitValue(s[2 * i + 1])
  {
    if |s| == 0 then []
    else [PairValue(s[0], s[1])] + Decode(s[2..])
  }

  /** The two lower-case digits of one byte. */
  function ByteDigits(b: byte): (s: string)
    ensures |s| == 2 && IsLowerHexDigit(s[0]) && IsLowerHexDigit(s[1])
    ensures 16 * DigitValue(s[0]) + DigitValue(s[1]) == b
  {
    [Digit(b / 16), Digit(b % 16)]
  }

  /** Encodes each byte as two lower-case digits, in byte order. */
  function Encode(bs: seq<byte>): (s: string)
    ensures |s| == 2 * |bs|
    ensures IsHexStream(s)
    ensures forall j :: 0 <= j < |s| ==> IsLowerHexDigit(s[j])
    ensures forall i :: 0 <= i < |bs| ==> s[2 * i .. 2 * i + 2] == ByteDigits(bs[i])
  {
    if |bs| == 0 then []
    else
      var rest := Encode(bs[1..]);
      var s := ByteDigits(bs[0]) + rest;
      assert forall i :: 1 <= i < |bs| ==> s[2 * i .. 2 * i + 2] == rest[2 * (i - 1) .. 2 * (i - 1) + 2];
      s
  }

  /** Decoding the digits written for a buffer gives back the buffer. */
  lemma {:induction false} DecodeEncode(bs: seq<byte>)
    ensures Decode(Encode(bs)) == bs
  {
    if |bs| > 0 {
      var s := Encode(bs);
      var d := ByteDigits(bs[0]);
      assert s == d + Encode(bs[1..]);
      assert s[2..] == Encode(bs[1..]);
      DecodeEncode(bs[1..]);
      assert Decode(s) == [PairValue(d[0], d[1])] + bs[1..];
    }
  }

  /** A pair of lower-case digits is what the encoder writes for its byte. */
  lemma PairDigits(hi: char, lo: char)
    requires IsLowerHexDigit(hi) && IsLowerHexDigit(lo)
    ensures ByteDigits(PairValue(hi, lo)) == [hi, lo]
  {
    var b := PairValue(hi, lo);
    assert b / 16 == DigitValue(hi) && b % 16 == DigitValue(lo);
    DigitOfValue(hi);
    DigitOfValue(lo);
  }

  /** Re-encoding a decoded lower-case stream gives back the stream. */
  lemma {:induction false} EncodeDecode(s: string)
    requires IsHexStream(s)
    requires forall i :: 0 <= i < |s| ==> IsLowerHexDigit(s[i])
    ensures Encode(Decode(s)) == s
  {
    if |s| > 0 {
      var bs := Decode(s);
      assert bs[1..] == Decode(s[2..]);
      EncodeDecode(s[2..]);
      PairDigits(s[0], s[1]);
      assert s == [s[0], s[1]] + s[2..];
    }
  }

  /** The stream with every letter digit in lower case: the lower-case
      stream with the same digit values, place by place. */
  function LowerCase(s: string): (t: string)
    requires IsHexText(s)
    ensures |t| == |s|
    ensures forall i :: 0 <= i < |s| ==> IsLowerHexDigit(t[i]) && DigitValue(t[i]) == DigitValue(s[i])
  {
    seq(|s|, i requires 0 <= i < |s| => ToLower(s[i]))
  }

  /** Upper- and lower-case digits decode alike. */
  lemma DecodeIgnoresCase(s: string)
    requires IsHexStream(s)
    ensures IsHexStream(LowerCase(s))
    ensures Decode(LowerCase(s)) == Decode(s)
  {
    var t := LowerCase(s);
    assert IsHexStream(t);
    var l, r := Decode(t), Decode(s);
    forall i | 0 <= i < |r| ensures l[i] == r[i] {
      assert DigitValue(t[2 * i]) == DigitValue(s[2 * i]);
      assert DigitValue(t[2 * i + 1]) == DigitValue(s[2 * i + 1]);
    }
  }

  /** Decoding distributes over concatenation of digit streams, so byte order
      follows digit order. */
  lemma {:induction false} DecodeAppend(s: string, t: string)
    requires IsHexStream(s) && IsHexStream(t)
    ensures IsHexStream(s + t)
    ensures Decode(s + t) == Decode(s) + Decode(t)
    decreases |s|
  {
    assert IsHexStream(s + t) by {
      forall i | 0 <= i < |s + t| ensures IsHexDigit((s + t)[i]) {
        if i >= |s| {
          assert (s + t)[i] == t[i - |s|];
        }
      }
    }
    if |s| == 0 {
      assert s + t == t;
    } else {
      var u := s + t;
      assert u[0] == s[0] && u[1] == s[1];
      assert u[2..] == s[2..] + t;
      DecodeAppend(s[2..], t);
      AppendAssoc([PairValue(s[0], s[1])], Decode(s[2..]), Decode(t));
    }
  }
}
