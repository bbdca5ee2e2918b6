/** Bytes and the ASCII subset of UTF-8.

    Both stages of the leak decoder read a byte buffer as UTF-8 text. For
    bytes below 0x80 UTF-8 is the identity on code points, and every byte the
    decoder sees in a well-formed leak is of that kind, so the model reads and
    writes text only over ASCII.
 */
module Bytes {

  /** One octet. */
  type byte = x: int | 0 <= x < 256

  /** True when every byte is a one-byte UTF-8 sequence (ASCII). */
  predicate IsAsciiBytes(bs: seq<byte>) {
    forall i :: 0 <= i < |bs| ==> bs[i] < 128
  }

  /** True when every character is ASCII. */
  predicate IsAsciiText(s: string) {
    forall i :: 0 <= i < |s| ==> s[i] as int < 128
  }

  /** Reads an ASCII byte buffer as UTF-8 text: one character per byte, with
      the same code. */
  function AsciiDecode(bs: seq<byte>): (s: string)
    requires IsAsciiBytes(bs)
    ensures |s| == |bs|
    ensures forall i :: 0 <= i < |bs| ==> s[i] as int == bs[i]
    ensures IsAsciiText(s)
  {
    if |bs| == 0 then [] else [bs[0] as char] + AsciiDecode(bs[1..])
  }

  /** Writes ASCII text as UTF-8 bytes: one byte per character, with the same
      code. */
  function AsciiEncode(s: string): (bs: seq<byte>)
    requires IsAsciiText(s)
    ensures |bs| == |s|
    ensures forall i :: 0 <= i < |s| ==> bs[i] == s[i] as int
    ensures IsAsciiBytes(bs)
  {
    if |s| == 0 then [] else [s[0] as int as byte] + AsciiEncode(s[1..])
  }

  /** Reading back the bytes written for a text gives the text. */
  lemma DecodeEncode(s: string)
    requires IsAsciiText(s)
    ensures AsciiDecode(AsciiEncode(s)) == s
  {
    var t := AsciiDecode(AsciiEncode(s));
    assert forall i :: 0 <= i < |s| ==> t[i] == s[i];
  }

  /** Writing the text read from an ASCII buffer gives the buffer. */
  lemma EncodeDecode(bs: seq<byte>)
    requires IsAsciiBytes(bs)
    ensures AsciiEncode(AsciiDecode(bs)) == bs
  {
  }

  /** Reading text distributes over concatenation of buffers. */
  lemma DecodeAppend(a: seq<byte>, b: seq<byte>)
    requires IsAsciiBytes(a) && IsAsciiBytes(b)
    ensures IsAsciiBytes(a + b)
    ensures AsciiDecode(a + b) == AsciiDecode(a) + AsciiDecode(b)
  {
    assert IsAsciiBytes(a + b) by {
      forall i | 0 <= i < |a + b| ensures (a + b)[i] < 128 {
        if i >= |a| {
          assert (a + b)[i] == b[i - |a|];
        }
      }
    }
    var l, r := AsciiDecode(a + b), AsciiDecode(a) + AsciiDecode(b);
    forall i | 0 <= i < |l| ensures l[i] == r[i] {
      if i >= |a| {
        assert (a + b)[i] == b[i - |a|];
      }
    }
  }
}
