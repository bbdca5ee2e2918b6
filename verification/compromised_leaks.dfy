/** The two leaked strings of the Compromised challenge
    (test/compromised/compromised.challenge.js) and the keys they decode to.

    Each leak is 88 two-digit lower-case hex tokens separated by single
    spaces. The model writes a leak as the 88 bytes its tokens spell, split
    into 22 groups of four (one group per four base64 characters), and
    renders the tokens with `Hex.Encode`, which writes each byte as the two
    lower-case digits the leak shows. The key is written as its 22 pieces of
    three characters, one piece per group. Each group is checked on its own;
    the lemmas below put the groups together.
 */
module CompromisedLeaks {
  import opened Bytes
  import opened Separators
  import Hex
  import Base64
  import opened Helpers

  /** The tokens of a leak written by `TextLeak`: one per text byte. */
  function Tokens(text: seq<byte>): (tokens: seq<string>)
    ensures |tokens| == |text|
    ensures forall i :: 0 <= i < |text| ==> tokens[i] == Hex.ByteDigits(text[i])
  {
    Pairs(Hex.Encode(text))
  }

  /** The first stage reads the tokens of such a leak back as the text. */
  lemma TextLeakStage(text: seq<byte>)
    requires IsAsciiBytes(text)
    ensures IsHexLeak(TextLeak(text))
    ensures LeakToBase64(TextLeak(text)) == AsciiDecode(text)
  {
    var digits := Hex.Encode(text);
    PairsHaveNoSpace(digits);
    StripJoin(Pairs(digits));
    ConcatPairs(digits);
    Hex.DecodeEncode(text);
  }

  /** Four base64 alphabet characters. */
  predicate IsAlphabetGroup(group: seq<byte>) {
    && |group| == 4
    && Base64.IsAlphabet(group[0] as char) && Base64.IsAlphabet(group[1] as char)
    && Base64.IsAlphabet(group[2] as char) && Base64.IsAlphabet(group[3] as char)
  }

  /** Four text bytes, all base64 alphabet characters, whose group stands for
      the three ASCII characters of `piece`. */
  predicate GroupSpells(group: seq<byte>, piece: string) {
    && IsAlphabetGroup(group) && |piece| == 3
    && piece[0] as int < 128 && piece[1] as int < 128 && piece[2] as int < 128
    && Base64.Value24(
         Base64.Index(group[0] as char), Base64.Index(group[1] as char),
         Base64.Index(group[2] as char), Base64.Index(group[3] as char))
       == Base64.Join24(piece[0] as int, piece[1] as int, piece[2] as int)
  }

  /** Each group spells the piece in the same place. */
  predicate GroupsSpell(groups: seq<seq<byte>>, pieces: seq<string>) {
    && |groups| == |pieces|
    && forall k :: 0 <= k < |groups| ==> GroupSpells(groups[k], pieces[k])
  }

  /** The groups' bytes, one group after the other. */
  function Flatten(groups: seq<seq<byte>>): (text: seq<byte>)
  {
    if |groups| == 0 then [] else groups[0] + Flatten(groups[1..])
  }

  /** Four alphabet bytes, read as text, are one unpadded base64 group. */
  lemma AlphabetText(group: seq<byte>)
    requires IsAlphabetGroup(group)
    ensures IsAsciiBytes(group)
    ensures AsciiDecode(group) == [group[0] as char, group[1] as char, group[2] as char, group[3] as char]
    ensures forall i :: 0 <= i < 4 ==> Base64.IsAlphabet(AsciiDecode(group)[i])
    ensures Base64.IsBase64(AsciiDecode(group)) && Base64.PadCount(AsciiDecode(group)) == 0
  {
    var t := AsciiDecode(group);
    assert t == [group[0] as char, group[1] as char, group[2] as char, group[3] as char];
  }

  /** One group, read as text, is an unpadded base64 group whose 24-bit
      value joins the piece's character codes. */
  lemma GroupAsText(group: seq<byte>, piece: string)
    requires GroupSpells(group, piece)
    ensures IsAsciiBytes(group)
    ensures |AsciiDecode(group)| == 4
    ensures forall i :: 0 <= i < 4 ==> Base64.IsAlphabet(AsciiDecode(group)[i])
    ensures Base64.IsBase64(AsciiDecode(group)) && Base64.PadCount(AsciiDecode(group)) == 0
    ensures Base64.GroupValue(AsciiDecode(group)) == Base64.Join24(piece[0] as int, piece[1] as int, piece[2] as int)
  {
    AlphabetText(group);
    var t := AsciiDecode(group);
    assert Base64.GroupIndex(t[0]) == Base64.Index(group[0] as char);
    assert Base64.GroupIndex(t[1]) == Base64.Index(group[1] as char);
    assert Base64.GroupIndex(t[2]) == Base64.Index(group[2] as char);
    assert Base64.GroupIndex(t[3]) == Base64.Index(group[3] as char);
  }

  /** One group, read as text, decodes to the piece's character codes. */
  lemma GroupBytes(group: seq<byte>, piece: string)
    requires GroupSpells(group, piece)
    ensures IsAsciiBytes(group)
    ensures |AsciiDecode(group)| == 4
    ensures forall i :: 0 <= i < 4 ==> Base64.IsAlphabet(AsciiDecode(group)[i])
    ensures Base64.IsBase64(AsciiDecode(group))
    ensures Base64.DecodeGroup(AsciiDecode(group)) == [piece[0] as int, piece[1] as int, piece[2] as int]
  {
    GroupAsText(group, piece);
    Base64.BytesOf24(piece[0] as int, piece[1] as int, piece[2] as int);
  }

  /** One group, read as text, decodes to the piece. */
  lemma GroupDecodes(group: seq<byte>, piece: string)
    requires GroupSpells(group, piece)
    ensures IsAsciiBytes(group)
    ensures |AsciiDecode(group)| == 4
    ensures forall i :: 0 <= i < 4 ==> Base64.IsAlphabet(AsciiDecode(group)[i])
    ensures Base64.IsBase64(AsciiDecode(group))
    ensures IsAsciiBytes(Base64.DecodeGroup(AsciiDecode(group)))
    ensures AsciiDecode(Base64.DecodeGroup(AsciiDecode(group))) == piece
  {
    GroupBytes(group, piece);
    var p := AsciiDecode(Base64.DecodeGroup(AsciiDecode(group)));
    assert p == [piece[0], piece[1], piece[2]];
  }

  /** Spelling groups split into the first group and the rest. */
  lemma GroupsSpellTail(groups: seq<seq<byte>>, pieces: seq<string>)
    requires GroupsSpell(groups, pieces) && |groups| > 0
    ensures GroupSpells(groups[0], pieces[0])
    ensures GroupsSpell(groups[1..], pieces[1..])
  {
    forall k | 0 <= k < |groups| - 1 ensures GroupSpells(groups[1..][k], pieces[1..][k]) {
      assert groups[1..][k] == groups[k + 1];
    }
  }

  /** An unpadded group in front of unpadded text decodes first and leaves
      the text unpadded. */
  lemma UnpaddedCons(g: string, t: string)
    requires |g| == 4 && forall i :: 0 <= i < 4 ==> Base64.IsAlphabet(g[i])
    requires Base64.IsBase64(t) && Base64.PadCount(t) == 0
    ensures Base64.IsBase64(g) && Base64.IsBase64(g + t) && Base64.PadCount(g + t) == 0
    ensures Base64.Decode(g + t) == Base64.DecodeGroup(g) + Base64.Decode(t)
  {
    Base64.DecodeCons(g, t);
    var s := g + t;
    if |t| == 0 {
      assert s == g;
    } else {
      assert s[|s| - 1] == t[|t| - 1];
    }
  }

  /** Groups that spell the pieces, read as text, are unpadded base64 text
      that decodes to the pieces run together. */
  lemma {:induction false} GroupsDecode(groups: seq<seq<byte>>, pieces: seq<string>)
    requires GroupsSpell(groups, pieces)
    ensures |Flatten(groups)| == 4 * |groups|
    ensures IsAsciiBytes(Flatten(groups))
    ensures Base64.IsBase64(AsciiDecode(Flatten(groups)))
    ensures Base64.PadCount(AsciiDecode(Flatten(groups))) == 0
    ensures IsAsciiBytes(Base64.Decode(AsciiDecode(Flatten(groups))))
    ensures AsciiDecode(Base64.Decode(AsciiDecode(Flatten(groups)))) == Concat(pieces)
    decreases |groups|
  {
    if |groups| > 0 {
      var g, rest := groups[0], Flatten(groups[1..]);
      GroupsSpellTail(groups, pieces);
      GroupDecodes(g, pieces[0]);
      GroupsDecode(groups[1..], pieces[1..]);
      assert Flatten(groups) == g + rest;
      Bytes.DecodeAppend(g, rest);
      var tg, tr := AsciiDecode(g), AsciiDecode(rest);
      UnpaddedCons(tg, tr);
      Bytes.DecodeAppend(Base64.DecodeGroup(tg), Base64.Decode(tr));
    }
  }

  /** The leak written for groups that spell the pieces is well-formed and
      unpadded, and decodes to the pieces run together. */
  lemma GroupsLeak(groups: seq<seq<byte>>, pieces: seq<string>)
    requires GroupsSpell(groups, pieces)
    ensures IsWellFormedLeak(TextLeak(Flatten(groups)))
    ensures |Tokens(Flatten(groups))| == 4 * |groups|
    ensures |LeakToBase64(TextLeak(Flatten(groups)))| == 4 * |groups|
    ensures Base64.PadCount(LeakToBase64(TextLeak(Flatten(groups)))) == 0
    ensures LeakToPrivateKey(TextLeak(Flatten(groups))) == Concat(pieces)
  {
    GroupsDecode(groups, pieces);
    TextLeakStage(Flatten(groups));
  }

  /** Pieces of three characters run together: three characters per piece,
      each in its place. */
  lemma {:induction false} ConcatPieces(pieces: seq<string>)
    requires forall k :: 0 <= k < |pieces| ==> |pieces[k]| == 3
    ensures |Concat(pieces)| == 3 * |pieces|
    ensures forall i :: 0 <= i < |Concat(pieces)| ==> Concat(pieces)[i] == pieces[i / 3][i % 3]
  {
    if |pieces| > 0 {
      ConcatPieces(pieces[1..]);
      var s, rest := Concat(pieces), Concat(pieces[1..]);
      forall i | 0 <= i < |s| ensures s[i] == pieces[i / 3][i % 3] {
        if i >= 3 {
          assert s[i] == rest[i - 3];
          assert (i - 3) / 3 == i / 3 - 1 && (i - 3) % 3 == i % 3;
        }
      }
    }
  }

  /** The shape of the challenge's keys: "0x" and 64 lower-case hex digits. */
  predicate IsHexPrivateKey(key: string) {
    && |key| == 66
    && key[..2] == "0x"
    && forall i :: 2 <= i < 66 ==> Hex.IsLowerHexDigit(key[i])
  }

  /** A piece of three lower-case hex digits. */
  predicate IsHexPiece(p: string) {
    |p| == 3 && Hex.IsLowerHexDigit(p[0]) && Hex.IsLowerHexDigit(p[1]) && Hex.IsLowerHexDigit(p[2])
  }

  /** Twenty-two pieces, the first "0x" and a digit and the others three
      digits each, run together to a key of the challenge's shape. */
  lemma KeyShape(pieces: seq<string>)
    requires |pieces| == 22
    requires |pieces[0]| == 3 && pieces[0][..2] == "0x" && Hex.IsLowerHexDigit(pieces[0][2])
    requires forall k :: 1 <= k < 22 ==> IsHexPiece(pieces[k])
    ensures IsHexPrivateKey(Concat(pieces))
  {
    ConcatPieces(pieces);
    var key := Concat(pieces);
    assert key[0] == pieces[0][0] && key[1] == pieces[0][1];
    assert key[..2] == pieces[0][..2];
  }

  /** The first six characters of a key are its first two pieces. */
  lemma PiecesPrefix(pieces: seq<string>)
    requires |pieces| >= 2 && |pieces[0]| == 3 && |pieces[1]| == 3
    ensures |Concat(pieces)| >= 6
    ensures Concat(pieces)[..6] == pieces[0] + pieces[1]
  {
    assert Concat(pieces) == pieces[0] + (pieces[1] + Concat(pieces[2..]));
  }

  /** Twenty-two groups that spell twenty-two pieces of the key shape make a
      leak of the challenge's shape: 88 tokens, 88 base64 characters without
      padding, and a key of "0x" and 64 hex digits that starts with the first
      two pieces. */
  lemma ChallengeShape(groups: seq<seq<byte>>, pieces: seq<string>)
    requires GroupsSpell(groups, pieces) && |groups| == 22
    requires |pieces[0]| == 3 && pieces[0][..2] == "0x" && Hex.IsLowerHexDigit(pieces[0][2])
    requires forall k :: 1 <= k < 22 ==> IsHexPiece(pieces[k])
    ensures IsWellFormedLeak(TextLeak(Flatten(groups)))
    ensures |Tokens(Flatten(groups))| == 88
    ensures |LeakToBase64(TextLeak(Flatten(groups)))| == 88
    ensures Base64.PadCount(LeakToBase64(TextLeak(Flatten(groups)))) == 0
    ensures IsHexPrivateKey(LeakToPrivateKey(TextLeak(Flatten(groups))))
    ensures LeakToPrivateKey(TextLeak(Flatten(groups)))[..6] == pieces[0] + pieces[1]
  {
    GroupsLeak(groups, pieces);
    KeyShape(pieces);
    PiecesPrefix(pieces);
  }

  /** The first leak's tokens as bytes, in its 22 groups of four. */
  const Leak1Groups: seq<seq<byte>> := [
    [0x4d, 0x48, 0x68, 0x6a], [0x4e, 0x6a, 0x63, 0x34], [0x5a, 0x57, 0x59, 0x78],
    [0x59, 0x57, 0x45, 0x30], [0x4e, 0x54, 0x5a, 0x6b], [0x59, 0x54, 0x59, 0x31],
    [0x59, 0x7a, 0x5a, 0x6d], [0x59, 0x7a, 0x55, 0x34], [0x4e, 0x6a, 0x46, 0x6b],
    [0x4e, 0x44, 0x51, 0x34], [0x4f, 0x54, 0x4a, 0x6a], [0x5a, 0x47, 0x5a, 0x68],
    [0x59, 0x7a, 0x42, 0x6a], [0x4e, 0x6d, 0x4d, 0x34], [0x59, 0x7a, 0x49, 0x31],
    [0x4e, 0x6a, 0x42, 0x69], [0x5a, 0x6a, 0x42, 0x6a], [0x4f, 0x57, 0x5a, 0x69],
    [0x59, 0x32, 0x52, 0x68], [0x5a, 0x54, 0x4a, 0x6d], [0x4e, 0x44, 0x63, 0x7a],
    [0x4e, 0x57, 0x45, 0x35]
  ]

  /** The key the first leak encodes, three characters per group. */
  const Key1Pieces: seq<string> := [
    "0xc", "678", "ef1", "aa4", "56d", "a65", "c6f", "c58", "61d", "448", "92c",
    "dfa", "c0c", "6c8", "c25", "60b", "f0c", "9fb", "cda", "e2f", "473", "5a9"
  ]

  /** The second leak's tokens as bytes, in its 22 groups of four. */
  const Leak2Groups: seq<seq<byte>> := [
    [0x4d, 0x48, 0x67, 0x79], [0x4d, 0x44, 0x67, 0x79], [0x4e, 0x44, 0x4a, 0x6a],
    [0x4e, 0x44, 0x42, 0x68], [0x59, 0x32, 0x52, 0x6d], [0x59, 0x54, 0x6c, 0x6c],
    [0x5a, 0x44, 0x67, 0x34], [0x4f, 0x57, 0x55, 0x32], [0x4f, 0x44, 0x56, 0x6a],
    [0x4d, 0x6a, 0x4d, 0x31], [0x4e, 0x44, 0x64, 0x68], [0x59, 0x32, 0x4a, 0x6c],
    [0x5a, 0x44, 0x6c, 0x69], [0x5a, 0x57, 0x5a, 0x6a], [0x4e, 0x6a, 0x41, 0x7a],
    [0x4e, 0x7a, 0x46, 0x6c], [0x4f, 0x54, 0x67, 0x33], [0x4e, 0x57, 0x5a, 0x69],
    [0x59, 0x32, 0x51, 0x33], [0x4d, 0x7a, 0x59, 0x7a], [0x4e, 0x44, 0x42, 0x69],
    [0x59, 0x6a, 0x51, 0x34]
  ]

  /** The key the second leak encodes, three characters per group. */
  const Key2Pieces: seq<string> := [
    "0x2", "082", "42c", "40a", "cdf", "a9e", "d88", "9e6", "85c", "235", "47a",
    "cbe", "d9b", "efc", "603", "71e", "987", "5fb", "cd7", "363", "40b", "b48"
  ]


  // The groups are checked three at a time: each check evaluates the
  // concrete bytes, and larger batches cost the solver far more.
  /** Groups 0 to 2 of the first leak spell their pieces. */
  lemma Leak1Groups0To2()
    ensures forall k :: 0 <= k < 3 ==> GroupSpells(Leak1Groups[k], Key1Pieces[k])
  {
  }

  /** Groups 3 to 5 of the first leak spell their pieces. */
  lemma Leak1Groups3To5()
    ensures forall k :: 3 <= k < 6 ==> GroupSpells(Leak1Groups[k], Key1Pieces[k])
  {
  }

  /** Groups 6 to 8 of the first leak spell their pieces. */
  lemma Leak1Groups6To8()
    ensures forall k :: 6 <= k < 9 ==> GroupSpells(Leak1Groups[k], Key1Pieces[k])
  {
  }

  /** Groups 9 to 11 of the first leak spell their pieces. */
  lemma Leak1Groups9To11()
    ensures forall k :: 9 <= k < 12 ==> GroupSpells(Leak1Groups[k], Key1Pieces[k])
  {
  }

  /** Groups 12 to 14 of the first leak spell their pieces. */
  lemma Leak1Groups12To14()
    ensures forall k :: 12 <= k < 15 ==> GroupSpells(Leak1Groups[k], Key1Pieces[k])
  {
  }

  /** Groups 15 to 17 of the first leak spell their pieces. */
  lemma Leak1Groups15To17()
    ensures forall k :: 15 <= k < 18 ==> GroupSpells(Leak1Groups[k], Key1Pieces[k])
  {
  }

  /** Groups 18 to 20 of the first leak spell their pieces. */
  lemma Leak1Groups18To20()
    ensures forall k :: 18 <= k < 21 ==> GroupSpells(Leak1Groups[k], Key1Pieces[k])
  {
  }

  /** Group 21 of the first leak spells its piece. */
  lemma Leak1Group21()
    ensures forall k :: 21 <= k < 22 ==> GroupSpells(Leak1Groups[k], Key1Pieces[k])
  {
  }

  /** Every group of the first leak spells its piece. */
  lemma Leak1Spells()
    ensures GroupsSpell(Leak1Groups, Key1Pieces)
  {
    Leak1Groups0To2();
    Leak1Groups3To5();
    Leak1Groups6To8();
    Leak1Groups9To11();
    Leak1Groups12To14();
    Leak1Groups15To17();
    Leak1Groups18To20();
    Leak1Group21();
  }

  /** The first leak as the challenge writes it: 88 tokens of two lower-case
      hex digits, single spaces between them. */
  const Leak1: string := TextLeak(Flatten(Leak1Groups))

  /** The first leak is well-formed and decodes, group by group, to the
      pieces of its key. */
  lemma Leak1Decodes()
    ensures IsWellFormedLeak(Leak1)
    ensures LeakToPrivateKey(Leak1) == Concat(Key1Pieces)
  {
    Leak1Spells();
    GroupsLeak(Leak1Groups, Key1Pieces);
  }

  /** The pieces of the first key: "0x" and a digit, then 21 pieces of three
      digits, the first two spelling "0xc678". */
  lemma Key1PiecesShape()
    ensures |Key1Pieces| == 22
    ensures |Key1Pieces[0]| == 3 && Key1Pieces[0][..2] == "0x" && Hex.IsLowerHexDigit(Key1Pieces[0][2])
    ensures forall k :: 1 <= k < 22 ==> IsHexPiece(Key1Pieces[k])
    ensures Key1Pieces[0] + Key1Pieces[1] == "0xc678"
  {
  }

  /** The first leak has the challenge's shape: 88 tokens, 88 base64
      characters without padding, and a key of "0x" and 64 hex digits that
      starts "0xc678". */
  lemma Leak1Shape()
    ensures IsWellFormedLeak(Leak1)
    ensures |Tokens(Flatten(Leak1Groups))| == 88
    ensures |LeakToBase64(Leak1)| == 88 && Base64.PadCount(LeakToBase64(Leak1)) == 0
    ensures IsHexPrivateKey(LeakToPrivateKey(Leak1))
    ensures LeakToPrivateKey(Leak1)[..6] == "0xc678"
  {
    Leak1Spells();
    Key1PiecesShape();
    ChallengeShape(Leak1Groups, Key1Pieces);
  }

  /** Groups 0 to 2 of the second leak spell their pieces. */
  lemma Leak2Groups0To2()
    ensures forall k :: 0 <= k < 3 ==> GroupSpells(Leak2Groups[k], Key2Pieces[k])
  {
  }

  /** Groups 3 to 5 of the second leak spell their pieces. */
  lemma Leak2Groups3To5()
    ensures forall k :: 3 <= k < 6 ==> GroupSpells(Leak2Groups[k], Key2Pieces[k])
  {
  }

  /** Groups 6 to 8 of the second leak spell their pieces. */
  lemma Leak2Groups6To8()
    ensures forall k :: 6 <= k < 9 ==> GroupSpells(Leak2Groups[k], Key2Pieces[k])
  {
  }

  /** Groups 9 to 11 of the second leak spell their pieces. */
  lemma Leak2Groups9To11()
    ensures forall k :: 9 <= k < 12 ==> GroupSpells(Leak2Groups[k], Key2Pieces[k])
  {
  }

  /** Groups 12 to 14 of the second leak spell their pieces. */
  lemma Leak2Groups12To14()
    ensures forall k :: 12 <= k < 15 ==> GroupSpells(Leak2Groups[k], Key2Pieces[k])
  {
  }

  /** Groups 15 to 17 of the second leak spell their pieces. */
  lemma Leak2Groups15To17()
    ensures forall k :: 15 <= k < 18 ==> GroupSpells(Leak2Groups[k], Key2Pieces[k])
  {
  }

  /** Groups 18 to 20 of the second leak spell their pieces. */
  lemma Leak2Groups18To20()
    ensures forall k :: 18 <= k < 21 ==> GroupSpells(Leak2Groups[k], Key2Pieces[k])
  {
  }

  /** Group 21 of the second leak spells its piece. */
  lemma Leak2Group21()
    ensures forall k :: 21 <= k < 22 ==> GroupSpells(Leak2Groups[k], Key2Pieces[k])
  {
  }

  /** Every group of the second leak spells its piece. */
  lemma Leak2Spells()
    ensures GroupsSpell(Leak2Groups, Key2Pieces)
  {
    Leak2Groups0To2();
    Leak2Groups3To5();
    Leak2Groups6To8();
    Leak2Groups9To11();
    Leak2Groups12To14();
    Leak2Groups15To17();
    Leak2Groups18To20();
    Leak2Group21();
  }

  /** The second leak as the challenge writes it: 88 tokens of two lower-case
      hex digits, single spaces between them. */
  const Leak2: string := TextLeak(Flatten(Leak2Groups))

  /** The second leak is well-formed and decodes, group by group, to the
      pieces of its key. */
  lemma Leak2Decodes()
    ensures IsWellFormedLeak(Leak2)
    ensures LeakToPrivateKey(Leak2) == Concat(Key2Pieces)
  {
    Leak2Spells();
    GroupsLeak(Leak2Groups, Key2Pieces);
  }

  /** The pieces of the second key: "0x" and a digit, then 21 pieces of three
      digits, the first two spelling "0x2082". */
  lemma Key2PiecesShape()
    ensures |Key2Pieces| == 22
    ensures |Key2Pieces[0]| == 3 && Key2Pieces[0][..2] == "0x" && Hex.IsLowerHexDigit(Key2Pieces[0][2])
    ensures forall k :: 1 <= k < 22 ==> IsHexPiece(Key2Pieces[k])
    ensures Key2Pieces[0] + Key2Pieces[1] == "0x2082"
  {
  }

  /** The second leak has the challenge's shape: 88 tokens, 88 base64
      characters without padding, and a key of "0x" and 64 hex digits that
      starts "0x2082". */
  lemma Leak2Shape()
    ensures IsWellFormedLeak(Leak2)
    ensures |Tokens(Flatten(Leak2Groups))| == 88
    ensures |LeakToBase64(Leak2)| == 88 && Base64.PadCount(LeakToBase64(Leak2)) == 0
    ensures IsHexPrivateKey(LeakToPrivateKey(Leak2))
    ensures LeakToPrivateKey(Leak2)[..6] == "0x2082"
  {
    Leak2Spells();
    Key2PiecesShape();
    ChallengeShape(Leak2Groups, Key2Pieces);
  }
}
