# leakToPrivateKey: the leaked-credential decoder

This project models `leakToPrivateKey` in `utils/helpers.js`, the function the
Compromised challenge uses to turn a leaked server response into an oracle's
private key. The function is a pure transform with three stages:

1. It removes every `' '` separator from the leak.
2. It hex-decodes the remaining digits into bytes and reads the bytes as text.
   That text is base64.
3. It base64-decodes that text (standard alphabet, section 4 of RFC 4648) and
   reads the bytes as text. That text is the private key.

The Dafny modules follow these stages:

- `Separators`: removing spaces, and joining tokens with single spaces.
- `Hex`: `Buffer.from(digits, 'hex')` and its lower-case encoder.
- `Base64`: `Buffer.from(text, 'base64')` and its canonical encoder.
- `Bytes`: the ASCII reading and writing of byte buffers (`toString('utf8')`
  on bytes below 0x80).
- `Helpers`: the composed decoder `LeakToPrivateKey`, the encoder
  `PrivateKeyToLeak` that undoes it (written through `TextLeak`, which writes
  base64 text bytes as a leak), and the properties that link the two.
- `CompromisedLeaks`: the two leaks written in
  `test/compromised/compromised.challenge.js`, the keys they decode to, and
  the shape of those keys.
- `Seqs`: one sequence lemma that the proofs share.

The decoder is a Dafny `function`, so it reads no state and gives the same key
for the same leak.

## Model

| member | source | states |
|---|---|---|
| Bytes.AsciiDecode | utils/helpers.js:6 | Reading an ASCII buffer as UTF-8 gives one character per byte, with the same code, in order. |
| Bytes.AsciiEncode | utils/helpers.js:6 | Writing ASCII text as UTF-8 gives one byte per character, with the same code, in order. |
| Bytes.DecodeEncode | utils/helpers.js:6 | Reading back the bytes written for ASCII text gives the text. |
| Bytes.EncodeDecode | utils/helpers.js:8 | Writing the text read from an ASCII buffer gives the buffer. |
| Bytes.DecodeAppend | utils/helpers.js:6 | Reading text from two buffers run together gives the two texts run together. |
| Separators.Spaces | utils/helpers.js:6 | A run of k separators has length k and holds only spaces. |
| Separators.StripSpaces | utils/helpers.js:6 | `split(' ').join('')` leaves no space, and it leaves a string without spaces unchanged. |
| Separators.StripKeepsOthers | utils/helpers.js:6 | Stripping removes every space and keeps every other character as often as it occurs. Tabs and newlines are not separators. |
| Separators.StripAppend | utils/helpers.js:6 | Stripping two strings run together is stripping each one, so the kept characters stay in order. |
| Separators.StripIdempotent | utils/helpers.js:6 | Stripping a stripped string changes nothing. |
| Separators.InsertSpaces | utils/helpers.js:6 | Any run of spaces inserted at any position leaves the stripped digit stream unchanged. |
| Separators.SpacesStrip | utils/helpers.js:6 | A run of separators strips to nothing. |
| Separators.StripAroundSpace | utils/helpers.js:6 | Two strings with a space between them strip to the two stripped strings run together. |
| Separators.NoSpaceInTail | utils/helpers.js:6 | Tokens without separators stay without separators after the first is dropped. |
| Separators.StripJoin | utils/helpers.js:6 | Tokens joined by single spaces strip to the tokens run together. |
| Separators.Concat | utils/helpers.js:6 | A single token run together is that token. |
| Separators.JoinWithSpaces | utils/helpers.js:6 | No tokens join to the empty leak, and one token joins to itself. |
| Separators.Pairs | utils/helpers.js:6 | A stream of 2n digits cuts into n two-character tokens, token i being digits 2i and 2i+1. |
| Separators.ConcatPairs | utils/helpers.js:6 | Running the pairs of a stream together gives back the stream. |
| Separators.PairsConcat | utils/helpers.js:6 | Cutting two-character tokens run together into pairs gives back the tokens. |
| Hex.DigitValue | utils/helpers.js:6 | A hex digit has a value below 16, below 10 exactly for 0-9. |
| Hex.Digit | utils/helpers.js:6 | The digit written for a value below 16 is a lower-case digit with that value. |
| Hex.DigitOfValue | utils/helpers.js:6 | A lower-case digit is the digit written for its own value. |
| Hex.ToLower | utils/helpers.js:6 | Lower-casing a digit gives a lower-case digit with the same value. |
| Hex.Decode | utils/helpers.js:6 | 2n hex digits decode to n bytes, and byte i is 16 times the value of digit 2i plus the value of digit 2i+1. |
| Hex.ByteDigits | utils/helpers.js:6 | The two lower-case digits written for a byte spell that byte. |
| Hex.Encode | utils/helpers.js:6 | n bytes encode to 2n lower-case digits, the pair at 2i spelling byte i. |
| Hex.DecodeEncode | utils/helpers.js:6 | Decoding the digits written for any bytes gives back the bytes. |
| Hex.PairDigits | utils/helpers.js:6 | A pair of lower-case digits is what the encoder writes for the pair's byte. |
| Hex.EncodeDecode | utils/helpers.js:6 | Re-encoding a decoded stream of lower-case digits gives back the stream. |
| Hex.LowerCase | utils/helpers.js:6 | The case-folded stream has the same length, and each place holds a lower-case digit with the same value as the original digit. `Buffer.from(…, 'hex')` reads both cases, and `DecodeIgnoresCase` uses this stream to state that. |
| Hex.DecodeIgnoresCase | utils/helpers.js:6 | Upper- and lower-case digits decode to the same bytes. |
| Hex.DecodeAppend | utils/helpers.js:6 | Two digit streams run together decode to their bytes run together, so byte order follows digit order. |
| Base64.Index | utils/helpers.js:8 | An alphabet character stands for a 6-bit value (table 1 of RFC 4648). |
| Base64.Char | utils/helpers.js:8 | The character written for a 6-bit value is in the alphabet and stands for that value. |
| Base64.CharOfIndex | utils/helpers.js:8 | Each alphabet character is the character written for its own value, so the table is one-to-one. |
| Base64.PadCount | utils/helpers.js:8 | At most two trailing `=` are counted, all counted characters are `=`, and, when fewer than two are counted, the character before them is not `=`. |
| Base64.Value24 | utils/helpers.js:8 | Four 6-bit digits make a value below 2^24. |
| Base64.Bytes24 | utils/helpers.js:8 | A 24-bit value has three bytes. |
| Base64.GroupIndex | utils/helpers.js:8 | A group character, with a pad counting as zero, stands for a 6-bit value. |
| Base64.GroupValue | utils/helpers.js:8 | A group of four characters stands for a value below 2^24. |
| Base64.DecodeGroup | utils/helpers.js:8 | A group of four characters decodes to three bytes, less one per trailing pad. |
| Base64.SplitFirstGroup | utils/helpers.js:8 | In longer well-formed text the first group is unpadded, and the rest is well-formed with the same padding. |
| Base64.Decode | utils/helpers.js:8 | 4m well-formed characters decode to 3m bytes, less one per trailing `=`. |
| Base64.EncodeGroup | utils/helpers.js:8 | Three bytes encode to four alphabet characters. |
| Base64.EncodeFinal1 | utils/helpers.js:8 | One byte left over encodes to a canonical final group ending in two pads. |
| Base64.EncodeFinal2 | utils/helpers.js:8 | Two bytes left over encode to a canonical final group ending in one pad. |
| Base64.Encode | utils/helpers.js:8 | n bytes encode to 4 * ceil(n/3) well-formed, canonical characters with (3 - n mod 3) mod 3 pads. |
| Base64.FullGroupPrefix | utils/helpers.js:8 | An unpadded group in front of well-formed text keeps it well-formed, keeps its padding and keeps it canonical. |
| Base64.Join24 | utils/helpers.js:8 | Three bytes make a value below 2^24. |
| Base64.Digits24 | utils/helpers.js:8 | The four 6-bit digits written for three bytes make up the bytes' 24-bit value. |
| Base64.BytesOf24 | utils/helpers.js:8 | The three bytes of a value built from three bytes are those bytes. |
| Base64.DecodeDigits | utils/helpers.js:8 | The characters of four 6-bit digits form an unpadded group that decodes to the bytes of the digits' value. |
| Base64.DecodeEncodeGroup | utils/helpers.js:8 | The group written for three bytes decodes to those bytes. |
| Base64.DecodeEncodeFinal1 | utils/helpers.js:8 | The final group written for one byte decodes to that byte. |
| Base64.DecodeEncodeFinal2 | utils/helpers.js:8 | The final group written for two bytes decodes to those bytes. |
| Base64.DecodeCons | utils/helpers.js:8 | Text that starts with an unpadded group decodes to that group's three bytes, then the bytes of the rest. |
| Base64.DecodeOneGroup | utils/helpers.js:8 | Text of one group decodes to that group's bytes. |
| Base64.DecodeEncodeOne | utils/helpers.js:8 | The text written for one byte decodes to that byte. |
| Base64.DecodeEncodeTwo | utils/helpers.js:8 | The text written for two bytes decodes to those bytes. |
| Base64.DecodeEncode | utils/helpers.js:8 | Decoding the text written for any bytes gives back the bytes. |
| Base64.Split24 | utils/helpers.js:8 | A 24-bit value is its three bytes joined back together. |
| Base64.Value24Injective | utils/helpers.js:8 | Four 6-bit digits are determined by their 24-bit value. |
| Base64.GroupDigits | utils/helpers.js:8 | Cutting the bytes of a group's value back into 6-bit digits gives the values of the group's characters. |
| Base64.EncodeDecodeGroup | utils/helpers.js:8 | Four alphabet characters are unpadded, and their three bytes re-encode to the same group. |
| Base64.Final1Digits | utils/helpers.js:8 | A canonical group with two pads decodes to one byte, whose encoding starts with the group's two characters. |
| Base64.EncodeDecodeFinal1 | utils/helpers.js:8 | The byte of a canonical group with two pads re-encodes to that group. |
| Base64.Final2Digits | utils/helpers.js:8 | A canonical group with one pad decodes to two bytes, whose encoding starts with the group's three characters. |
| Base64.EncodeDecodeFinal2 | utils/helpers.js:8 | The bytes of a canonical group with one pad re-encode to that group. |
| Base64.EncodeDecodeOneGroup | utils/helpers.js:8 | The bytes of one canonical group re-encode to that group. |
| Base64.EncodeCons | utils/helpers.js:8 | Three bytes and more encode to the group of the three, then the encoding of the rest. |
| Base64.EncodeDecode | utils/helpers.js:8 | The bytes of any canonical text re-encode to that text. |
| Base64.UnpaddedPrefix | utils/helpers.js:8 | Unpadded text in front of well-formed text keeps it well-formed and keeps its padding. |
| Base64.UnpaddedSplit | utils/helpers.js:8 | Unpadded text splits into an unpadded group of four alphabet characters and unpadded rest. |
| Base64.DecodeAppendStep | utils/helpers.js:8 | An unpadded group in front of both sides keeps decoding distributive over concatenation. |
| Base64.DecodeAppend | utils/helpers.js:8 | Unpadded text followed by well-formed text decodes to the two byte sequences in order, so groups decode independently. |
| Helpers.LeakToBase64 | utils/helpers.js:6 | The base64 text has one character per digit pair, and character i has the value of stripped digits 2i and 2i+1. |
| Helpers.LeakToPrivateKey | utils/helpers.js:4-11 | A well-formed leak strips to 8m digits and decodes to a key of 3m characters less one per pad, all ASCII. |
| Helpers.PrivateKeyToLeak | utils/helpers.js:4-11 | A key of n characters is written as 8 * ceil(n/3) lower-case digits in pairs; for a non-empty key that is 3 * 4 * ceil(n/3) - 1 characters with spaces. |
| Helpers.TextLeak | utils/helpers.js:6 | The leak written for text bytes strips to exactly the lower-case hex digits of those bytes, and it holds 3n - 1 characters for n > 0 bytes. |
| Helpers.PairsHaveNoSpace | utils/helpers.js:6 | Hex digits cut into pairs contain no separator. |
| Helpers.JoinPairsLength | utils/helpers.js:6 | For n > 0, n digit pairs joined by single spaces make 3n - 1 characters. |
| Helpers.KeyRoundTrip | utils/helpers.js:4-11 | For every ASCII key, the leak written for it is well-formed and decodes to exactly that key. |
| Helpers.LeakRoundTrip | utils/helpers.js:4-11 | Re-encoding the key of a canonical leak gives back the leak. |
| Helpers.EmptyLeak | utils/helpers.js:6-10 | The empty leak is well-formed and decodes to the empty key. |
| Helpers.SeparatorsIgnored | utils/helpers.js:6 | Any run of spaces inserted anywhere into a well-formed leak leaves it well-formed with the same key. |
| Helpers.CaseIgnored | utils/helpers.js:6 | A leak whose digits differ from a well-formed leak's only in letter case is well-formed and has the same key. |
| Helpers.HexStageAppend | utils/helpers.js:6 | Two leaks joined by a space give the two base64 texts run together. |
| Helpers.LeakAppend | utils/helpers.js:4-11 | Two leaks joined by a space, the first unpadded, decode to the two keys run together and keep the second's padding. |
| CompromisedLeaks.Tokens | test/compromised/compromised.challenge.js:81-82 | A leak written for n text bytes has n tokens, token i being the two lower-case digits of byte i. |
| CompromisedLeaks.TextLeakStage | utils/helpers.js:6 | The leak written for ASCII text bytes passes the hex stage and gives back that text. |
| CompromisedLeaks.AlphabetText | utils/helpers.js:6-8 | Four alphabet bytes read as text form one unpadded base64 group. |
| CompromisedLeaks.GroupAsText | utils/helpers.js:8 | A group that spells a piece, read as text, has the 24-bit value of the piece's three codes. |
| CompromisedLeaks.GroupBytes | utils/helpers.js:8 | A group that spells a piece decodes to the piece's three character codes. |
| CompromisedLeaks.GroupDecodes | utils/helpers.js:8 | A group that spells a piece decodes and reads back as that piece. |
| CompromisedLeaks.GroupsSpellTail | test/compromised/compromised.challenge.js:81-82 | Groups that spell pieces split into a first group that spells the first piece and rest groups that spell the rest. |
| CompromisedLeaks.UnpaddedCons | utils/helpers.js:8 | An unpadded group in front of unpadded text decodes first and leaves the text unpadded. |
| CompromisedLeaks.GroupsDecode | utils/helpers.js:8 | Groups that spell pieces form unpadded base64 text, four characters per group, that decodes to the pieces run together. |
| CompromisedLeaks.GroupsLeak | utils/helpers.js:4-11 | The leak written for groups that spell pieces is well-formed with four tokens per group, and its key is the pieces run together. |
| CompromisedLeaks.ConcatPieces | test/compromised/compromised.challenge.js:81-82 | Three-character pieces run together put character i of the key at place i mod 3 of piece i / 3. |
| CompromisedLeaks.KeyShape | utils/helpers.js:15 | "0x" plus a digit, then 21 pieces of three hex digits, make a key of "0x" followed by 64 lower-case hex digits. |
| CompromisedLeaks.PiecesPrefix | test/compromised/compromised.challenge.js:81-82 | The first six characters of a key are its first two pieces. |
| CompromisedLeaks.ChallengeShape | test/compromised/compromised.challenge.js:81-82 | 22 groups that spell pieces of the key shape make a leak of 88 tokens, 88 unpadded base64 characters and a 66-character "0x" hex key that starts with the first two pieces. |
| CompromisedLeaks.Leak1Groups0To2 | test/compromised/compromised.challenge.js:81 | Groups 0 to 2 of the first leak spell their key pieces. |
| CompromisedLeaks.Leak1Groups3To5 | test/compromised/compromised.challenge.js:81 | Groups 3 to 5 of the first leak spell their key pieces. |
| CompromisedLeaks.Leak1Groups6To8 | test/compromised/compromised.challenge.js:81 | Groups 6 to 8 of the first leak spell their key pieces. |
| CompromisedLeaks.Leak1Groups9To11 | test/compromised/compromised.challenge.js:81 | Groups 9 to 11 of the first leak spell their key pieces. |
| CompromisedLeaks.Leak1Groups12To14 | test/compromised/compromised.challenge.js:81 | Groups 12 to 14 of the first leak spell their key pieces. |
| CompromisedLeaks.Leak1Groups15To17 | test/compromised/compromised.challenge.js:81 | Groups 15 to 17 of the first leak spell their key pieces. |
| CompromisedLeaks.Leak1Groups18To20 | test/compromised/compromised.challenge.js:81 | Groups 18 to 20 of the first leak spell their key pieces. |
| CompromisedLeaks.Leak1Group21 | test/compromised/compromised.challenge.js:81 | The last group of the first leak spells its key piece. |
| CompromisedLeaks.Leak1Spells | test/compromised/compromised.challenge.js:81 | Every group of the first leak spells its key piece. |
| CompromisedLeaks.Leak1Decodes | test/compromised/compromised.challenge.js:81 | The first leak is well-formed and decodes to its key. |
| CompromisedLeaks.Key1PiecesShape | test/compromised/compromised.challenge.js:81 | The first key has 22 pieces in the key shape, and its first two pieces spell "0xc678". |
| CompromisedLeaks.Leak1Shape | test/compromised/compromised.challenge.js:81 | The first leak has 88 tokens and 88 unpadded base64 characters, and its key is "0x" plus 64 hex digits and starts "0xc678". |
| CompromisedLeaks.Leak2Groups0To2 | test/compromised/compromised.challenge.js:82 | Groups 0 to 2 of the second leak spell their key pieces. |
| CompromisedLeaks.Leak2Groups3To5 | test/compromised/compromised.challenge.js:82 | Groups 3 to 5 of the second leak spell their key pieces. |
| CompromisedLeaks.Leak2Groups6To8 | test/compromised/compromised.challenge.js:82 | Groups 6 to 8 of the second leak spell their key pieces. |
| CompromisedLeaks.Leak2Groups9To11 | test/compromised/compromised.challenge.js:82 | Groups 9 to 11 of the second leak spell their key pieces. |
| CompromisedLeaks.Leak2Groups12To14 | test/compromised/compromised.challenge.js:82 | Groups 12 to 14 of the second leak spell their key pieces. |
| CompromisedLeaks.Leak2Groups15To17 | test/compromised/compromised.challenge.js:82 | Groups 15 to 17 of the second leak spell their key pieces. |
| CompromisedLeaks.Leak2Groups18To20 | test/compromised/compromised.challenge.js:82 | Groups 18 to 20 of the second leak spell their key pieces. |
| CompromisedLeaks.Leak2Group21 | test/compromised/compromised.challenge.js:82 | The last group of the second leak spells its key piece. |
| CompromisedLeaks.Leak2Spells | test/compromised/compromised.challenge.js:82 | Every group of the second leak spells its key piece. |
| CompromisedLeaks.Leak2Decodes | test/compromised/compromised.challenge.js:82 | The second leak is well-formed and decodes to its key. |
| CompromisedLeaks.Key2PiecesShape | test/compromised/compromised.challenge.js:82 | The second key has 22 pieces in the key shape, and its first two pieces spell "0x2082". |
| CompromisedLeaks.Leak2Shape | test/compromised/compromised.challenge.js:82 | The second leak has 88 tokens and 88 unpadded base64 characters, and its key is "0x" plus 64 hex digits and starts "0x2082". |

## Left out

- `createWallet` (utils/helpers.js:13-18) is left out. It wraps `ethers.Wallet`, a foreign library that does secp256k1 key handling and binds a provider. `IsHexPrivateKey` only states the shape of the key it is given.
- The exploit around the decoder is left out: it sets oracle prices, buys and sells the NFT, and makes balance checks (test/compromised/compromised.challenge.js:95-151). It depends on the oracle's median rule and on contracts whose source is not part of this model.
- Deploy scripts, Hardhat fixtures and the other challenge tests are left out. They are deployment and transaction glue.
- The commented-out `console.log` lines and the commented-out `main` loop in utils/helpers.js are left out. They have no effect.
- The byte width is not a concern: characters and bytes are bounded integers, and the model has no arithmetic that can overflow.
- Helpers.LeakToPrivateKey: requires a well-formed leak. That means an even number of hex digits after stripping, ASCII bytes at both stages, and base64 text with whole groups and at most two trailing pads. On malformed input, Node's `Buffer` is lenient: it stops at the first non-hex pair, skips white space and other characters outside both RFC 4648 alphabets, reads `-` and `_` (the URL-safe alphabet of section 5) as `+` and `/`, accepts missing padding, and replaces invalid UTF-8 with U+FFFD. That behaviour belongs to the runtime, not to this repository, so it is not modelled.
- Helpers.LeakToBase64: requires hex digits in pairs that decode to ASCII bytes. UTF-8 sequences of more than one byte are not modelled, because base64 text is ASCII.
- Base64.Decode: requires well-formed text. The bits a padded final group leaves over are dropped, as Node drops them. Only the round trip back to the text (`Base64.EncodeDecode`) asks for those bits to be zero.
- CompromisedLeaks.Leak1Decodes: the leak constant is built from its 88 bytes, each written by `Hex.Encode` as the two lower-case digits the source shows, rather than as one 263-character string literal. `Tokens` states that byte i gives token i, so the leak's tokens are the listed bytes, in the order the source writes them.
- CompromisedLeaks.Leak2Decodes: the second leak is built the same way as the first.
