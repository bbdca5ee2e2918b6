/** The space separators of a leak: removing them (`split(' ').join('')`) and
    putting them between two-digit tokens. Only the character U+0020 is a
    separator; tabs, newlines and other white space are kept as they are.
 */
module Separators {

  const Space: char := ' '

  /** `k` separators in a row. */
  function Spaces(k: nat): (s: string)
    ensures |s| == k
    ensures forall i :: 0 <= i < k ==> s[i] == Space
  {
    if k == 0 then [] else [Space] + Spaces(k - 1)
  }

  /** The string with every space removed and every other character kept, in
      order. */
  function StripSpaces(s: string): (r: string)
    ensures Space !in r
    ensures Space !in s ==> r == s
  {
    if |s| == 0 then []
    else if s[0] == Space then StripSpaces(s[1..])
    else [s[0]] + StripSpaces(s[1..])
  }

  /** Stripping removes every space and keeps every other character, as many
      times as it occurs. */
  lemma {:induction false} StripKeepsOthers(s: string)
    ensures multiset(StripSpaces(s)) == multiset(s)[Space := 0]
  {
    if |s| > 0 {
      assert s == [s[0]] + s[1..];
      StripKeepsOthers(s[1..]);
    }
  }

  /** Stripping distributes over concatenation, so the characters that remain
      keep their order. */
  lemma {:induction false} StripAppend(a: string, b: string)
    ensures StripSpaces(a + b) == StripSpaces(a) + StripSpaces(b)
  {
    if |a| == 0 {
      assert a + b == b;
    } else {
      assert (a + b)[1..] == a[1..] + b;
      StripAppend(a[1..], b);
    }
  }

  /** Stripping twice is stripping once. */
  lemma StripIdempotent(s: string)
    ensures StripSpaces(StripSpaces(s)) == StripSpaces(s)
  {
  }

  /** Any run of separators put anywhere into a leak leaves the stripped digit
      stream unchanged. */
  lemma InsertSpaces(s: string, i: nat, k: nat)
    requires i <= |s|
    ensures StripSpaces(s[..i] + Spaces(k) + s[i..]) == StripSpaces(s)
  {
    var a, b := s[..i], s[i..];
    assert a + b == s;
    StripAppend(a + Spaces(k), b);
    StripAppend(a, Spaces(k));
    StripAppend(a, b);
    SpacesStrip(k);
    assert StripSpaces(a + Spaces(k)) == StripSpaces(a);
  }

  /** A run of separators strips to nothing. */
  lemma {:induction false} SpacesStrip(k: nat)
    ensures StripSpaces(Spaces(k)) == []
  {
    if k > 0 {
      SpacesStrip(k - 1);
    }
  }

  /** The tokens one after the other, with nothing between them. */
  function Concat(tokens: seq<string>): (s: string)
    ensures |tokens| == 1 ==> s == tokens[0]
  {
    if |tokens| == 0 then [] else tokens[0] + Concat(tokens[1..])
  }

  /** The tokens with a single separator between each two neighbours, as the
      leaks are written. */
  function JoinWithSpaces(tokens: seq<string>): (s: string)
    ensures |tokens| == 0 ==> s == []
    ensures |tokens| == 1 ==> s == tokens[0]
  {
    if |tokens| <= 1 then Concat(tokens)
    else tokens[0] + [Space] + JoinWithSpaces(tokens[1..])
  }

  /** True when no token contains a separator. */
  predicate NoSpaceIn(tokens: seq<string>) {
    forall i :: 0 <= i < |tokens| ==> Space !in tokens[i]
  }

  /** Stripping two strings with a separator between them strips each and
      runs them together. */
  lemma StripAroundSpace(a: string, b: string)
    ensures StripSpaces(a + [Space] + b) == StripSpaces(a) + StripSpaces(b)
  {
    StripAppend(a + [Space], b);
    StripAppend(a, [Space]);
    assert StripSpaces([Space]) == [];
    assert StripSpaces(a + [Space]) == StripSpaces(a);
  }

  /** The tokens after the first contain no separator either. */
  lemma NoSpaceInTail(tokens: seq<string>)
    requires NoSpaceIn(tokens) && |tokens| > 0
    ensures NoSpaceIn(tokens[1..])
  {
    var rest := tokens[1..];
    forall i | 0 <= i < |rest| ensures Space !in rest[i] {
      assert rest[i] == tokens[i + 1];
    }
  }

  /** Stripping a space-joined leak gives back the tokens run together. */
  lemma {:induction false} StripJoin(tokens: seq<string>)
    requires NoSpaceIn(tokens)
    ensures StripSpaces(JoinWithSpaces(tokens)) == Concat(tokens)
  {
    if |tokens| > 1 {
      var t, rest := tokens[0], tokens[1..];
      NoSpaceInTail(tokens);
      StripJoin(rest);
      StripAroundSpace(t, JoinWithSpaces(rest));
      assert Space !in t;
    }
  }

  /** The stream cut into consecutive two-character tokens. */
  function Pairs(s: string): (tokens: seq<string>)
    requires |s| % 2 == 0
    ensures |tokens| == |s| / 2
    ensures forall i :: 0 <= i < |tokens| ==> tokens[i] == s[2 * i .. 2 * i + 2]
  {
    if |s| == 0 then [] else [s[..2]] + Pairs(s[2..])
  }

  /** Running the pairs together gives back the stream. */
  lemma {:induction false} ConcatPairs(s: string)
    requires |s| % 2 == 0
    ensures Concat(Pairs(s)) == s
  {
    if |s| > 0 {
      ConcatPairs(s[2..]);
      assert Pairs(s)[1..] == Pairs(s[2..]);
      assert s[..2] + s[2..] == s;
    }
  }

  /** Cutting a run of two-character tokens into pairs gives back the
      tokens. */
  lemma {:induction false} PairsConcat(tokens: seq<string>)
    requires forall i :: 0 <= i < |tokens| ==> |tokens[i]| == 2
    ensures |Concat(tokens)| == 2 * |tokens|
    ensures Pairs(Concat(tokens)) == tokens
  {
    if |tokens| > 0 {
      PairsConcat(tokens[1..]);
      var s := Concat(tokens);
      assert s == tokens[0] + Concat(tokens[1..]);
      assert s[..2] == tokens[0];
      assert s[2..] == Concat(tokens[1..]);
    }
  }
}
