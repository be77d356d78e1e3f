/** Unicode white space, `trim` and `split_whitespace`. */
module Whitespace {

  /** `char::is_whitespace`: the White_Space property. */
  predicate IsWs(c: char) {
    '\U{9}' <= c <= '\U{D}' || c == ' ' || c == '\U{85}' || c == '\U{A0}' || c == '\U{1680}'
    || '\U{2000}' <= c <= '\U{200A}' || c == '\U{2028}' || c == '\U{2029}' || c == '\U{202F}'
    || c == '\U{205F}' || c == '\U{3000}'
  }

  function TrimStart(s: string): string {
    if |s| > 0 && IsWs(s[0]) then TrimStart(s[1..]) else s
  }

  function TrimEnd(s: string): string {
    if |s| > 0 && IsWs(s[|s| - 1]) then TrimEnd(s[..|s| - 1]) else s
  }

  function Trim(s: string): string { TrimEnd(TrimStart(s)) }

  /** Nothing to trim. */
  predicate Trimmed(s: string) {
    |s| > 0 ==> !IsWs(s[0]) && !IsWs(s[|s| - 1])
  }

  predicate NoWs(s: string) { forall c | c in s :: !IsWs(c) }
  predicate AllWs(s: string) { forall c | c in s :: IsWs(c) }

  /** The longest white-space-free prefix. */
  function Word(s: string): (w: string)
    ensures w <= s && NoWs(w)
    ensures |w| < |s| ==> IsWs(s[|w|])
  {
    if |s| == 0 || IsWs(s[0]) then ""
    else [s[0]] + Word(s[1..])
  }

  /** `s.split_whitespace()`. */
  function Tokens(s: string): seq<string>
    decreases |s|
  {
    if |s| == 0 then []
    else if IsWs(s[0]) then Tokens(s[1..])
    else [Word(s)] + Tokens(s[|Word(s)|..])
  }

  /** The code points with the White_Space property (Unicode 15, PropList.txt). */
  lemma WhiteSpaceExactly(c: char)
    ensures IsWs(c) <==> c as int in {0x9, 0xA, 0xB, 0xC, 0xD, 0x20, 0x85, 0xA0, 0x1680,
                                      0x2000, 0x2001, 0x2002, 0x2003, 0x2004, 0x2005, 0x2006, 0x2007, 0x2008,
                                      0x2009, 0x200A, 0x2028, 0x2029, 0x202F, 0x205F, 0x3000}
  {}

  lemma {:induction false} WordExactly(w: string, rest: string)
    requires NoWs(w) && (rest == "" || IsWs(rest[0]))
    ensures Word(w + rest) == w
  {
    if w != "" {
      assert w[0] in w && (w + rest)[1..] == w[1..] + rest;
      assert forall c | c in w[1..] :: c in w;
      WordExactly(w[1..], rest);
      assert w == [w[0]] + w[1..];
    } else {
      assert w + rest == rest;
    }
  }

  /** The tokens, from the left: white space is skipped, and a word goes up to white space. */
  lemma TokensExactly(w: string, c: char, rest: string)
    requires IsWs(c)
    ensures Tokens("") == [] && Tokens([c] + rest) == Tokens(rest)
    ensures NoWs(w) && w != "" ==> Tokens(w) == [w] && Tokens(w + ([c] + rest)) == [w] + Tokens(rest)
  {
    assert ([c] + rest)[1..] == rest;
    if NoWs(w) && w != "" {
      var s := w + ([c] + rest);
      assert w[0] in w && s[0] == w[0];
      WordExactly(w, "");
      WordExactly(w, [c] + rest);
      assert w + "" == w && w[|w|..] == "" && s[|w|..] == [c] + rest;
    }
  }

  // ------------------------------------------------------------------ trimming

  lemma {:induction false} TrimStartExact(s: string) returns (lead: string)
    ensures s == lead + TrimStart(s) && AllWs(lead)
    ensures TrimStart(s) == "" || !IsWs(TrimStart(s)[0])
    ensures Tokens(TrimStart(s)) == Tokens(s)
  {
    if |s| > 0 && IsWs(s[0]) {
      var rest := TrimStartExact(s[1..]);
      lead := [s[0]] + rest;
    } else {
      lead := "";
    }
  }

  lemma {:induction false} TrimEndExact(s: string) returns (trail: string)
    ensures s == TrimEnd(s) + trail && AllWs(trail)
    ensures TrimEnd(s) == "" || !IsWs(TrimEnd(s)[|TrimEnd(s)| - 1])
    ensures Tokens(TrimEnd(s)) == Tokens(s)
  {
    if |s| > 0 && IsWs(s[|s| - 1]) {
      var front, last := s[..|s| - 1], s[|s| - 1];
      assert s == front + [last];
      var rest := TrimEndExact(front);
      trail := rest + [last];
      TokensAppendWs(front, last);
      assert s == TrimEnd(s) + trail;
    } else {
      trail := "";
    }
  }

  lemma {:induction false} WordAppendWs(s: string, c: char)
    requires IsWs(c)
    ensures Word(s + [c]) == Word(s)
  {
    if |s| > 0 && !IsWs(s[0]) {
      assert (s + [c])[1..] == s[1..] + [c];
      WordAppendWs(s[1..], c);
    }
  }

  lemma {:induction false} TokensAppendWs(s: string, c: char)
    requires IsWs(c)
    ensures Tokens(s + [c]) == Tokens(s)
    decreases |s|
  {
    var t := s + [c];
    if |s| == 0 {
      assert t[1..] == "";
    } else if IsWs(s[0]) {
      assert t[1..] == s[1..] + [c];
      TokensAppendWs(s[1..], c);
    } else {
      var k := |Word(s)|;
      assert k > 0;
      WordAppendWs(s, c);
      assert t[k..] == s[k..] + [c];
      TokensAppendWs(s[k..], c);
    }
  }

  /** Trimming cuts white space off both ends and keeps the tokens. */
  lemma TrimExact(s: string) returns (lead: string, trail: string)
    ensures s == lead + Trim(s) + trail && AllWs(lead) && AllWs(trail)
    ensures Trimmed(Trim(s)) && Tokens(Trim(s)) == Tokens(s)
  {
    lead := TrimStartExact(s);
    var t := TrimStart(s);
    trail := TrimEndExact(t);
    if Trim(s) != "" { assert Trim(s)[0] == t[0]; }
  }

  lemma TrimFixed(s: string)
    ensures Trim(s) == s <==> Trimmed(s)
  {
    var lead, trail := TrimExact(s);
    if Trimmed(s) && |s| > 0 {
      assert TrimStart(s) == s;
      assert TrimEnd(s) == s;
    }
  }

  // -------------------------------------------------------------------- tokens

  lemma {:induction false} TokensAreWords(s: string)
    ensures forall i | 0 <= i < |Tokens(s)| :: Tokens(s)[i] != "" && NoWs(Tokens(s)[i])
    decreases |s|
  {
    if |s| == 0 {
    } else if IsWs(s[0]) {
      TokensAreWords(s[1..]);
    } else {
      TokensAreWords(s[|Word(s)|..]);
    }
  }

  /** Trimmed, non-empty text starts with its first token; what follows the token, if
      anything, is white space and at least one more token. */
  lemma FirstToken(s: string)
    requires s != "" && Trimmed(s)
    ensures |Tokens(s)| >= 1 && Tokens(s)[0] == Word(s) && Word(s) != ""
    ensures Tokens(s)[1..] == Tokens(s[|Word(s)|..])
    ensures |Word(s)| == |s| <==> |Tokens(s)| == 1
  {
    var k := |Word(s)|;
    if k < |s| {
      SomeToken(s[k..]);
    }
  }

  lemma {:induction false} SomeToken(s: string)
    requires s != "" && !IsWs(s[|s| - 1])
    ensures |Tokens(s)| >= 1
  {
    if IsWs(s[0]) { SomeToken(s[1..]); }
  }

  /** A white-space-free text w followed by white space begins s exactly when w is the
      first word and s goes on after it. */
  lemma {:induction false} WordTest(s: string, w: string)
    requires NoWs(w)
    ensures (w <= s && |w| < |s| && IsWs(s[|w|])) <==> (w == Word(s) && |w| < |s|)
  {
    if w <= s && |w| < |s| && IsWs(s[|w|]) { WordIs(s, w); }
  }

  lemma {:induction false} WordIs(s: string, w: string)
    requires NoWs(w) && w <= s && |w| < |s| && IsWs(s[|w|])
    ensures Word(s) == w
  {
    if |w| > 0 {
      assert s[0] == w[0] && w[0] in w;
      assert forall c | c in w[1..] :: c in w;
      WordIs(s[1..], w[1..]);
      assert w == [w[0]] + w[1..];
    }
  }

  lemma {:induction false} WordOfWord(w: string)
    requires NoWs(w)
    ensures Word(w) == w
  {
    if |w| > 0 {
      assert w[0] in w;
      assert forall c | c in w[1..] :: c in w;
      WordOfWord(w[1..]);
      assert w == [w[0]] + w[1..];
    }
  }

  /** A word, a blank and a rest tokenize one after the other. */
  lemma TokenThen(w: string, rest: string)
    requires w != "" && NoWs(w)
    ensures Tokens(w) == [w] && Tokens(w + " " + rest) == [w] + Tokens(rest)
  {
    var s := w + " " + rest;
    assert w[0] in w;
    WordOfWord(w);
    assert w[|w|..] == "";
    WordIs(s, w);
    assert s[|w|..] == " " + rest;
    assert (" " + rest)[1..] == rest;
  }
}
