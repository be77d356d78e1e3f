/** Protected command patterns (pt-config/src/policy.rs). */
module Policy {
  import opened Strings

  datatype PatternKind = Regex | Glob | Literal

  datatype Pattern = Pattern(pattern: string, kind: PatternKind, caseInsensitive: bool)

  /** What remains of a pattern in the fallback matcher. */
  function Needle(p: Pattern): string {
    match p.kind
    case Literal => p.pattern
    case Regex => Replace(Replace(Replace(p.pattern, "\\b", ""), "^", ""), "$", "")
    case Glob => Replace(p.pattern, "*", "")
  }

  predicate Covers(p: Pattern, command: string) {
    if p.caseInsensitive then Contains(Lower(command), Lower(Needle(p))) else Contains(command, Needle(p))
  }

  /** `is_protected`. */
  predicate IsProtected(patterns: seq<Pattern>, command: string) {
    exists p | p in patterns :: Covers(p, command)
  }

  /** More patterns, or more text around the command, never lift protection. */
  lemma ProtectionIsMonotone(patterns: seq<Pattern>, patterns': seq<Pattern>,
                             before: string, command: string, after: string)
    requires forall p | p in patterns :: p in patterns'
    requires IsProtected(patterns, command)
    ensures IsProtected(patterns', before + command + after)
  {
    var p :| p in patterns && Covers(p, command);
    if p.caseInsensitive {
      LowerConcat(before + command, after);
      LowerConcat(before, command);
      ContainsAround(Lower(before), Lower(command), Lower(after), Lower(Needle(p)));
    } else {
      ContainsAround(before, command, after, Needle(p));
    }
  }

  lemma ContainsAround(before: string, s: string, after: string, p: string)
    requires Contains(s, p)
    ensures Contains(before + s + after, p)
  {
    var i :| 0 <= i <= |s| && OccursAt(s, p, i);
    var whole := before + s + after;
    assert whole[|before| + i..] == s[i..] + after;
    assert OccursAt(whole, p, |before| + i);
  }

  /** Text without the characters of an anchor. */
  predicate AnchorFree(w: string) { '\\' !in w && '^' !in w && '$' !in w }

  lemma {:induction false} NothingToReplace(w: string, pat: string)
    requires |pat| > 0 && pat[0] !in w
    ensures Replace(w, pat, "") == w
  {
    if |w| > 0 {
      assert w[0] in w;
      assert forall c | c in w[1..] :: c in w;
      NothingToReplace(w[1..], pat);
      assert w == [w[0]] + w[1..];
    }
  }

  lemma {:induction false} EndReplaced(w: string, pat: string)
    requires |pat| > 0 && pat[0] !in w
    ensures Replace(w + pat, pat, "") == w && Replace(pat + w, pat, "") == w
  {
    NothingToReplace(w, pat);
    assert (pat + w)[|pat|..] == w;
    if |w| == 0 {
      assert w + pat == pat && pat[|pat|..] == "";
    } else {
      assert (w + pat)[0] == w[0] && w[0] in w && (w + pat)[1..] == w[1..] + pat;
      assert forall c | c in w[1..] :: c in w;
      EndReplaced(w[1..], pat);
      assert w == [w[0]] + w[1..];
    }
  }

  lemma AnchorsStripped(w: string)
    requires AnchorFree(w)
    ensures Replace(Replace(Replace("^" + w + "$", "\\b", ""), "^", ""), "$", "") == w
  {
    var s := "^" + w + "$";
    NothingToReplace(s, "\\b");
    assert s == "^" + (w + "$");
    EndReplaced(w + "$", "^");
    EndReplaced(w, "$");
  }

  /** An anchored regular expression protects more than it says: `^w$`, meant for the
      command w alone, protects exactly the commands that contain w anywhere. */
  lemma AnchorsAreDropped(w: string, command: string)
    requires AnchorFree(w)
    ensures IsProtected([Pattern("^" + w + "$", Regex, false)], command) <==> Contains(command, w)
    ensures IsProtected([Pattern("^" + w + "$", Regex, true)], command) <==> Contains(Lower(command), Lower(w))
  {
    AnchorsStripped(w);
    forall ci: bool
      ensures IsProtected([Pattern("^" + w + "$", Regex, ci)], command)
         <==> Covers(Pattern("^" + w + "$", Regex, ci), command)
    {
      var p := Pattern("^" + w + "$", Regex, ci);
      assert p in [p];
    }
  }

  lemma FrontReplaced(s: string, pat: string)
    requires |pat| > 0
    ensures Replace(pat + s, pat, "") == Replace(s, pat, "")
  {
    assert (pat + s)[|pat|..] == s;
  }

  lemma BoundariesStripped(w: string)
    requires AnchorFree(w)
    ensures Replace(Replace(Replace("\\b" + w + "\\b", "\\b", ""), "^", ""), "$", "") == w
  {
    var s := w + "\\b";
    EndReplaced(w, "\\b");
    FrontReplaced(s, "\\b");
    assert "\\b" + w + "\\b" == "\\b" + s;
    NothingToReplace(w, "^");
    NothingToReplace(w, "$");
  }

  lemma OnePattern(p: Pattern, command: string)
    ensures IsProtected([p], command) <==> Covers(p, command)
  {
    assert p in [p];
  }

  /** Word boundaries have no effect either. */
  lemma BoundariesAreDropped(w: string, command: string)
    requires AnchorFree(w)
    ensures IsProtected([Pattern("\\b" + w + "\\b", Regex, false)], command) <==> Contains(command, w)
    ensures IsProtected([Pattern("\\b" + w + "\\b", Regex, true)], command) <==> Contains(Lower(command), Lower(w))
  {
    BoundariesStripped(w);
    OnePattern(Pattern("\\b" + w + "\\b", Regex, false), command);
    OnePattern(Pattern("\\b" + w + "\\b", Regex, true), command);
  }

  /** A literal protects exactly the commands that contain it, whatever it looks like. */
  lemma LiteralExactly(w: string, command: string)
    ensures IsProtected([Pattern(w, Literal, false)], command) <==> Contains(command, w)
    ensures IsProtected([Pattern(w, Literal, true)], command) <==> Contains(Lower(command), Lower(w))
  {
    OnePattern(Pattern(w, Literal, false), command);
    OnePattern(Pattern(w, Literal, true), command);
  }

  /** Any pattern of the list is enough, and without patterns nothing is protected. */
  lemma AnyPatternSuffices(ps: seq<Pattern>, p: Pattern, command: string)
    ensures IsProtected(ps + [p], command) <==> IsProtected(ps, command) || IsProtected([p], command)
    ensures !IsProtected([], command)
  {
    OnePattern(p, command);
    assert p in ps + [p];
    assert forall q :: q in ps + [p] <==> q in ps || q == p;
  }

  // ----------------------------------------------------------- standard globs

  /** Standard matching of a glob made of literals and `*`. */
  predicate GlobMatches(glob: string, command: string)
    decreases |glob|, |command|
  {
    if |glob| == 0 then |command| == 0
    else if glob[0] == '*' then
      GlobMatches(glob[1..], command) || (|command| > 0 && GlobMatches(glob, command[1..]))
    else |command| > 0 && command[0] == glob[0] && GlobMatches(glob[1..], command[1..])
  }

  predicate Stars(s: string) { forall c | c in s :: c == '*' }

  /** The literals of the glob form at most one run. */
  ghost predicate SingleRun(glob: string) {
    exists i, j | 0 <= i <= j <= |glob| ::
      Stars(glob[..i]) && '*' !in glob[i..j] && Stars(glob[j..])
  }

  lemma {:induction false} StripStars(glob: string)
    ensures '*' !in Replace(glob, "*", "")
    ensures '*' !in glob ==> Replace(glob, "*", "") == glob
    ensures Stars(glob) ==> Replace(glob, "*", "") == ""
  {
    if |glob| > 0 {
      StripStars(glob[1..]);
      assert glob == [glob[0]] + glob[1..];
      assert forall c | c in glob[1..] :: c in glob;
      assert glob[0] in glob;
    }
  }

  lemma {:induction false} StripConcat(a: string, b: string)
    ensures Replace(a + b, "*", "") == Replace(a, "*", "") + Replace(b, "*", "")
  {
    if |a| == 0 {
      assert a + b == b;
    } else {
      StripConcat(a[1..], b);
      assert (a + b)[0] == a[0] && (a + b)[1..] == a[1..] + b;
      assert "*" <= a + b <==> a[0] == '*';
    }
  }

  lemma Shifted(s: string, i: nat, j: nat)
    requires 0 < i <= j <= |s|
    ensures s[1..][i - 1..j - 1] == s[i..j]
    ensures s[1..][j - 1..] == s[j..]
    ensures Stars(s[..i]) ==> Stars(s[1..][..i - 1])
  {
    assert s[1..][..i - 1] == s[1..i];
    assert s[..i] == [s[0]] + s[1..i];
    assert forall c | c in s[1..i] :: c in s[..i];
    assert s[1..][i - 1..j - 1] == s[i..j] && s[1..][j - 1..] == s[j..];
  }

  /** A glob that is stars, literals, stars matches only commands containing the literals. */
  lemma {:induction false} SingleRunMatches(glob: string, i: nat, j: nat, command: string)
    requires i <= j <= |glob| && Stars(glob[..i]) && '*' !in glob[i..j] && Stars(glob[j..])
    requires GlobMatches(glob, command)
    ensures Contains(command, glob[i..j])
    decreases |glob|, |command|
  {
    if i > 0 {
      assert glob[0] == '*' by { assert glob[..i][0] == glob[0] && glob[..i][0] in glob[..i]; }
      if GlobMatches(glob[1..], command) {
        Shifted(glob, i, j);
        SingleRunMatches(glob[1..], i - 1, j - 1, command);
      } else {
        SingleRunMatches(glob, i, j, command[1..]);
        ContainsStep(command, glob[i..j]);
      }
    } else {
      LiteralsMatch(glob, j, command);
      assert glob[0..j] == glob[..j] && command[0..] == command;
      assert OccursAt(command, glob[0..j], 0);
    }
  }

  lemma {:induction false} LiteralsMatch(glob: string, j: nat, command: string)
    requires j <= |glob| && '*' !in glob[..j]
    requires GlobMatches(glob, command)
    ensures glob[..j] <= command
  {
    if j > 0 {
      assert glob[..j][0] == glob[0];
      assert glob[1..][..j - 1] == glob[..j][1..];
      assert forall c | c in glob[..j][1..] :: c in glob[..j];
      LiteralsMatch(glob[1..], j - 1, command[1..]);
      assert glob[..j] == [glob[0]] + glob[1..][..j - 1];
    }
  }

  function Strip(glob: string): string { Replace(glob, "*", "") }

  lemma CutInThree(s: string, i: nat, j: nat)
    requires i <= j <= |s|
    ensures s == s[..i] + s[i..j] + s[j..]
  {}

  lemma StripThree(glob: string, i: nat, j: nat)
    requires i <= j <= |glob| && '*' !in glob[i..j]
    ensures Strip(glob) == Strip(glob[..i]) + glob[i..j] + Strip(glob[j..])
  {
    var front, mid, back := glob[..i], glob[i..j], glob[j..];
    StripConcat(front, mid);
    StripConcat(front + mid, back);
    StripStars(mid);
    CutInThree(glob, i, j);
  }

  // A command that a glob with two runs matches and that lacks the stripped glob: every
  // star stands for as many filler characters as the stripped glob is long.

  function Rep(c: char, k: nat): string { seq(k, i => c) }

  function Fill(glob: string, c: char, k: nat): string {
    if |glob| == 0 then ""
    else (if glob[0] == '*' then Rep(c, k) else [glob[0]]) + Fill(glob[1..], c, k)
  }

  lemma {:induction false} FillConcat(a: string, b: string, c: char, k: nat)
    ensures Fill(a + b, c, k) == Fill(a, c, k) + Fill(b, c, k)
  {
    if |a| == 0 {
      assert a + b == b;
    } else {
      assert (a + b)[0] == a[0] && (a + b)[1..] == a[1..] + b;
      FillConcat(a[1..], b, c, k);
    }
  }

  lemma {:induction false} StarTakes(glob: string, c: char, k: nat, rest: string)
    requires |glob| > 0 && glob[0] == '*' && GlobMatches(glob[1..], rest)
    ensures GlobMatches(glob, Rep(c, k) + rest)
  {
    if k == 0 {
      assert Rep(c, 0) + rest == rest;
    } else {
      StarTakes(glob, c, k - 1, rest);
      assert (Rep(c, k) + rest)[1..] == Rep(c, k - 1) + rest;
    }
  }

  lemma {:induction false} FillMatches(glob: string, c: char, k: nat)
    ensures GlobMatches(glob, Fill(glob, c, k))
  {
    if |glob| > 0 {
      FillMatches(glob[1..], c, k);
      var rest := Fill(glob[1..], c, k);
      if glob[0] == '*' {
        StarTakes(glob, c, k, rest);
      } else {
        assert ([glob[0]] + rest)[1..] == rest;
      }
    }
  }

  /** How many characters of s are not c. */
  function Others(s: string, c: char): nat {
    if |s| == 0 then 0 else (if s[0] == c then 0 else 1) + Others(s[1..], c)
  }

  lemma {:induction false} OthersConcat(a: string, b: string, c: char)
    ensures Others(a + b, c) == Others(a, c) + Others(b, c)
  {
    if |a| == 0 {
      assert a + b == b;
    } else {
      assert (a + b)[0] == a[0] && (a + b)[1..] == a[1..] + b;
      OthersConcat(a[1..], b, c);
    }
  }

  lemma {:induction false} OthersCounts(s: string, i: nat, c: char)
    requires i < |s| && s[i] != c
    ensures Others(s, c) >= 1
  {
    if i > 0 { OthersCounts(s[1..], i - 1, c); }
  }

  lemma {:induction false} RepHasNoOthers(c: char, k: nat)
    ensures Others(Rep(c, k), c) == 0
  {
    if k > 0 {
      RepHasNoOthers(c, k - 1);
      assert Rep(c, k)[1..] == Rep(c, k - 1);
    }
  }

  /** Filling adds filler characters only. */
  lemma {:induction false} FillKeepsOthers(glob: string, c: char, k: nat)
    ensures Others(Fill(glob, c, k), c) == Others(Strip(glob), c)
  {
    if |glob| > 0 {
      var rest := Fill(glob[1..], c, k);
      FillKeepsOthers(glob[1..], c, k);
      if glob[0] == '*' {
        RepHasNoOthers(c, k);
        OthersConcat(Rep(c, k), rest, c);
        assert Strip(glob) == Strip(glob[1..]);
      } else {
        OthersConcat([glob[0]], rest, c);
        OthersConcat([glob[0]], Strip(glob[1..]), c);
      }
    }
  }

  /** Two characters other than c, farther apart than n is long, do not both fit in n; so
      n, which has as many such characters as the whole text, is not found in it. */
  lemma TooFarApart(l: string, x: char, m: string, y: char, r: string, n: string, c: char)
    requires x != c && y != c && |m| >= |n|
    requires Others(l + [x] + m + [y] + r, c) == Others(n, c)
    ensures !Contains(l + [x] + m + [y] + r, n)
  {
    var whole := l + [x] + m + [y] + r;
    if Contains(whole, n) {
      var a, b := ContainsSplit(whole, n);
      OthersConcat(a + n, b, c);
      OthersConcat(a, n, c);
      if |a| > |l| {
        assert a[|l|] == whole[|l|] == x;
        OthersCounts(a, |l|, c);
      }
      if |b| > |r| {
        var i := |b| - |r| - 1;
        assert b[i] == whole[|whole| - |r| - 1] == y;
        OthersCounts(b, i, c);
      }
    }
  }

  lemma {:induction false} LeadingStars(glob: string) returns (i: nat)
    ensures i <= |glob| && Stars(glob[..i]) && (i < |glob| ==> glob[i] != '*')
  {
    if |glob| == 0 || glob[0] != '*' {
      i := 0;
    } else {
      var k := LeadingStars(glob[1..]);
      i := k + 1;
      assert glob[..i] == ['*'] + glob[1..][..k];
    }
  }

  lemma {:induction false} TrailingStars(glob: string) returns (j: nat)
    ensures j <= |glob| && Stars(glob[j..]) && (j > 0 ==> glob[j - 1] != '*')
  {
    if |glob| == 0 || glob[|glob| - 1] != '*' {
      j := |glob|;
    } else {
      j := TrailingStars(glob[..|glob| - 1]);
      assert glob[j..] == glob[..|glob| - 1][j..] + ['*'];
    }
  }

  lemma StarsAreOneRun(glob: string)
    requires Stars(glob[..|glob|])
    ensures SingleRun(glob)
  {
    var n := |glob|;
    assert Stars(glob[..n]) && '*' !in glob[n..n] && Stars(glob[n..]);
  }

  lemma StarAt(s: string, j: nat, i: nat)
    requires j <= i < |s| && Stars(s[j..])
    ensures s[i] == '*'
  {
    assert s[j..][i - j] in s[j..];
  }

  /** A glob whose literals are not one run has literals on both sides of some star. */
  lemma TwoRunsOf(glob: string) returns (a: string, x: char, m: string, y: char, d: string)
    requires !SingleRun(glob)
    ensures glob == a + [x] + m + [y] + d && x != '*' && y != '*' && '*' in m
  {
    var i := LeadingStars(glob);
    var j := TrailingStars(glob);
    if i == |glob| { StarsAreOneRun(glob); }
    if j <= i { StarAt(glob, j, i); }
    assert '*' in glob[i..j];
    var q :| i <= q < j && glob[q] == '*';
    a, x, m, y, d := glob[..i], glob[i], glob[i + 1..j - 1], glob[j - 1], glob[j..];
    assert m[q - i - 1] == '*';
    assert glob == a + [x] + m + [y] + d;
  }

  function Filler(x: char, y: char): (c: char)
    ensures c != x && c != y && '0' <= c <= '2'
  {
    if x != '0' && y != '0' then '0' else if x != '1' && y != '1' then '1' else '2'
  }

  lemma {:induction false} StarFills(m: string, c: char, k: nat)
    requires '*' in m
    ensures |Fill(m, c, k)| >= k
  {
    if m[0] != '*' {
      assert m == [m[0]] + m[1..];
      StarFills(m[1..], c, k);
    }
  }

  /** The counterexample: matched, but without the stripped glob. */
  lemma Escapes(glob: string) returns (c: char, command: string)
    requires !SingleRun(glob)
    ensures '0' <= c <= '2' && command == Fill(glob, c, |Strip(glob)|)
    ensures GlobMatches(glob, command) && !Contains(command, Strip(glob))
  {
    var a, x, m, y, d := TwoRunsOf(glob);
    c := Filler(x, y);
    var n := Strip(glob);
    var k := |n|;
    command := Fill(glob, c, k);
    FillMatches(glob, c, k);
    FillKeepsOthers(glob, c, k);
    FillConcat(a + [x] + m + [y], d, c, k);
    FillConcat(a + [x] + m, [y], c, k);
    FillConcat(a + [x], m, c, k);
    FillConcat(a, [x], c, k);
    assert Fill([x], c, k) == [x] && Fill([y], c, k) == [y];
    StarFills(m, c, k);
    TooFarApart(Fill(a, c, k), x, Fill(m, c, k), y, Fill(d, c, k), n, c);
  }

  /** Every command the glob matches contains the stripped glob exactly when the glob's
      literals form a single run. */
  lemma StripIsCompleteExactly(glob: string)
    ensures (forall command | GlobMatches(glob, command) :: Contains(command, Strip(glob))) <==> SingleRun(glob)
  {
    if SingleRun(glob) {
      var i, j :| 0 <= i <= j <= |glob| && Stars(glob[..i]) && '*' !in glob[i..j] && Stars(glob[j..]);
      StripThree(glob, i, j);
      StripStars(glob[..i]);
      StripStars(glob[j..]);
      assert Strip(glob) == glob[i..j];
      forall command | GlobMatches(glob, command) ensures Contains(command, Strip(glob)) {
        SingleRunMatches(glob, i, j, command);
      }
    } else {
      var c, command := Escapes(glob);
    }
  }

  // -------------------------------------------------------------- with case folding

  /** What a glob pattern is meant to match. */
  predicate Matches(p: Pattern, command: string) {
    if p.caseInsensitive then GlobMatches(Lower(p.pattern), Lower(command)) else GlobMatches(p.pattern, command)
  }

  lemma {:induction false} StripLower(s: string)
    ensures Strip(Lower(s)) == Lower(Strip(s))
  {
    if |s| > 0 {
      StripLower(s[1..]);
      assert Lower(s)[0] == LowerChar(s[0]) && Lower(s)[1..] == Lower(s[1..]);
      assert Lower([s[0]] + Strip(s[1..])) == [LowerChar(s[0])] + Lower(Strip(s[1..]));
    }
  }

  lemma LowerStars(s: string)
    ensures Stars(Lower(s)) <==> Stars(s)
    ensures '*' in Lower(s) <==> '*' in s
  {
    assert forall i | 0 <= i < |s| :: Lower(s)[i] == LowerChar(s[i]) && s[i] in s && Lower(s)[i] in Lower(s);
  }

  lemma SingleRunLower(s: string)
    ensures SingleRun(Lower(s)) <==> SingleRun(s)
  {
    forall i, j | 0 <= i <= j <= |s|
      ensures Lower(s)[..i] == Lower(s[..i]) && Lower(s)[i..j] == Lower(s[i..j]) && Lower(s)[j..] == Lower(s[j..])
      ensures Stars(Lower(s[..i])) <==> Stars(s[..i])
      ensures '*' in Lower(s[i..j]) <==> '*' in s[i..j]
      ensures Stars(Lower(s[j..])) <==> Stars(s[j..])
    {
      LowerStars(s[..i]);
      LowerStars(s[i..j]);
      LowerStars(s[j..]);
    }
    if SingleRun(Lower(s)) {
      var i, j :| 0 <= i <= j <= |s| && Stars(Lower(s)[..i]) && '*' !in Lower(s)[i..j] && Stars(Lower(s)[j..]);
      assert Stars(s[..i]) && '*' !in s[i..j] && Stars(s[j..]);
    }
    if SingleRun(s) {
      var i, j :| 0 <= i <= j <= |s| && Stars(s[..i]) && '*' !in s[i..j] && Stars(s[j..]);
      assert Stars(Lower(s)[..i]) && '*' !in Lower(s)[i..j] && Stars(Lower(s)[j..]);
    }
  }

  /** A glob pattern protects every command it is meant to match exactly when its literals
      form a single run. A glob with literals on both sides of a star does not. */
  lemma GlobProtectsExactly(p: Pattern)
    requires p.kind == Glob
    ensures (forall command | Matches(p, command) :: Covers(p, command)) <==> SingleRun(p.pattern)
  {
    if !p.caseInsensitive {
      StripIsCompleteExactly(p.pattern);
      assert forall command | GlobMatches(p.pattern, command) :: Matches(p, command);
    } else {
      var g := Lower(p.pattern);
      StripLower(p.pattern);
      SingleRunLower(p.pattern);
      StripIsCompleteExactly(g);
      if SingleRun(p.pattern) {
        forall command | Matches(p, command) ensures Covers(p, command) {
          assert GlobMatches(g, Lower(command));
        }
      } else {
        var c, command := Escapes(g);
        FillLower(g, c, |Strip(g)|);
        assert Matches(p, command) && !Covers(p, command);
      }
    }
  }

  lemma {:induction false} FillLower(g: string, c: char, k: nat)
    requires '0' <= c <= '2' && Lower(g) == g
    ensures Lower(Fill(g, c, k)) == Fill(g, c, k)
  {
    if |g| > 0 {
      assert Lower(g)[0] == g[0] && Lower(g)[1..] == Lower(g[1..]);
      FillLower(g[1..], c, k);
      var front := if g[0] == '*' then Rep(c, k) else [g[0]];
      assert Lower(front) == front;
      LowerConcat(front, Fill(g[1..], c, k));
    }
  }

  lemma StarFilled()
    ensures GlobMatches("a*b", "axb")
  {
    FillMatches("a*b", 'x', 1);
    assert "a*b"[1..] == "*b" && "*b"[1..] == "b" && "b"[1..] == "";
    assert Rep('x', 1) == "x" && Fill("b", 'x', 1) == "b";
    assert Fill("*b", 'x', 1) == "xb" && Fill("a*b", 'x', 1) == "axb";
  }

  lemma StarStripped()
    ensures Strip("a*b") == "ab"
  {
    assert "a*b"[..1] == "a" && "a*b"[1..] == "*b" && "*b"[1..] == "b";
    StripStars("b");
    assert Strip("*b") == "" + Strip("b");
    assert Strip("a*b") == ['a'] + Strip("*b");
  }

  lemma NotInFilled()
    ensures !Contains("axb", "ab")
  {
    ContainsStep("axb", "ab");
    ContainsStep("xb", "ab");
    ContainsStep("b", "ab");
    assert "axb"[1..] == "xb" && "xb"[1..] == "b" && "b"[1..] == "";
    assert "ab"[0] == 'a' && "ab"[1] == 'b' && "axb"[1] == 'x' && "xb"[0] == 'x';
  }

  /** For example. */
  lemma TwoRuns()
    ensures Matches(Pattern("a*b", Glob, false), "axb")
    ensures !IsProtected([Pattern("a*b", Glob, false)], "axb")
  {
    StarFilled();
    StarStripped();
    NotInFilled();
  }
}
