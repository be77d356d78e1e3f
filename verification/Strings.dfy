/** Strings as sequences of Unicode scalar values, and the few library operations
    the source applies to them: ordering, splitting, joining, searching, replacing
    and trimming. Prefix tests are Dafny's own `p <= s`. */
module Strings {

  // ---------------------------------------------------------------- ordering

  /** The order of `str::cmp`, by scalar values; `Utf8.ByteOrderIsTextOrder` shows that it is
      the byte order on UTF-8. */
  predicate LexLe(a: string, b: string) {
    |a| == 0 || (|b| > 0 && (a[0] < b[0] || (a[0] == b[0] && LexLe(a[1..], b[1..]))))
  }

  lemma {:induction false} LexTotal(a: string, b: string)
    ensures LexLe(a, b) || LexLe(b, a)
    ensures LexLe(a, b) && LexLe(b, a) ==> a == b
  {
    if |a| > 0 && |b| > 0 && a[0] == b[0] {
      LexTotal(a[1..], b[1..]);
      assert a == [a[0]] + a[1..] && b == [b[0]] + b[1..];
    }
  }

  lemma {:induction false} LexTransitive(a: string, b: string, c: string)
    requires LexLe(a, b) && LexLe(b, c)
    ensures LexLe(a, c)
  {
    if |a| > 0 && a[0] == b[0] && b[0] == c[0] {
      LexTransitive(a[1..], b[1..], c[1..]);
    }
  }

  // ------------------------------------------------------- splitting, joining

  /** `s.split(sep)`: always at least one field. */
  function Split(s: string, sep: char): (parts: seq<string>)
    ensures |parts| >= 1
  {
    if |s| == 0 then [""]
    else
      var rest := Split(s[1..], sep);
      if s[0] == sep then [""] + rest else [[s[0]] + rest[0]] + rest[1..]
  }

  /** `parts.join(sep)`. */
  function Join(parts: seq<string>, sep: char): string {
    if |parts| == 0 then ""
    else if |parts| == 1 then parts[0]
    else parts[0] + [sep] + Join(parts[1..], sep)
  }

  ghost predicate Free(parts: seq<string>, sep: char) {
    forall i | 0 <= i < |parts| :: sep !in parts[i]
  }

  /** Joining, from the left. */
  lemma JoinExactly(part: string, parts: seq<string>, sep: char)
    ensures Join([], sep) == "" && Join([part], sep) == part
    ensures parts != [] ==> Join([part] + parts, sep) == part + [sep] + Join(parts, sep)
  {
    assert ([part] + parts)[1..] == parts;
  }

  lemma {:induction false} SplitFree(s: string, sep: char)
    ensures Free(Split(s, sep), sep)
  {
    if |s| > 0 { SplitFree(s[1..], sep); }
  }

  lemma {:induction false} SplitOne(s: string, sep: char)
    requires sep !in s
    ensures Split(s, sep) == [s]
  {
    if |s| > 0 {
      SplitOne(s[1..], sep);
      assert s == [s[0]] + s[1..];
    }
  }

  /** One step of `Split`, on text given by its first character. */
  lemma SplitStep(c: char, s: string, sep: char)
    ensures Split([c] + s, sep) ==
              var rest := Split(s, sep);
              if c == sep then [""] + rest else [[c] + rest[0]] + rest[1..]
  {
    assert ([c] + s)[1..] == s;
  }

  lemma {:induction false} SplitConcat(a: string, b: string, sep: char)
    ensures Split(a + [sep] + b, sep) == Split(a, sep) + Split(b, sep)
  {
    if |a| == 0 {
      SplitStep(sep, b, sep);
      assert a + [sep] + b == [sep] + b;
    } else {
      var c, rest := a[0], a[1..] + [sep] + b;
      SplitConcat(a[1..], b, sep);
      assert a + [sep] + b == [c] + rest && a == [c] + a[1..];
      SplitStep(c, rest, sep);
      SplitStep(c, a[1..], sep);
      HeadGrows(c, Split(a[1..], sep), Split(b, sep));
    }
  }

  lemma HeadGrows(c: char, xs: seq<string>, ys: seq<string>)
    requires |xs| >= 1
    ensures [[c] + (xs + ys)[0]] + (xs + ys)[1..] == [[c] + xs[0]] + xs[1..] + ys
    ensures [""] + (xs + ys) == [""] + xs + ys
  {}

  lemma {:induction false} JoinSplit(s: string, sep: char)
    ensures Join(Split(s, sep), sep) == s
  {
    if |s| > 0 {
      JoinSplit(s[1..], sep);
      var rest := Split(s[1..], sep);
      assert s == [s[0]] + s[1..];
      if s[0] == sep {
        assert ([""] + rest)[1..] == rest;
      } else {
        var parts := [[s[0]] + rest[0]] + rest[1..];
        assert parts[1..] == rest[1..];
        if |rest| > 1 {
          assert Join(parts, sep) == [s[0]] + (rest[0] + [sep] + Join(rest[1..], sep));
        }
      }
    }
  }

  lemma {:induction false} SplitJoin(parts: seq<string>, sep: char)
    requires |parts| >= 1 && Free(parts, sep)
    ensures Split(Join(parts, sep), sep) == parts
  {
    SplitOne(parts[0], sep);
    if |parts| > 1 {
      SplitConcat(parts[0], Join(parts[1..], sep), sep);
      SplitJoin(parts[1..], sep);
      assert parts == [parts[0]] + parts[1..];
    }
  }

  /** A separator-free head is the first field. */
  lemma HeadField(a: string, x: string, sep: char)
    requires sep !in a
    ensures Split(a + [sep] + x, sep) == [a] + Split(x, sep)
  {
    SplitConcat(a, x, sep);
    SplitOne(a, sep);
  }

  /** A separator-free head is determined by the text up to the first separator. */
  lemma SameHead(a: string, x: string, b: string, y: string, sep: char)
    requires sep !in a && sep !in b
    requires a + [sep] + x == b + [sep] + y
    ensures a == b && x == y
  {
    HeadField(a, x, sep);
    HeadField(b, y, sep);
    assert ([a] + Split(x, sep))[0] == a && ([b] + Split(y, sep))[0] == b;
    assert x == (a + [sep] + x)[|a| + 1..] && y == (b + [sep] + y)[|b| + 1..];
  }

  // ------------------------------------------------------ searching, replacing

  predicate OccursAt(s: string, p: string, i: int) {
    0 <= i <= |s| && p <= s[i..]
  }

  /** `s.contains(p)`. */
  predicate Contains(s: string, p: string) {
    exists i :: 0 <= i <= |s| && OccursAt(s, p, i)
  }

  lemma ContainsSplit(s: string, p: string) returns (a: string, b: string)
    requires Contains(s, p)
    ensures s == a + p + b
  {
    var i :| 0 <= i <= |s| && OccursAt(s, p, i);
    a, b := s[..i], s[i..][|p|..];
    assert s == s[..i] + s[i..];
  }

  /** A text contains exactly what it can be cut around. */
  lemma ContainsExactly(s: string, p: string)
    ensures Contains(s, p) <==> exists a: string, b: string :: s == a + p + b
  {
    if Contains(s, p) { var a, b := ContainsSplit(s, p); }
    if a: string, b: string :| s == a + p + b {
      assert s[|a|..] == p + b;
      assert OccursAt(s, p, |a|);
    }
  }

  /** One step of the scan: an occurrence is at the front or in the tail. */
  lemma ContainsStep(s: string, p: string)
    requires |s| > 0
    ensures Contains(s, p) <==> p <= s || Contains(s[1..], p)
  {
    if Contains(s, p) {
      var i :| 0 <= i <= |s| && OccursAt(s, p, i);
      assert i > 0 ==> s[1..][i - 1..] == s[i..] && OccursAt(s[1..], p, i - 1);
      assert i == 0 ==> s[i..] == s;
    }
    if p <= s {
      assert s[0..] == s;
      assert OccursAt(s, p, 0);
    }
    if Contains(s[1..], p) {
      var i :| 0 <= i <= |s[1..]| && OccursAt(s[1..], p, i);
      assert s[1..][i..] == s[i + 1..];
      assert OccursAt(s, p, i + 1);
    }
  }

  /** `s.replace(pat, out)`: leftmost, non-overlapping. */
  function Replace(s: string, pat: string, out: string): string
    requires |pat| > 0
  {
    if |s| == 0 then s
    else if pat <= s then out + Replace(s[|pat|..], pat, out)
    else [s[0]] + Replace(s[1..], pat, out)
  }

  /** Replacing, from the left. */
  lemma ReplaceExactly(c: char, s: string, pat: string, out: string)
    requires |pat| > 0
    ensures Replace("", pat, out) == "" && Replace(pat + s, pat, out) == out + Replace(s, pat, out)
    ensures !(pat <= [c] + s) ==> Replace([c] + s, pat, out) == [c] + Replace(s, pat, out)
  {
    assert (pat + s)[|pat|..] == s && ([c] + s)[1..] == s;
  }

  lemma {:induction false} ReplaceAbsent(s: string, pat: string, out: string)
    requires |pat| > 0 && !Contains(s, pat)
    ensures Replace(s, pat, out) == s
  {
    if |s| > 0 {
      ContainsStep(s, pat);
      ReplaceAbsent(s[1..], pat, out);
      assert s == [s[0]] + s[1..];
    }
  }

  // ------------------------------------------------------------ case, lengths

  /** ASCII lower-casing, character by character. */
  function Lower(s: string): (r: string)
    ensures |r| == |s|
  {
    seq(|s|, i requires 0 <= i < |s| => LowerChar(s[i]))
  }

  function LowerChar(c: char): char {
    if 'A' <= c <= 'Z' then (c as int + 32) as char else c
  }

  /** Two characters differ at most in ASCII case. */
  predicate SameLetter(c: char, d: char) {
    || c == d
    || ('A' <= c <= 'Z' && d as int == c as int + 32)
    || ('A' <= d <= 'Z' && c as int == d as int + 32)
  }

  /** Lower-casing forgets exactly the ASCII case, and leaves no upper-case letter. */
  lemma LowerExactly(s: string, t: string)
    ensures Lower(s) == Lower(t) <==> |s| == |t| && forall i | 0 <= i < |s| :: SameLetter(s[i], t[i])
    ensures forall i | 0 <= i < |s| :: !('A' <= Lower(s)[i] <= 'Z') && SameLetter(s[i], Lower(s)[i])
  {
    forall i | 0 <= i < |s| && i < |t| ensures Lower(s)[i] == Lower(t)[i] <==> SameLetter(s[i], t[i]) {}
    if |s| == |t| && forall i | 0 <= i < |s| :: SameLetter(s[i], t[i]) {
      assert forall i | 0 <= i < |s| :: Lower(s)[i] == Lower(t)[i];
    }
    if Lower(s) == Lower(t) {
      assert |Lower(s)| == |Lower(t)|;
      assert forall i | 0 <= i < |s| :: Lower(s)[i] == Lower(t)[i];
    }
  }

  lemma LowerConcat(a: string, b: string)
    ensures Lower(a + b) == Lower(a) + Lower(b)
  {}
}
