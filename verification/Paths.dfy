/** Path normal forms and the ancestor test (pt-common/src/workspace_evidence.rs). */
module Paths {
  import opened Strings
  import opened Utf8

  /** `path.replace('\\', "/")`. */
  function Slashes(s: string): (r: string)
    ensures |r| == |s|
  {
    seq(|s|, i requires 0 <= i < |s| => if s[i] == '\\' then '/' else s[i])
  }

  /** Exactly the backslashes become slashes. */
  lemma SlashesExactly(a: string, b: string)
    ensures Slashes(a + b) == Slashes(a) + Slashes(b)
    ensures Slashes("\\") == "/" && ('\\' !in a ==> Slashes(a) == a)
  {}

  /** `trim_end_matches('/')`. */
  function TrimEndSlashes(s: string): string {
    if |s| > 0 && s[|s| - 1] == '/' then TrimEndSlashes(s[..|s| - 1]) else s
  }

  /** `normalize_path_for_hashing`; `len` counts bytes. */
  function Normalize(path: string): string {
    var normalized := Slashes(path);
    if ByteLen(normalized) > 1 then TrimEndSlashes(normalized) else normalized
  }

  /** The normal forms: no backslash, and no final slash except in the root itself.
      (The empty string is one: it is the normal form of "//".) */
  predicate IsNormal(s: string) {
    '\\' !in s && (s == "/" || s == "" || s[|s| - 1] != '/')
  }

  lemma {:induction false} TrimEndExact(s: string)
    ensures TrimEndSlashes(s) <= s
    ensures TrimEndSlashes(s) == "" || TrimEndSlashes(s)[|TrimEndSlashes(s)| - 1] != '/'
    ensures forall i | |TrimEndSlashes(s)| <= i < |s| :: s[i] == '/'
  {
    if |s| > 0 && s[|s| - 1] == '/' { TrimEndExact(s[..|s| - 1]); }
  }

  lemma OneByte(s: string)
    ensures ByteLen(s) <= 1 <==> |s| == 0 || (|s| == 1 && s[0] as int < 0x80)
  {
    if |s| > 1 {
      assert |Encode(s[1..])| >= 1;
    } else if |s| == 1 {
      assert Encode(s) == EncodeChar(s[0]) + Encode("");
    }
  }

  /** Normalisation yields a normal form and leaves normal forms alone, so it is idempotent. */
  lemma NormalizeExact(p: string)
    ensures IsNormal(Normalize(p))
    ensures Normalize(p) == p <==> IsNormal(p)
    ensures Normalize(Normalize(p)) == Normalize(p)
  {
    NormalizeIsNormal(p);
    NormalIsFixed(Normalize(p));
    if IsNormal(p) { NormalIsFixed(p); }
  }

  lemma NormalizeIsNormal(p: string)
    ensures IsNormal(Normalize(p))
  {
    var s := Slashes(p);
    TrimEndExact(s);
    OneByte(s);
  }

  lemma NormalIsFixed(p: string)
    requires IsNormal(p)
    ensures Normalize(p) == p
  {
    assert Slashes(p) == p;
    OneByte(p);
  }

  function Run(k: nat): string { seq(k, i => '/') }

  lemma ProperSpellings(p: string, n: string)
    requires IsNormal(n) && n != "" && n != "/"
    ensures Normalize(p) == n <==> exists k: nat :: Slashes(p) == n + Run(k)
  {
    var s := Slashes(p);
    OneByte(s);
    if Normalize(p) == n {
      TrimEndExact(s);
      if ByteLen(s) > 1 {
        assert s == n + Run(|s| - |n|);
      } else {
        assert s == n + Run(0);
      }
    }
    if k: nat :| s == n + Run(k) {
      TrimRun(n, k);
      if k == 0 { assert s == n; }
    }
  }

  lemma {:induction false} TrimRun(n: string, k: nat)
    requires n == "" || n[|n| - 1] != '/'
    ensures TrimEndSlashes(n + Run(k)) == n
  {
    var s := n + Run(k);
    if k == 0 {
      assert s == n;
    } else {
      assert s[..|s| - 1] == n + Run(k - 1);
      TrimRun(n, k - 1);
    }
  }

  /** The two special normal forms. The root is itself only: the empty string is the normal
      form of every longer run of slashes, which would be expected to mean the root. */
  lemma RunsOfSlashes(p: string)
    ensures Normalize(p) == "/" <==> Slashes(p) == "/"
    ensures Normalize(p) == "" <==> Slashes(p) == "" || exists k: nat :: k >= 2 && Slashes(p) == Run(k)
  {
    var s := Slashes(p);
    OneByte(s);
    TrimEndExact(s);
    if ByteLen(s) > 1 {
      if Normalize(p) == "" {
        assert s == Run(|s|);
        OneByte("/");
        assert |s| == 1 ==> s == "/";
      }
    }
    if k: nat :| k >= 2 && s == Run(k) {
      TrimRun("", k);
      assert "" + Run(k) == Run(k);
    }
  }

  /** A spelling differs in separators and final slashes. The root has no other spelling, and
      a single slash is not one of the empty path. */
  ghost predicate Spells(p: string, n: string) {
    if n == "/" then Slashes(p) == "/" else exists k: nat :: Slashes(p) == n + Run(k) && (n == "" ==> k != 1)
  }

  /** A path has a given normal form exactly when it spells it. */
  lemma SpellingsOf(p: string, n: string)
    requires IsNormal(n)
    ensures Normalize(p) == n <==> Spells(p, n)
  {
    RunsOfSlashes(p);
    if n == "" {
      assert forall k: nat :: n + Run(k) == Run(k);
      assert Run(0) == "";
    } else if n != "/" {
      ProperSpellings(p, n);
    }
  }

  lemma DoubleSlash()
    ensures Normalize("/") == "/" && Normalize("") == "" && Normalize("//") == ""
  {
    TrimRun("", 2);
    assert "" + Run(2) == "//";
    assert Slashes("//") == "//" && Slashes("/") == "/";
    OneByte("//"); OneByte("/"); OneByte("");
  }

  // --------------------------------------------------------- the ancestor test

  /** `is_path_under`. */
  predicate IsPathUnder(parent: string, child: string) {
    var parentNorm, childNorm := Normalize(parent), Normalize(child);
    if childNorm == parentNorm then true
    else
      var parentPrefix :=
        if |parentNorm| > 0 && parentNorm[|parentNorm| - 1] == '/' then parentNorm else parentNorm + "/";
      parentPrefix <= childNorm
  }

  /** The path's components. */
  function Components(norm: string): seq<string> { Split(norm, '/') }

  lemma {:induction false} PrefixByComponents(p: string, c: string)
    ensures (p == c || p + "/" <= c) <==> Components(p) <= Components(c)
  {
    var ps, cs := Components(p), Components(c);
    if p + "/" <= c {
      var rest := c[|p| + 1..];
      assert c == p + ['/'] + rest;
      SplitConcat(p, rest, '/');
    }
    if ps <= cs {
      JoinSplit(p, '/');
      JoinSplit(c, '/');
      if |ps| < |cs| {
        var rest := cs[|ps|..];
        assert cs == ps + rest;
        JoinConcat(ps, rest);
        assert p + "/" == c[..|p| + 1];
      } else {
        assert ps == cs;
      }
    }
  }

  lemma {:induction false} JoinConcat(a: seq<string>, b: seq<string>)
    requires |a| >= 1 && |b| >= 1
    ensures Join(a + b, '/') == Join(a, '/') + "/" + Join(b, '/')
  {
    if |a| == 1 {
      assert (a + b)[1..] == b;
    } else {
      assert (a + b)[1..] == a[1..] + b;
      JoinConcat(a[1..], b);
    }
  }

  /** The string test is component ancestry, so siblings such as `/project` and
      `/project2` are never confused. The root is the one normal form that ends in a
      slash: it is above exactly the absolute paths. */
  lemma AncestryByComponents(parent: string, child: string)
    ensures Normalize(parent) != "/" ==>
              (IsPathUnder(parent, child) <==> Components(Normalize(parent)) <= Components(Normalize(child)))
    ensures Normalize(parent) == "/" ==>
              (IsPathUnder(parent, child) <==> "/" <= Normalize(child))
    ensures Normalize(parent) == "/" ==>
              (IsPathUnder(parent, child) <==> [""] < Components(Normalize(child)))
  {
    var p, c := Normalize(parent), Normalize(child);
    NormalizeExact(parent);
    PrefixByComponents(p, c);
    if p == "/" {
      PrefixByComponents("", c);
      SplitOne("", '/');
      assert "" + "/" == "/";
      if "/" <= c { HeadField("", c[1..], '/'); assert c == "" + ['/'] + c[1..]; }
      if c == "" { SplitOne("", '/'); }
    }
  }

  /** The test depends on normal forms only. */
  lemma UnderIsInvariant(parent: string, child: string)
    ensures IsPathUnder(parent, child) <==> IsPathUnder(Normalize(parent), Normalize(child))
  {
    NormalizeExact(parent);
    NormalizeExact(child);
  }

  /** The ancestor prefix of a normal form. */
  function Dir(n: string): string { if n == "/" then n else n + "/" }

  lemma UnderByDir(parent: string, child: string)
    ensures IsPathUnder(parent, child)
       <==> Normalize(parent) == Normalize(child) || Dir(Normalize(parent)) <= Normalize(child)
  {
    NormalizeExact(parent);
  }

  /** A tree order: reflexive, antisymmetric up to normalisation, transitive, and the
      paths above a given path form a chain. */
  lemma TreeOrder(a: string, b: string, c: string)
    ensures IsPathUnder(a, a)
    ensures IsPathUnder(a, b) && IsPathUnder(b, a) ==> Normalize(a) == Normalize(b)
    ensures IsPathUnder(a, b) && IsPathUnder(b, c) ==> IsPathUnder(a, c)
    ensures IsPathUnder(a, c) && IsPathUnder(b, c) ==> IsPathUnder(a, b) || IsPathUnder(b, a)
  {
    UnderByDir(a, b); UnderByDir(b, a); UnderByDir(b, c); UnderByDir(a, c);
    var na, nb, nc := Normalize(a), Normalize(b), Normalize(c);
    assert nb <= Dir(nb) && na <= Dir(na);
    if Dir(na) <= nc && Dir(nb) <= nc {
      Chain(na, nb, nc);
    }
  }

  lemma Chain(na: string, nb: string, nc: string)
    requires Dir(na) <= nc && Dir(nb) <= nc
    ensures na == nb || Dir(na) <= nb || Dir(nb) <= na
  {
    if |Dir(na)| < |Dir(nb)| {
      assert Dir(na) == nc[..|Dir(na)|] && nb == nc[..|nb|];
    } else if |Dir(nb)| < |Dir(na)| {
      assert Dir(nb) == nc[..|Dir(nb)|] && na == nc[..|na|];
    } else {
      assert Dir(na) == Dir(nb);
      assert na != "/" && nb != "/" ==> na == Dir(na)[..|na|] && nb == Dir(nb)[..|nb|];
      assert na == "/" || nb == "/" ==> Dir(na) == "/" == Dir(nb);
    }
  }
}
