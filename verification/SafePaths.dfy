/** Which bundle paths are accepted (pt-bundle/src/manifest.rs), and why they are harmless:
    following such a path component by component never leaves the directory the bundle is
    unpacked in. Slash and backslash both separate components here; a drive prefix is a
    component like any other, so "C:\\x" is relative for this check, and accepted. */
module SafePaths {
  import opened Strings
  import opened Paths

  /** The checks of `validate` on a path. */
  predicate SafePath(path: string) {
    IsRelative(path) && !Contains(path, "..")
  }

  predicate IsRelative(path: string) {
    path != "" && path[0] != '/' && path[0] != '\\'
  }

  // --------------------------------------------------------- what a path means

  /** The components of a path, whichever separator it uses. */
  function Parts(path: string): seq<string> { Split(Slashes(path), '/') }

  /** How deep below the start one is after following the components. */
  function Depth(parts: seq<string>): int {
    if |parts| == 0 then 0
    else
      var before, part := Depth(parts[..|parts| - 1]), parts[|parts| - 1];
      if part == ".." then before - 1 else if part == "" || part == "." then before else before + 1
  }

  /** No step of the way is above the start. */
  ghost predicate StaysInside(path: string) {
    forall k | 0 <= k <= |Parts(path)| :: Depth(Parts(path)[..k]) >= 0
  }

  // ------------------------------------------------------------------ containment

  /** The first field ends at the first separator. */
  lemma {:induction false} FirstField(s: string)
    ensures Split(s, '/')[0] <= s
    ensures |Split(s, '/')[0]| < |s| ==> s[|Split(s, '/')[0]|] == '/'
  {
    if |s| > 0 && s[0] != '/' { FirstField(s[1..]); }
  }

  /** Two dots are in the text exactly when they are inside one of its fields. */
  lemma {:induction false} DotsInField(s: string)
    ensures Contains(s, "..") <==> SomeHasDots(Split(s, '/'))
  {
    var parts := Split(s, '/');
    if |s| == 0 {
      assert parts == [""] && !Contains("", "..");
    } else {
      var rest := Split(s[1..], '/');
      DotsInField(s[1..]);
      ContainsStep(s, "..");
      FirstField(s[1..]);
      if s[0] == '/' {
        SameFieldsAfter([""], rest, parts);
        assert !Contains("", "..");
      } else {
        var head := [s[0]] + rest[0];
        ContainsStep(head, "..");
        assert head[1..] == rest[0];
        DotsLead(s, head);
        FieldsWithHead(rest, parts, head);
      }
    }
  }

  lemma DotsLead(s: string, head: string)
    requires |s| > 0 && |head| > 0 && head <= s && (|head| < |s| ==> s[|head|] == '/')
    ensures ".." <= s <==> ".." <= head
  {
    assert ".." <= s <==> |s| >= 2 && s[0] == '.' && s[1] == '.';
    assert ".." <= head <==> |head| >= 2 && head[0] == '.' && head[1] == '.';
  }

  ghost predicate SomeHasDots(parts: seq<string>) {
    exists i | 0 <= i < |parts| :: Contains(parts[i], "..")
  }

  lemma SameFieldsAfter(front: seq<string>, rest: seq<string>, parts: seq<string>)
    requires parts == front + rest
    ensures SomeHasDots(parts) <==> SomeHasDots(front) || SomeHasDots(rest)
  {
    if i :| 0 <= i < |front| && Contains(front[i], "..") { assert parts[i] == front[i]; }
    if i :| 0 <= i < |rest| && Contains(rest[i], "..") { assert parts[|front| + i] == rest[i]; }
    if i :| 0 <= i < |parts| && Contains(parts[i], "..") {
      assert i >= |front| ==> parts[i] == rest[i - |front|];
    }
  }

  lemma FieldsWithHead(rest: seq<string>, parts: seq<string>, head: string)
    requires |rest| >= 1 && parts == [head] + rest[1..]
    ensures SomeHasDots(parts) <==> Contains(head, "..") || SomeHasDots(rest[1..])
    ensures SomeHasDots(rest) <==> Contains(rest[0], "..") || SomeHasDots(rest[1..])
  {
    SameFieldsAfter([head], rest[1..], parts);
    SameFieldsAfter([rest[0]], rest[1..], rest);
    assert SomeHasDots([head]) <==> Contains([head][0], "..");
    assert SomeHasDots([rest[0]]) <==> Contains([rest[0]][0], "..");
  }

  lemma DotsKeepSlashes(path: string)
    ensures Contains(Slashes(path), "..") <==> Contains(path, "..")
  {
    var s := Slashes(path);
    forall i | 0 <= i <= |s| ensures OccursAt(s, "..", i) <==> OccursAt(path, "..", i) {
      assert ".." <= s[i..] <==> i + 2 <= |s| && s[i] == '.' && s[i + 1] == '.';
      assert ".." <= path[i..] <==> i + 2 <= |s| && path[i] == '.' && path[i + 1] == '.';
    }
  }

  lemma {:induction false} NeverUp(parts: seq<string>)
    requires forall i | 0 <= i < |parts| :: parts[i] != ".."
    ensures Depth(parts) >= 0
  {
    if |parts| > 0 { NeverUp(parts[..|parts| - 1]); }
  }

  /** A path without a ".." component stays inside. */
  lemma NoParentStaysInside(path: string)
    requires ".." !in Parts(path)
    ensures StaysInside(path)
  {
    forall k | 0 <= k <= |Parts(path)| ensures Depth(Parts(path)[..k]) >= 0 {
      assert forall i | 0 <= i < k :: Parts(path)[..k][i] in Parts(path);
      NeverUp(Parts(path)[..k]);
    }
  }

  /** The check accepts exactly the relative paths none of whose components contains two
      dots in a row; every accepted path stays inside. */
  lemma SafePathExactly(path: string)
    ensures SafePath(path) <==> IsRelative(path) && !SomeHasDots(Parts(path))
    ensures SafePath(path) ==> StaysInside(path)
  {
    DotsKeepSlashes(path);
    DotsInField(Slashes(path));
    if SafePath(path) {
      forall i | 0 <= i < |Parts(path)| ensures Parts(path)[i] != ".." {
        if Parts(path)[i] == ".." {
          assert Parts(path)[i][0..] == "..";
          assert OccursAt(Parts(path)[i], "..", 0);
        }
      }
      NoParentStaysInside(path);
    }
  }

  /** The check is stricter than containment needs. A relative path is refused although it
      stays inside exactly when it stays inside and some component has two dots in its text. */
  lemma HarmlessButRefused(path: string)
    requires IsRelative(path)
    ensures StaysInside(path) && !SafePath(path) <==> StaysInside(path) && SomeHasDots(Parts(path))
  {
    SafePathExactly(path);
  }

  /** Corollary, for the rule that refuses parent components only: a relative path without one
      stays inside, and is refused exactly when some component has two dots in its text. */
  lemma ParentRuleWouldSuffice(path: string)
    requires IsRelative(path) && ".." !in Parts(path)
    ensures StaysInside(path)
    ensures !SafePath(path) <==> SomeHasDots(Parts(path))
  {
    NoParentStaysInside(path);
    SafePathExactly(path);
  }

  /** Stepping up first leaves. */
  lemma ParentLeaves()
    ensures !StaysInside("..")
  {
    SplitOne("..", '/');
    assert Slashes("..") == "..";
    assert Parts("..")[..1] == [] + [".."];
    DepthAfter([], "..");
  }

  /** A path with a parent component that stays inside is refused too. */
  lemma DownAndUp()
    ensures IsRelative("a/../b") && StaysInside("a/../b") && !SafePath("a/../b")
  {
    var p, parts := "a/../b", ["a", "..", "b"];
    PartsOfDownAndUp();
    assert parts[..0] == [] && parts[..1] == ["a"] && parts[..2] == ["a", ".."] && parts[..3] == parts;
    assert Depth(parts[..0]) == 0;
    DepthAfter([], "a");
    DepthAfter(["a"], "..");
    DepthAfter(["a", ".."], "b");
    forall k | 0 <= k <= |parts| ensures Depth(parts[..k]) >= 0 {
      assert k == 0 || k == 1 || k == 2 || k == 3;
    }
    assert p[2..] == "../b";
    assert OccursAt(p, "..", 2);
  }

  lemma PartsOfDownAndUp()
    ensures Parts("a/../b") == ["a", "..", "b"]
  {
    HeadField("a", "../b", '/');
    HeadField("..", "b", '/');
    SplitOne("b", '/');
    assert "a" + ['/'] + "../b" == "a/../b" && ".." + ['/'] + "b" == "../b";
    assert Slashes("a/../b") == "a/../b";
  }

  lemma DepthAfter(before: seq<string>, part: string)
    ensures Depth(before + [part])
         == Depth(before) + if part == ".." then -1 else if part == "" || part == "." then 0 else 1
  {
    assert (before + [part])[..|before|] == before;
  }

  /** For example. */
  lemma DottedName()
    ensures IsRelative("notes..txt") && StaysInside("notes..txt") && !SafePath("notes..txt")
  {
    var p := "notes..txt";
    assert Slashes(p) == p;
    SplitOne(p, '/');
    assert Parts(p) == [p] && p != "..";
    NoParentStaysInside(p);
    assert p[5..] == "..txt";
    assert OccursAt(p, "..", 5);
  }
}
