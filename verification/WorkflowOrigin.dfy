/** Stripping launcher wrappers off command lines (pt-common/src/workflow_origin.rs). */
module WorkflowOrigin {
  import opened Wrappers
  import opened Whitespace

  const WRAPPER_LAUNCHERS: seq<string> := [
    "nohup", "screen", "tmux", "nice", "ionice", "timeout", "env", "sudo", "su", "strace",
    "ltrace", "perf", "valgrind", "time", "taskset", "numactl", "chrt", "setsid", "daemonize",
    "start-stop-daemon"]

  ghost predicate AreNames(launchers: seq<string>) {
    forall i | 0 <= i < |launchers| :: NoWs(launchers[i])
  }

  predicate IsNameChar(c: char) { 'a' <= c <= 'z' || c == '-' }

  lemma NameChars(w: string)
    requires forall c | c in w :: IsNameChar(c)
    ensures NoWs(w)
  {}

  lemma EarlyLaunchers(i: nat)
    requires i < 7
    ensures forall c | c in WRAPPER_LAUNCHERS[i] :: IsNameChar(c)
  {}

  lemma MiddleLaunchers(i: nat)
    requires 7 <= i < 14
    ensures forall c | c in WRAPPER_LAUNCHERS[i] :: IsNameChar(c)
  {}

  lemma LateLaunchers(i: nat)
    requires 14 <= i < |WRAPPER_LAUNCHERS|
    ensures forall c | c in WRAPPER_LAUNCHERS[i] :: IsNameChar(c)
  {}

  lemma WrapperLaunchersAreNames()
    ensures AreNames(WRAPPER_LAUNCHERS)
  {
    forall i | 0 <= i < |WRAPPER_LAUNCHERS| ensures NoWs(WRAPPER_LAUNCHERS[i]) {
      if i < 7 { EarlyLaunchers(i); } else if i < 14 { MiddleLaunchers(i); } else { LateLaunchers(i); }
      NameChars(WRAPPER_LAUNCHERS[i]);
    }
  }

  /** The specification on tokens: leading launcher names go while a token remains. */
  function DropWrappers(names: set<string>, tokens: seq<string>): seq<string> {
    if |tokens| >= 2 && tokens[0] in names then DropWrappers(names, tokens[1..]) else tokens
  }

  function Names(launchers: seq<string>): set<string> { set w | w in launchers }

  /** One round: the word goes, with the white space around what follows. */
  function StripWord(s: string): string { Trim(s[|Word(s)|..]) }

  /** The specification on text. It mentions the launchers only as a set. */
  function Stripped(names: set<string>, s: string): string
    decreases |s|
  {
    if Word(s) != "" && |Word(s)| < |s| && Word(s) in names
    then TrimShrinks(s[|Word(s)|..]); Stripped(names, StripWord(s))
    else s
  }

  lemma TrimShrinks(s: string)
    ensures |Trim(s)| <= |s|
  {
    var lead, trail := TrimExact(s);
  }

  /** The prefix test of the source: the name, then a white-space character. */
  predicate Matches(launcher: string, s: string) {
    launcher <= s && |launcher| < |s| && IsWs(s[|launcher|])
  }

  lemma MatchStrips(names: set<string>, s: string, launcher: string)
    requires Trimmed(s) && NoWs(launcher) && launcher in names && Matches(launcher, s)
    ensures var rest := Trim(s[|launcher| + 1..]);
            Trimmed(rest) && |rest| < |s| && Stripped(names, rest) == Stripped(names, s)
  {
    WordTest(s, launcher);
    AfterWord(s);
    TrimShrinks(s[|launcher| + 1..]);
  }

  lemma NoMatchStops(launchers: seq<string>, s: string)
    requires AreNames(launchers)
    requires forall i | 0 <= i < |launchers| :: !Matches(launchers[i], s)
    ensures Stripped(Names(launchers), s) == s
  {
    if Word(s) in launchers {
      var i :| 0 <= i < |launchers| && launchers[i] == Word(s);
      WordTest(s, launchers[i]);
    }
  }

  /** The inner loop: the first launcher of the list that matches, if any. */
  method FirstMatch(launchers: seq<string>, line: string) returns (i: nat)
    ensures i <= |launchers| && (i < |launchers| ==> Matches(launchers[i], line))
    ensures forall j | 0 <= j < i :: !Matches(launchers[j], line)
  {
    i := 0;
    while i < |launchers| && !Matches(launchers[i], line)
      invariant i <= |launchers|
      invariant forall j | 0 <= j < i :: !Matches(launchers[j], line)
    {
      i := i + 1;
    }
  }

  /** One round of the outer loop. */
  method StripOne(launchers: seq<string>, line: string) returns (stripped: bool, rest: string)
    requires AreNames(launchers) && Trimmed(line)
    ensures Trimmed(rest) && Stripped(Names(launchers), rest) == Stripped(Names(launchers), line)
    ensures stripped ==> |rest| < |line|
    ensures !stripped ==> rest == line == Stripped(Names(launchers), line)
  {
    var i := FirstMatch(launchers, line);
    if i == |launchers| {
      NoMatchStops(launchers, line);
      return false, line;
    }
    MatchStrips(Names(launchers), line, launchers[i]);
    return true, Trim(line[|launchers[i]| + 1..]);
  }

  /** `strip_wrapper_launchers`, for any list of launcher names. The result does not
      depend on the order of the list, although some names are prefixes of others. */
  method StripWrapperLaunchers(launchers: seq<string>, cmdline: string) returns (remaining: string)
    requires AreNames(launchers)
    ensures remaining == Stripped(Names(launchers), Trim(cmdline))
    ensures IsSuffix(remaining, Trim(cmdline)) && Trimmed(remaining)
    ensures Tokens(remaining) == DropWrappers(Names(launchers), Tokens(cmdline))
    ensures Stripped(Names(launchers), Trim(remaining)) == remaining
  {
    remaining := Trim(cmdline);
    ghost var lead, trail := TrimExact(cmdline);
    var stripped := true;
    while stripped
      invariant Trimmed(remaining)
      invariant Stripped(Names(launchers), remaining) == Stripped(Names(launchers), Trim(cmdline))
      invariant !stripped ==> remaining == Stripped(Names(launchers), remaining)
      decreases stripped, |remaining|
    {
      stripped, remaining := StripOne(launchers, remaining);
    }
    StrippedExact(Names(launchers), Trim(cmdline));
    TrimFixed(remaining);
  }

  /** After the word comes white space, so trimming after one character more is the same. */
  lemma AfterWord(s: string)
    requires s != "" && Trimmed(s) && |Word(s)| < |s|
    ensures Word(s) != "" && StripWord(s) == Trim(s[|Word(s)| + 1..])
    ensures Trimmed(StripWord(s)) && StripWord(s) != ""
    ensures Tokens(StripWord(s)) == Tokens(s)[1..]
  {
    var rest := s[|Word(s)|..];
    assert rest[1..] == s[|Word(s)| + 1..];
    FirstToken(s);
    var lead, trail := TrimExact(rest);
    assert StripWord(s) == "" ==> Tokens(rest) == [];
  }

  predicate IsSuffix(r: string, s: string) {
    |r| <= |s| && s[|s| - |r|..] == r
  }

  lemma LastIsWs(a: string, trail: string)
    requires trail != "" && AllWs(trail)
    ensures IsWs((a + trail)[|a + trail| - 1])
  {
    assert trail[|trail| - 1] in trail;
  }

  /** Since the text ends in a non-space, only its front is cut. */
  lemma StripWordIsSuffix(s: string)
    requires s != "" && Trimmed(s) && |Word(s)| < |s|
    ensures IsSuffix(StripWord(s), s) && |StripWord(s)| < |s|
  {
    var rest := s[|Word(s)|..];
    FirstToken(s);
    var lead, trail := TrimExact(rest);
    if trail != "" { LastIsWs(lead + StripWord(s), trail); }
    AfterWord(s);
    assert rest == lead + StripWord(s);
    EndOfEnd(s, |Word(s)|, lead, StripWord(s));
  }

  lemma EndOfEnd(s: string, k: nat, lead: string, r: string)
    requires 0 < k <= |s| && s[k..] == lead + r
    ensures IsSuffix(r, s) && |r| < |s|
  {
    assert s[|s| - |r|..] == s[k..][|lead|..];
  }

  lemma SuffixTransitive(a: string, b: string, c: string)
    requires IsSuffix(a, b) && IsSuffix(b, c)
    ensures IsSuffix(a, c)
  {
    assert c[|c| - |a|..] == c[|c| - |b|..][|b| - |a|..];
  }

  /** The text form refines the token form: the result is a trimmed suffix of the trimmed
      command line, its tokens are the tokens left after dropping leading launcher names
      while another token remains, and stripping again changes nothing. */
  lemma {:induction false} StrippedExact(names: set<string>, s: string)
    requires Trimmed(s)
    ensures IsSuffix(Stripped(names, s), s) && Trimmed(Stripped(names, s))
    ensures Tokens(Stripped(names, s)) == DropWrappers(names, Tokens(s))
    ensures Stripped(names, Stripped(names, s)) == Stripped(names, s)
    decreases |s|
  {
    if Word(s) != "" && |Word(s)| < |s| && Word(s) in names {
      FirstToken(s);
      AfterWord(s);
      StripWordIsSuffix(s);
      StrippedExact(names, StripWord(s));
      SuffixTransitive(Stripped(names, s), StripWord(s), s);
    } else {
      KeptTokens(names, s);
    }
  }

  lemma KeptTokens(names: set<string>, s: string)
    requires Trimmed(s) && !(Word(s) != "" && |Word(s)| < |s| && Word(s) in names)
    ensures DropWrappers(names, Tokens(s)) == Tokens(s)
  {
    if s != "" { FirstToken(s); }
  }

  /** A line keeps at least one token: a lone final launcher is not stripped. */
  lemma {:induction false} SomethingRemains(names: set<string>, tokens: seq<string>)
    ensures tokens != [] ==> DropWrappers(names, tokens) != []
    ensures DropWrappers(names, DropWrappers(names, tokens)) == DropWrappers(names, tokens)
    ensures |DropWrappers(names, tokens)| >= 2 ==> DropWrappers(names, tokens)[0] !in names
  {
    if |tokens| >= 2 && tokens[0] in names { SomethingRemains(names, tokens[1..]); }
  }

  /** What is dropped, without recursion: n leading tokens, all of them launchers, such that no
      launcher is left in front of another token, and at least one token is kept. */
  ghost predicate DropsLaunchers(names: set<string>, tokens: seq<string>, n: nat) {
    && n <= |tokens| && (forall i | 0 <= i < n :: tokens[i] in names)
    && (tokens != [] ==> n < |tokens|)
    && (n + 1 < |tokens| ==> tokens[n] !in names)
  }

  lemma {:induction false} DropWrappersExactly(names: set<string>, tokens: seq<string>, n: nat)
    requires DropsLaunchers(names, tokens, n)
    ensures DropWrappers(names, tokens) == tokens[n..]
  {
    if n > 0 {
      assert tokens[0] in names;
      forall i | 0 <= i < n - 1 ensures tokens[1..][i] in names { assert tokens[1..][i] == tokens[i + 1]; }
      DropWrappersExactly(names, tokens[1..], n - 1);
    }
  }

  lemma {:induction false} SomeDrop(names: set<string>, tokens: seq<string>) returns (n: nat)
    ensures DropsLaunchers(names, tokens, n)
  {
    if |tokens| >= 2 && tokens[0] in names {
      var m := SomeDrop(names, tokens[1..]);
      n := m + 1;
    } else {
      n := 0;
    }
  }

  /** The launchers of the source. */
  lemma LauncherNames()
    ensures Names(WRAPPER_LAUNCHERS)
         == {"nohup", "screen", "tmux", "nice", "ionice", "timeout", "env", "sudo", "su", "strace"}
            + {"ltrace", "perf", "valgrind", "time", "taskset", "numactl", "chrt", "setsid", "daemonize"}
            + {"start-stop-daemon"}
  {}

  /** Any list with the same names strips every line the same way. */
  lemma OrderOfLaunchers(launchers: seq<string>, launchers': seq<string>, s: string)
    requires multiset(launchers) == multiset(launchers')
    ensures Stripped(Names(launchers), s) == Stripped(Names(launchers'), s)
  {
    assert Names(launchers) == Names(launchers') by {
      forall w ensures w in launchers <==> w in launchers' {
        assert w in launchers <==> w in multiset(launchers);
        assert w in launchers' <==> w in multiset(launchers');
      }
    }
  }

  // ------------------------------------------------- the wrapper signal

  /** The launcher that `classify_workflow_origin` records as stripped, if any. */
  function WrapperSignal(names: set<string>, cmdline: string): Option<string> {
    if Stripped(names, Trim(cmdline)) != cmdline then
      Some(if |Tokens(cmdline)| == 0 then "unknown" else Tokens(cmdline)[0])
    else None
  }

  /** The signal is meant to say that a launcher was stripped. The code compares with the
      untrimmed line, so it says so exactly on trimmed lines: any other line has a signal,
      wrapped or not. */
  lemma WrapperSignalExact(names: set<string>, cmdline: string)
    ensures var wrapped := |Tokens(cmdline)| >= 2 && Tokens(cmdline)[0] in names;
            && (WrapperSignal(names, cmdline).Some? <==> wrapped || !Trimmed(cmdline))
            && (wrapped ==> WrapperSignal(names, cmdline) == Some(Tokens(cmdline)[0]))
  {
    var lead, trail := TrimExact(cmdline);
    TrimFixed(cmdline);
    TrimShrinks(cmdline);
    ShorterIffWrapped(names, Trim(cmdline));
  }

  /** What the signal names: the first token, or "unknown" on a blank line. */
  lemma SignalNames(names: set<string>, cmdline: string)
    requires WrapperSignal(names, cmdline).Some?
    ensures WrapperSignal(names, cmdline).value == if Tokens(cmdline) == [] then "unknown" else Tokens(cmdline)[0]
  {}

  /** Stripping shortens exactly the lines that start with a launcher and go on. */
  lemma ShorterIffWrapped(names: set<string>, s: string)
    requires Trimmed(s)
    ensures var wrapped := |Tokens(s)| >= 2 && Tokens(s)[0] in names;
            if wrapped then |Stripped(names, s)| < |s| else Stripped(names, s) == s
  {
    if s != "" {
      FirstToken(s);
      if |Word(s)| < |s| && Word(s) in names {
        AfterWord(s);
        StripWordIsSuffix(s);
        StrippedExact(names, StripWord(s));
      }
    }
  }

  /** A plain command after a blank is reported as a launcher. */
  lemma BlankBeforeCommand()
    ensures WrapperSignal(Names(WRAPPER_LAUNCHERS), " pytest") == Some("pytest")
  {
    var s := " pytest";
    assert IsWs(s[0]) && s[1..] == "pytest";
    assert Trimmed("pytest") && NoWs("pytest");
    var lead, trail := TrimExact(s);
    WrapperSignalExact(Names(WRAPPER_LAUNCHERS), s);
    assert Tokens(s) == Tokens("pytest");
    FirstToken("pytest");
    WordOfWord("pytest");
  }
}
