/** Command signatures (pt-common/src/categories.rs). The signature is a digest of the
    normalised command; what is proved is about the normalised command itself. */
module Categories {
  import opened Strings
  import opened Whitespace
  import opened StableSort

  datatype Category =
    | Test | DevServer | Agent | Server | Daemon | Build | Editor | Shell | Database | Vcs
    | PackageManager | Container | Unknown

  function Name(c: Category): string {
    match c
    case Test => "test"
    case DevServer => "devserver"
    case Agent => "agent"
    case Server => "server"
    case Daemon => "daemon"
    case Build => "build"
    case Editor => "editor"
    case Shell => "shell"
    case Database => "database"
    case Vcs => "vcs"
    case PackageManager => "package_manager"
    case Container => "container"
    case Unknown => "unknown"
  }

  lemma NamesAreTags(c: Category, c': Category)
    ensures ':' !in Name(c)
    ensures Name(c) == Name(c') ==> c == c'
  {
    // the first three letters tell the names apart
    assert |Name(c)| > 2 && |Name(c')| > 2;
    if Name(c) == Name(c') {
      assert Name(c)[0] == Name(c')[0] && Name(c)[1] == Name(c')[1] && Name(c)[2] == Name(c')[2];
    }
  }

  function Last(parts: seq<string>): string
    requires |parts| >= 1
  {
    parts[|parts| - 1]
  }

  /** The executable name: what follows the last slash, then the last backslash. */
  function BaseCommand(token: string): string {
    Last(Split(Last(Split(token, '/')), '\\'))
  }

  /** Text r is what follows the last character of s that is one of the separators. */
  ghost predicate AfterLast(r: string, s: string, separators: set<char>) {
    && (forall c | c in separators :: c !in r)
    && (r == s || exists front: string, c | c in separators :: s == front + [c] + r)
  }

  lemma {:induction false} LastField(s: string, sep: char)
    ensures AfterLast(Last(Split(s, sep)), s, {sep})
  {
    SplitFree(s, sep);
    if |s| > 0 {
      var c, tail := s[0], s[1..];
      var rest := Split(tail, sep);
      LastField(tail, sep);
      assert s == [c] + tail;
      if |rest| > 1 || c == sep {
        assert Last(Split(s, sep)) == Last(rest);
        if Last(rest) == tail {
          if c == sep { assert s == "" + [sep] + tail; } else { SplitOneOnly(tail, sep); }
        } else {
          var front: string, d :| d in {sep} && tail == front + [d] + Last(rest);
          assert s == ([c] + front) + [d] + Last(rest);
        }
      } else {
        JoinSplit(tail, sep);
      }
    }
  }

  lemma SplitOneOnly(s: string, sep: char)
    requires Last(Split(s, sep)) == s
    ensures |Split(s, sep)| == 1
  {
    SplitFree(s, sep);
    SplitOne(s, sep);
  }

  /** The base name is what follows the last separator of either kind. */
  lemma BaseCommandExact(token: string)
    ensures AfterLast(BaseCommand(token), token, {'/', '\\'})
  {
    var name, r := Last(Split(token, '/')), BaseCommand(token);
    LastField(token, '/');
    LastField(name, '\\');
    if r != name {
      var front: string, c :| c in {'\\'} && name == front + [c] + r;
      assert '/' !in r;
      if name != token {
        var lead: string, d :| d in {'/'} && token == lead + [d] + name;
        assert token == (lead + [d] + front) + [c] + r;
      }
    } else if name != token {
      var lead: string, d :| d in {'/'} && token == lead + [d] + name;
      assert token == lead + [d] + r;
    }
  }

  predicate IsFlag(token: string) { |token| > 0 && token[0] == '-' }

  lemma FlagsStartWithDash(token: string)
    ensures IsFlag(token) <==> exists rest: string :: token == "-" + rest
  {
    if IsFlag(token) { assert token == "-" + token[1..]; }
  }

  /** The flag without its value. */
  function FlagName(token: string): string { Split(token, '=')[0] }

  /** The flag names of the tokens, in order. */
  function Flags(tokens: seq<string>): seq<string> {
    if |tokens| == 0 then []
    else (if IsFlag(tokens[0]) then [FlagName(tokens[0])] else []) + Flags(tokens[1..])
  }

  /** `dedup`: of equal neighbours the first is kept. */
  function Dedup(xs: seq<string>): seq<string> {
    if |xs| <= 1 then xs
    else if xs[0] == xs[1] then Dedup(xs[1..])
    else [xs[0]] + Dedup(xs[1..])
  }

  /** The flag's name is the text before its first equals sign, or all of it. */
  lemma {:induction false} FlagNameExact(token: string)
    ensures FlagName(token) <= token && '=' !in FlagName(token)
    ensures FlagName(token) == token || token[|FlagName(token)|] == '='
  {
    if |token| > 0 && token[0] != '=' { FlagNameExact(token[1..]); }
  }

  function Id(s: string): string { s }

  /** The specification: only the set of flags matters. */
  ghost predicate ListsSet(xs: seq<string>, s: set<string>) {
    && (forall x :: x in xs <==> x in s)
    && (forall i, j | 0 <= i < j < |xs| :: LexLe(xs[i], xs[j]) && xs[i] != xs[j])
  }

  function FlagSet(tokens: seq<string>): set<string> { set f | f in Flags(tokens) }

  /** `normalize_command_tokens`. */
  method NormalizeCommandTokens(command: string, category: Category) returns (r: string)
    ensures r == Normalized(command, category)
  {
    var tokens := Tokens(command);
    if |tokens| == 0 {
      return Name(category) + ":unknown";
    }
    var baseCmd := BaseCommand(tokens[0]);
    var flags := Flags(tokens[1..]);
    flags := Sort(flags, Id);
    flags := Dedup(flags);
    var flagsStr := Join(flags, ',');
    r := Format(Name(category), baseCmd, flagsStr);
  }

  /** The three fields of a normal form. */
  function Format(name: string, baseCmd: string, flags: string): string {
    name + ":" + baseCmd + ":" + flags
  }

  /** The normal form on values. */
  function Normalized(command: string, category: Category): string {
    var tokens := Tokens(command);
    if |tokens| == 0 then Name(category) + ":unknown"
    else Format(Name(category), BaseCommand(tokens[0]), Join(FlagList(tokens), ','))
  }

  function FlagList(tokens: seq<string>): seq<string>
    requires |tokens| >= 1
  {
    Dedup(Sort(Flags(tokens[1..]), Id))
  }

  // -------------------------------------------- sorted, deduplicated, canonical

  lemma {:induction false} DedupLists(xs: seq<string>)
    requires Sorted(xs, Id)
    ensures ListsSet(Dedup(xs), set x | x in xs)
    ensures |xs| > 0 ==> |Dedup(xs)| > 0 && Dedup(xs)[0] == xs[0]
  {
    if |xs| > 1 {
      DedupLists(xs[1..]);
      var rest := Dedup(xs[1..]);
      if xs[0] != xs[1] {
        forall j | 0 <= j < |rest| ensures LexLe(xs[0], rest[j]) && xs[0] != rest[j] {
          assert rest[j] in rest;
          var k :| 1 <= k < |xs| && xs[k] == rest[j];
          assert LexLe(Id(xs[0]), Id(xs[k])) && LexLe(Id(xs[0]), Id(xs[1]));
          if xs[0] == xs[k] {
            assert k > 1 ==> LexLe(Id(xs[1]), Id(xs[k]));
            LexTotal(xs[0], xs[1]);
          }
        }
      }
    }
  }

  lemma FlagListLists(tokens: seq<string>)
    requires |tokens| >= 1
    ensures ListsSet(FlagList(tokens), FlagSet(tokens[1..]))
  {
    var flags := Flags(tokens[1..]);
    SortSorted(flags, Id);
    SortMultiset(flags, Id);
    DedupLists(Sort(flags, Id));
    forall x ensures x in Sort(flags, Id) <==> x in flags {
      assert x in Sort(flags, Id) <==> x in multiset(Sort(flags, Id));
      assert x in flags <==> x in multiset(flags);
    }
  }

  /** A normal form, spelled out: the category's name, the text after the last separator of the
      first token, and the flag names joined by commas. */
  lemma NormalizedSpelledOut(command: string, category: Category) returns (base: string, flags: seq<string>)
    requires |Tokens(command)| >= 1
    ensures AfterLast(base, Tokens(command)[0], {'/', '\\'})
    ensures ListsSet(flags, FlagSet(Tokens(command)[1..]))
    ensures Normalized(command, category) == Name(category) + ":" + base + ":" + Join(flags, ',')
  {
    base, flags := BaseCommand(Tokens(command)[0]), FlagList(Tokens(command));
    BaseCommandExact(Tokens(command)[0]);
    FlagListLists(Tokens(command));
  }

  /** Without a token the command is unknown. */
  lemma NormalizedEmpty(command: string, category: Category)
    requires Tokens(command) == []
    ensures Normalized(command, category) == Name(category) + ":unknown"
  {}

  /** The names of the categories. */
  lemma NamesSpelledOut()
    ensures Name(Test) == "test" && Name(DevServer) == "devserver" && Name(Agent) == "agent"
    ensures Name(Server) == "server" && Name(Daemon) == "daemon" && Name(Build) == "build"
    ensures Name(Editor) == "editor" && Name(Shell) == "shell" && Name(Database) == "database"
    ensures Name(Vcs) == "vcs" && Name(PackageManager) == "package_manager" && Name(Container) == "container"
    ensures Name(Unknown) == "unknown"
  {}

  lemma EmptyListing(xs: seq<string>, s: set<string>)
    requires ListsSet(xs, s)
    ensures |xs| == 0 <==> s == {}
  {
    if |xs| > 0 { assert xs[0] in s; }
  }

  /** A set has one sorted listing. */
  lemma {:induction false} OneListing(xs: seq<string>, ys: seq<string>, s: set<string>)
    requires ListsSet(xs, s) && ListsSet(ys, s)
    ensures xs == ys
  {
    EmptyListing(xs, s);
    EmptyListing(ys, s);
    if |xs| > 0 {
      assert xs[0] in s && xs[0] in ys;
      assert ys[0] in s && ys[0] in xs;
      var i :| 0 <= i < |ys| && ys[i] == xs[0];
      var j :| 0 <= j < |xs| && xs[j] == ys[0];
      assert i > 0 ==> LexLe(ys[0], ys[i]);
      assert j > 0 ==> LexLe(xs[0], xs[j]);
      LexTotal(xs[0], ys[0]);
      assert xs[0] == ys[0];
      TailLists(xs, s);
      TailLists(ys, s);
      OneListing(xs[1..], ys[1..], s - {xs[0]});
      assert xs == [xs[0]] + xs[1..] && ys == [ys[0]] + ys[1..];
    }
  }

  lemma TailLists(xs: seq<string>, s: set<string>)
    requires ListsSet(xs, s) && |xs| > 0
    ensures ListsSet(xs[1..], s - {xs[0]})
  {
    forall x ensures x in xs[1..] <==> x in s - {xs[0]} {
      assert x in xs <==> x == xs[0] || x in xs[1..] by { assert xs == [xs[0]] + xs[1..]; }
    }
  }

  /** For a fixed category the normal form depends only on the base name and the set of
      flag names: not on the order or the repetition of tokens after the first, on flag
      values, or on arguments that are not flags. */
  lemma SameBaseSameFlags(command: string, command': string, category: Category)
    requires |Tokens(command)| >= 1 && |Tokens(command')| >= 1
    requires BaseCommand(Tokens(command)[0]) == BaseCommand(Tokens(command')[0])
    requires FlagSet(Tokens(command)[1..]) == FlagSet(Tokens(command')[1..])
    ensures Normalized(command, category) == Normalized(command', category)
  {
    FlagListLists(Tokens(command));
    FlagListLists(Tokens(command'));
    OneListing(FlagList(Tokens(command)), FlagList(Tokens(command')), FlagSet(Tokens(command)[1..]));
  }

  /** Two edits of the arguments that leave the flag set alone: any rearrangement, and
      any change of values or of arguments that are not flags. */
  lemma {:induction false} FlagSetOf(tokens: seq<string>, f: string)
    ensures f in FlagSet(tokens) <==> exists i | 0 <= i < |tokens| :: IsFlag(tokens[i]) && FlagName(tokens[i]) == f
  {
    if |tokens| > 0 {
      FlagSetOf(tokens[1..], f);
      assert f in FlagSet(tokens) <==> (IsFlag(tokens[0]) && FlagName(tokens[0]) == f) || f in FlagSet(tokens[1..]);
      if i :| 0 <= i < |tokens| && IsFlag(tokens[i]) && FlagName(tokens[i]) == f {
        assert i > 0 ==> tokens[1..][i - 1] == tokens[i];
      }
      if i :| 0 <= i < |tokens[1..]| && IsFlag(tokens[1..][i]) && FlagName(tokens[1..][i]) == f {
        assert tokens[i + 1] == tokens[1..][i];
      }
    }
  }

  lemma ArgumentsRearranged(args: seq<string>, args': seq<string>)
    requires forall t :: t in args <==> t in args'
    ensures FlagSet(args) == FlagSet(args')
  {
    forall f ensures f in FlagSet(args) <==> f in FlagSet(args') {
      FlagSetOf(args, f);
      FlagSetOf(args', f);
      if i :| 0 <= i < |args| && IsFlag(args[i]) && FlagName(args[i]) == f { assert args[i] in args'; }
      if i :| 0 <= i < |args'| && IsFlag(args'[i]) && FlagName(args'[i]) == f { assert args'[i] in args; }
    }
  }
}
