/** When a normalised command stands for one command only (pt-common/src/categories.rs).

    Two commands are the same here when category, base name and set of flags are. The
    normal form joins them with ':' and ',', which the base name and the flags may contain
    themselves. A joined flag list is empty or starts with '-', so only ":-" in a base name
    and ",-" in a flag can be misread from the left; read from the right, a joined list can
    also pass for one flag, and its start for the end of a base name. */
module Signatures {
  import opened Strings
  import opened Whitespace
  import opened StableSort
  import opened Categories

  predicate PlainFlag(f: string) { NoWs(f) && IsFlag(f) && '=' !in f }

  lemma OneFlag(f: string)
    requires PlainFlag(f)
    ensures Flags([f]) == [f] && Dedup(Sort([f], Id)) == [f] && Join([f], ',') == f
  {
    SplitOne(f, '=');
    SortedIsKept([f], Id);
  }

  lemma TwoFlags(f: string, g: string)
    requires PlainFlag(f) && PlainFlag(g) && LexLe(f, g) && f != g
    ensures Flags([f, g]) == [f, g] && Dedup(Sort([f, g], Id)) == [f, g] && Join([f, g], ',') == f + "," + g
  {
    SplitOne(f, '=');
    OneFlag(g);
    assert [f, g][1..] == [g];
    SortedIsKept([f, g], Id);
  }

  // ------------------------------------------------ what the fields can be

  /** The base names of commands. */
  predicate IsBase(b: string) { NoWs(b) && '/' !in b && '\\' !in b }

  /** The flag lists of commands: strictly sorted plain flags. */
  ghost predicate IsFlagList(fs: seq<string>) {
    && (forall i | 0 <= i < |fs| :: PlainFlag(fs[i]))
    && (forall i, j | 0 <= i < j < |fs| :: LexLe(fs[i], fs[j]) && fs[i] != fs[j])
  }

  lemma {:induction false} FlagsArePlain(tokens: seq<string>)
    requires forall i | 0 <= i < |tokens| :: NoWs(tokens[i])
    ensures forall f | f in Flags(tokens) :: PlainFlag(f)
  {
    if |tokens| > 0 {
      FlagsArePlain(tokens[1..]);
      FlagNameExact(tokens[0]);
      assert forall c | c in FlagName(tokens[0]) :: c in tokens[0];
    }
  }

  lemma BaseIsBase(token: string)
    requires NoWs(token)
    ensures IsBase(BaseCommand(token))
  {
    BaseCommandExact(token);
    var r := BaseCommand(token);
    if r != token {
      var front: string, c :| c in {'/', '\\'} && token == front + [c] + r;
      assert forall d | d in r :: d in token;
    }
    assert '/' in {'/', '\\'} && '\\' in {'/', '\\'};
  }

  /** Every command's fields are of this form. */
  lemma FieldsOf(command: string)
    requires |Tokens(command)| >= 1
    ensures IsBase(BaseCommand(Tokens(command)[0])) && IsFlagList(FlagList(Tokens(command)))
    ensures FlagSet(Tokens(command)[1..]) == set f | f in FlagList(Tokens(command))
  {
    var ts := Tokens(command);
    TokensAreWords(command);
    BaseIsBase(ts[0]);
    FlagListLists(ts);
    FlagsArePlain(ts[1..]);
    forall i | 0 <= i < |FlagList(ts)| ensures PlainFlag(FlagList(ts)[i]) {
      assert FlagList(ts)[i] in FlagSet(ts[1..]);
    }
  }

  /** The line of the given tokens. */
  function Line(tokens: seq<string>): string
    requires |tokens| >= 1
  {
    if |tokens| == 1 then tokens[0] else tokens[0] + " " + Line(tokens[1..])
  }

  lemma {:induction false} LineTokens(tokens: seq<string>)
    requires |tokens| >= 1 && forall i | 0 <= i < |tokens| :: tokens[i] != "" && NoWs(tokens[i])
    ensures Tokens(Line(tokens)) == tokens
  {
    if |tokens| == 1 {
      TokenThen(tokens[0], "");
    } else {
      LineTokens(tokens[1..]);
      TokenThen(tokens[0], Line(tokens[1..]));
    }
  }

  lemma {:induction false} PlainFlagsKept(fs: seq<string>)
    requires forall i | 0 <= i < |fs| :: PlainFlag(fs[i])
    ensures Flags(fs) == fs
  {
    if |fs| > 0 {
      SplitOne(fs[0], '=');
      PlainFlagsKept(fs[1..]);
    }
  }

  /** And all such fields are some command's. */
  lemma CommandWith(b: string, fs: seq<string>) returns (command: string)
    requires IsBase(b) && IsFlagList(fs)
    ensures |Tokens(command)| >= 1
    ensures BaseCommand(Tokens(command)[0]) == b && FlagList(Tokens(command)) == fs
  {
    var ts := ["/" + b] + fs;
    command := Line(ts);
    assert forall i | 0 < i < |ts| :: ts[i] == fs[i - 1];
    LineTokens(ts);
    SlashBase(b);
    assert ts[1..] == fs;
    PlainFlagsKept(fs);
    FlagListLists(ts);
    OneListing(FlagList(ts), fs, FlagSet(fs));
  }

  lemma SlashBase(b: string)
    requires IsBase(b)
    ensures BaseCommand("/" + b) == b
  {
    assert "/" + b == "" + ['/'] + b;
    HeadField("", b, '/');
    SplitOne(b, '/');
    SplitOne(b, '\\');
  }

  lemma JoinStep(fs: seq<string>)
    requires |fs| >= 1
    ensures Join(fs, ',') == fs[0] + (if |fs| == 1 then "" else "," + Join(fs[1..], ','))
  {
    if |fs| > 1 { AfterComma(fs[0], Join(fs[1..], ',')); }
  }

  lemma AfterComma(f: string, j: string)
    ensures f + [','] + j == f + ("," + j)
  {
    assert "," == [','];
  }

  /** A joined list of flags reads as one plain flag. */
  lemma {:induction false} JoinIsPlain(fs: seq<string>)
    requires |fs| >= 1 && forall i | 0 <= i < |fs| :: PlainFlag(fs[i])
    ensures PlainFlag(Join(fs, ','))
  {
    JoinStep(fs);
    if |fs| > 1 {
      JoinIsPlain(fs[1..]);
      var j := Join(fs[1..], ',');
      assert forall c | c in fs[0] + ("," + j) :: c in fs[0] || c == ',' || c in j;
    }
  }

  // --------------------------------------------------- injectivity, in general

  /** After its first flag a longer list goes on with a comma and a dash. */
  lemma CommaDashAfter(xs: seq<string>)
    requires |xs| >= 2 && forall i | 0 <= i < |xs| :: PlainFlag(xs[i])
    ensures var r, k := Join(xs, ','), |xs[0]|; |r| >= k + 2 && r[k] == ',' && r[k + 1] == '-'
  {
    JoinStep(xs);
    JoinIsPlain(xs[1..]);
    var j := Join(xs[1..], ',');
    assert (xs[0] + ("," + j))[|xs[0]| + 1] == j[0];
  }

  /** A comma and a dash are inside the first flag when the comma is. */
  lemma CommaDashInside(ys: seq<string>, k: nat)
    requires |ys| >= 1 && k < |ys[0]| && |Join(ys, ',')| >= k + 2
    requires Join(ys, ',')[k] == ',' && Join(ys, ',')[k + 1] == '-'
    ensures Contains(ys[0], ",-")
  {
    JoinStep(ys);
    var y, r := ys[0], Join(ys, ',');
    assert r[k] == y[k];
    assert |y| > k + 1;
    assert y[k + 1] == r[k + 1];
    CommaDashOccurs(y, k);
  }

  lemma CommaDashOccurs(y: string, k: nat)
    requires k + 1 < |y| && y[k] == ',' && y[k + 1] == '-'
    ensures Contains(y, ",-")
  {
    assert y[k..][..2] == ",-";
    assert OccursAt(y, ",-", k);
  }

  /** Reading from the left: with equal joins, the shorter first flag is followed by a
      comma and a dash inside the longer one. */
  lemma ShorterFirst(xs: seq<string>, ys: seq<string>)
    requires |xs| >= 1 && |ys| >= 1 && Join(xs, ',') == Join(ys, ',') && |xs[0]| < |ys[0]|
    requires forall i | 0 <= i < |xs| :: PlainFlag(xs[i])
    ensures Contains(ys[0], ",-")
  {
    JoinStep(xs);
    JoinStep(ys);
    CommaDashAfter(xs);
    CommaDashInside(ys, |xs[0]|);
  }

  lemma EqualJoins(xs: seq<string>, ys: seq<string>)
    requires |xs| >= 1 && |ys| >= 1 && Join(xs, ',') == Join(ys, ',') && |xs[0]| == |ys[0]|
    ensures xs[0] == ys[0] && (|xs| == 1 <==> |ys| == 1)
    ensures |xs| > 1 ==> Join(xs[1..], ',') == Join(ys[1..], ',')
  {
    JoinStep(xs);
    JoinStep(ys);
    assert xs[0] == Join(xs, ',')[..|xs[0]|] == ys[0];
    if |xs| > 1 && |ys| > 1 {
      assert Join(xs[1..], ',') == Join(xs, ',')[|xs[0]| + 1..] == Join(ys[1..], ',');
    }
  }

  lemma {:induction false} JoinInjective(xs: seq<string>, ys: seq<string>)
    requires (forall i | 0 <= i < |xs| :: PlainFlag(xs[i]) && !Contains(xs[i], ",-"))
    requires (forall i | 0 <= i < |ys| :: PlainFlag(ys[i]) && !Contains(ys[i], ",-"))
    requires Join(xs, ',') == Join(ys, ',')
    ensures xs == ys
  {
    if |xs| >= 1 { JoinIsPlain(xs); }
    if |ys| >= 1 { JoinIsPlain(ys); }
    if |xs| >= 1 {
      if |xs[0]| < |ys[0]| { ShorterFirst(xs, ys); }
      if |ys[0]| < |xs[0]| { ShorterFirst(ys, xs); }
      EqualJoins(xs, ys);
      if |xs| > 1 { JoinInjective(xs[1..], ys[1..]); }
      assert xs == [xs[0]] + xs[1..] && ys == [ys[0]] + ys[1..];
    }
  }

  lemma NameFirst(n: string, b: string, f: string, n': string, b': string, f': string)
    requires ':' !in n && ':' !in n' && Format(n, b, f) == Format(n', b', f')
    ensures n == n' && b + ":" + f == b' + ":" + f'
  {
    assert Format(n, b, f) == n + [':'] + (b + ":" + f);
    assert Format(n', b', f') == n' + [':'] + (b' + ":" + f');
    SameHead(n, b + ":" + f, n', b' + ":" + f', ':');
  }

  /** The longer of two base names with the same continuation holds the shorter one, a
      colon, and the start of the shorter one's flags. */
  lemma LongerBase(b: string, j: string, b': string, j': string)
    requires b + ":" + j == b' + ":" + j' && |b'| < |b|
    ensures var y := b[|b'| + 1..]; b == b' + ":" + y && j' == y + ":" + j
  {
    var r, y := b + ":" + j, b[|b'| + 1..];
    assert r == b' + ":" + j';
    assert r[..|b'|] == b' && b[..|b'|] == r[..|b'|] && b[|b'|] == r[|b'|] == ':';
    assert b == b[..|b'|] + [b[|b'|]] + y;
    assert j' == r[|b'| + 1..] == y + (":" + j);
  }

  ghost predicate Dashless(flags: set<string>) { forall f | f in flags :: !Contains(f, ",-") }

  /** With no ":-" in the base names and no ",-" in the flags, equal normal forms mean the
      same category, the same base name and the same set of flags. */
  lemma NormalFormInjective(command: string, category: Category, command': string, category': Category)
    requires |Tokens(command)| >= 1 && |Tokens(command')| >= 1
    requires !Contains(BaseCommand(Tokens(command)[0]), ":-") && !Contains(BaseCommand(Tokens(command')[0]), ":-")
    requires Dashless(FlagSet(Tokens(command)[1..])) && Dashless(FlagSet(Tokens(command')[1..]))
    ensures Normalized(command, category) == Normalized(command', category')
       <==> && category == category'
            && BaseCommand(Tokens(command)[0]) == BaseCommand(Tokens(command')[0])
            && FlagSet(Tokens(command)[1..]) == FlagSet(Tokens(command')[1..])
  {
    var ts, ts' := Tokens(command), Tokens(command');
    var b, b' := BaseCommand(ts[0]), BaseCommand(ts'[0]);
    var fs, fs' := FlagList(ts), FlagList(ts');
    FieldsOf(command);
    FieldsOf(command');
    assert forall i | 0 <= i < |fs| :: fs[i] in FlagSet(ts[1..]);
    assert forall i | 0 <= i < |fs'| :: fs'[i] in FlagSet(ts'[1..]);
    if Normalized(command, category) == Normalized(command', category') {
      NamesAreTags(category, category');
      NamesAreTags(category', category);
      NameFirst(Name(category), b, Join(fs, ','), Name(category'), b', Join(fs', ','));
      if |b'| < |b| { ColonDash(b, fs, b', fs'); }
      if |b| < |b'| { ColonDash(b', fs', b, fs); }
      EqualBases(b, Join(fs, ','), b', Join(fs', ','));
      JoinInjective(fs, fs');
    }
    if category == category' && b == b' && FlagSet(ts[1..]) == FlagSet(ts'[1..]) {
      SameBaseSameFlags(command, command', category);
    }
  }

  lemma ColonDash(b: string, fs: seq<string>, b': string, fs': seq<string>)
    requires IsFlagList(fs) && IsFlagList(fs') && |b'| < |b|
    requires b + ":" + Join(fs, ',') == b' + ":" + Join(fs', ',')
    ensures Contains(b, ":-")
  {
    LongerBase(b, Join(fs, ','), b', Join(fs', ','));
    var y := b[|b'| + 1..];
    if |fs'| >= 1 { JoinIsPlain(fs'); }
    assert y != "" && y[0] == Join(fs', ',')[0] == '-';
    assert b[|b'|..][..2] == ":-";
    assert OccursAt(b, ":-", |b'|);
  }

  // ------------------------------------- which commands share their normal form

  /** One flag w that reads as two. */
  predicate ReadsAsTwo(w: string, f: string, g: string) {
    PlainFlag(f) && PlainFlag(g) && LexLe(f, g) && f != g && w == f + "," + g
  }

  /** Another flag list with the same join exists: several flags read as one, or one as two. */
  ghost predicate FlagsAmbiguous(fs: seq<string>) {
    |fs| >= 2 || (|fs| == 1 && exists f, g :: ReadsAsTwo(fs[0], f, g))
  }

  lemma FirstBelowRest(fs: seq<string>)
    requires IsFlagList(fs) && |fs| >= 2
    ensures var g := Join(fs[1..], ','); LexLe(fs[0], g) && fs[0] != g
  {
    var g, f := Join(fs[1..], ','), fs[0];
    JoinStep(fs[1..]);
    assert fs[1..][0] == fs[1];
    PrefixBelow(fs[1], g);
    LexTransitive(f, fs[1], g);
    if f == g {
      LexTotal(f, fs[1]);
    }
  }

  lemma {:induction false} PrefixBelow(p: string, s: string)
    requires p <= s
    ensures LexLe(p, s)
  {
    if |p| > 0 { PrefixBelow(p[1..], s[1..]); }
  }

  lemma AmbiguousFlags(fs: seq<string>) returns (fs': seq<string>)
    requires IsFlagList(fs) && FlagsAmbiguous(fs)
    ensures IsFlagList(fs') && fs' != fs && Join(fs', ',') == Join(fs, ',')
  {
    if |fs| >= 2 {
      JoinIsPlain(fs);
      fs' := [Join(fs, ',')];
    } else {
      var f, g :| ReadsAsTwo(fs[0], f, g);
      fs' := [f, g];
      assert [f, g][1..] == [g];
    }
  }

  lemma OtherFlags(fs: seq<string>, fs': seq<string>)
    requires IsFlagList(fs) && IsFlagList(fs') && fs' != fs && Join(fs', ',') == Join(fs, ',')
    ensures FlagsAmbiguous(fs)
  {
    if |fs| >= 1 { JoinIsPlain(fs); }
    if |fs'| >= 1 { JoinIsPlain(fs'); }
    if |fs| == 1 {
      JoinStep(fs);
      assert fs == [Join(fs, ',')];
      if |fs'| >= 2 {
        JoinStep(fs');
        FirstBelowRest(fs');
        JoinIsPlain(fs'[1..]);
        assert ReadsAsTwo(fs[0], fs'[0], Join(fs'[1..], ','));
      } else if |fs'| == 1 {
        OneJoined(fs');
      }
    }
  }

  lemma OneJoined(fs: seq<string>)
    requires |fs| == 1
    ensures fs == [Join(fs, ',')]
  {}

  /** The end y of the base name can be the start of a flag. */
  predicate EndsAsFlag(b: string, c: string, y: string) {
    b == c + ":" + y && PlainFlag(y)
  }

  /** The start y of the flags can be the end of a base name, with z or nothing left over. */
  predicate StartsAsBase(j: string, y: string, z: string) {
    j == y + ":" + z && '/' !in y && '\\' !in y && (z == "" || IsFlag(z))
  }

  /** Another base name, with other flags, has the same text. */
  ghost predicate BaseAmbiguous(b: string, j: string) {
    (exists c, y :: EndsAsFlag(b, c, y)) || (exists y, z :: StartsAsBase(j, y, z))
  }

  lemma AmbiguousBase(b: string, fs: seq<string>) returns (b': string, fs': seq<string>)
    requires IsBase(b) && IsFlagList(fs) && BaseAmbiguous(b, Join(fs, ','))
    ensures IsBase(b') && IsFlagList(fs') && b' != b
    ensures b' + ":" + Join(fs', ',') == b + ":" + Join(fs, ',')
  {
    var j := Join(fs, ',');
    if |fs| >= 1 { JoinIsPlain(fs); }
    if c, y :| EndsAsFlag(b, c, y) {
      b', fs' := c, [y + ":" + j];
      assert forall d | d in c :: d in b;
      assert forall d | d in y + ":" + j :: d in y || d == ':' || d in j;
      assert b' + ":" + (y + ":" + j) == b + ":" + j;
    } else {
      var y, z :| StartsAsBase(j, y, z);
      b', fs' := b + ":" + y, if z == "" then [] else [z];
      assert forall d | d in y || d in z :: d in j;
      assert forall d | d in b' :: d in b || d == ':' || d in y;
      assert |b'| > |b|;
      assert b' + ":" + z == b + ":" + j;
    }
  }

  lemma OtherBase(b: string, fs: seq<string>, b': string, fs': seq<string>)
    requires IsBase(b) && IsBase(b') && IsFlagList(fs) && IsFlagList(fs') && b' != b
    requires b' + ":" + Join(fs', ',') == b + ":" + Join(fs, ',')
    ensures BaseAmbiguous(b, Join(fs, ','))
  {
    var j, j' := Join(fs, ','), Join(fs', ',');
    if |fs| >= 1 { JoinIsPlain(fs); }
    if |fs'| >= 1 { JoinIsPlain(fs'); }
    if |b'| < |b| {
      LongerBase(b, j, b', j');
      var y := b[|b'| + 1..];
      assert forall d | d in y :: d in j';
      assert y != "" && y[0] == j'[0];
      assert EndsAsFlag(b, b', y);
    } else if |b| < |b'| {
      LongerBase(b', j', b, j);
      var y := b'[|b| + 1..];
      assert forall d | d in y :: d in b';
      assert '/' !in y && '\\' !in y;
      assert |fs'| == 0 ==> j' == "";
      assert StartsAsBase(j, y, j');
    } else {
      EqualBases(b, j, b', j');
    }
  }

  lemma EqualBases(b: string, j: string, b': string, j': string)
    requires b + ":" + j == b' + ":" + j' && |b| == |b'|
    ensures b == b' && j == j'
  {
    assert b == (b + ":" + j)[..|b|] && b' == (b' + ":" + j')[..|b'|];
    assert j == (b + ":" + j)[|b| + 1..] && j' == (b' + ":" + j')[|b'| + 1..];
  }

  /** Only commands with the same category, base name and flags have this normal form. */
  ghost predicate StandsAlone(command: string, category: Category)
    requires |Tokens(command)| >= 1
  {
    forall command', category' | Normalized(command', category') == Normalized(command, category) ::
      && category' == category && |Tokens(command')| >= 1
      && BaseCommand(Tokens(command')[0]) == BaseCommand(Tokens(command)[0])
      && FlagSet(Tokens(command')[1..]) == FlagSet(Tokens(command)[1..])
  }

  lemma SameFields(command: string, command': string, category: Category)
    requires |Tokens(command)| >= 1 && |Tokens(command')| >= 1
    requires var ts, ts' := Tokens(command), Tokens(command');
             BaseCommand(ts'[0]) + ":" + Join(FlagList(ts'), ',') == BaseCommand(ts[0]) + ":" + Join(FlagList(ts), ',')
    ensures Normalized(command', category) == Normalized(command, category)
  {
    var ts, ts' := Tokens(command), Tokens(command');
    FormatGroups(Name(category), BaseCommand(ts[0]), Join(FlagList(ts), ','));
    FormatGroups(Name(category), BaseCommand(ts'[0]), Join(FlagList(ts'), ','));
  }

  lemma FormatGroups(n: string, b: string, j: string)
    ensures Format(n, b, j) == n + ":" + (b + ":" + j)
  {}

  /** Sorted lists of the same set are the same. */
  lemma ListOfSet(fs: seq<string>, fs': seq<string>)
    requires IsFlagList(fs) && IsFlagList(fs') && (set f | f in fs) == (set f | f in fs')
    ensures fs == fs'
  {
    OneListing(fs, fs', set f | f in fs);
  }

  /** A command's normal form is its own exactly when neither its flags nor its base name
      can be read in another way. */
  lemma StandsAloneExactly(command: string, category: Category)
    requires |Tokens(command)| >= 1
    ensures StandsAlone(command, category)
       <==> && !FlagsAmbiguous(FlagList(Tokens(command)))
            && !BaseAmbiguous(BaseCommand(Tokens(command)[0]), Join(FlagList(Tokens(command)), ','))
  {
    var ts := Tokens(command);
    var b, fs := BaseCommand(ts[0]), FlagList(ts);
    FieldsOf(command);
    if FlagsAmbiguous(fs) {
      var fs' := AmbiguousFlags(fs);
      var command' := CommandWith(b, fs');
      SameFields(command, command', category);
      FieldsOf(command');
      if FlagSet(Tokens(command')[1..]) == FlagSet(ts[1..]) { ListOfSet(fs, fs'); }
    } else if BaseAmbiguous(b, Join(fs, ',')) {
      var b', fs' := AmbiguousBase(b, fs);
      var command' := CommandWith(b', fs');
      SameFields(command, command', category);
    } else {
      forall command', category' | Normalized(command', category') == Normalized(command, category)
        ensures category' == category && |Tokens(command')| >= 1
        ensures BaseCommand(Tokens(command')[0]) == b && FlagSet(Tokens(command')[1..]) == FlagSet(ts[1..])
      {
        NothingElse(command, category, command', category');
      }
    }
  }

  lemma NothingElse(command: string, category: Category, command': string, category': Category)
    requires |Tokens(command)| >= 1
    requires !FlagsAmbiguous(FlagList(Tokens(command)))
    requires !BaseAmbiguous(BaseCommand(Tokens(command)[0]), Join(FlagList(Tokens(command)), ','))
    requires Normalized(command', category') == Normalized(command, category)
    ensures category' == category && |Tokens(command')| >= 1
    ensures BaseCommand(Tokens(command')[0]) == BaseCommand(Tokens(command)[0])
    ensures FlagSet(Tokens(command')[1..]) == FlagSet(Tokens(command)[1..])
  {
    if |Tokens(command')| == 0 { EmptyCommandApart(command', category', command, category); }
    var ts, ts' := Tokens(command), Tokens(command');
    var b, b', fs, fs' := BaseCommand(ts[0]), BaseCommand(ts'[0]), FlagList(ts), FlagList(ts');
    FieldsOf(command);
    FieldsOf(command');
    NamesAreTags(category, category');
    NamesAreTags(category', category);
    NameFirst(Name(category'), b', Join(fs', ','), Name(category), b, Join(fs, ','));
    if b' != b { OtherBase(b, fs, b', fs'); }
    assert Join(fs, ',') == (b + ":" + Join(fs, ','))[|b| + 1..] == Join(fs', ',');
    if fs' != fs { OtherFlags(fs, fs'); }
  }

  /** Two fields are never three. */
  lemma FormatApart(n: string, x: string, n': string, b': string, f': string)
    requires ':' !in n && ':' !in n' && ':' !in x
    ensures n + ":" + x != Format(n', b', f')
  {
    if n + ":" + x == Format(n', b', f') {
      assert n + ":" + x == n + [':'] + x;
      assert Format(n', b', f') == n' + [':'] + (b' + [':'] + f');
      SameHead(n, x, n', b' + [':'] + f', ':');
      HasColon(b', f');
    }
  }

  lemma HasColon(b: string, f: string)
    ensures ':' in b + [':'] + f
  {
    assert (b + [':'] + f)[|b|] == ':';
  }

  /** An empty command's normal form is no other command's. */
  lemma EmptyCommandApart(command: string, category: Category, command': string, category': Category)
    requires Tokens(command) == [] && |Tokens(command')| >= 1
    ensures Normalized(command, category) != Normalized(command', category')
  {
    NamesAreTags(category, category');
    NamesAreTags(category', category);
    var ts' := Tokens(command');
    FormatApart(Name(category), "unknown", Name(category'), BaseCommand(ts'[0]), Join(FlagList(ts'), ','));
  }

  // ------------------------------------------------------------ failing inputs

  /** A comma: the flags f and g given as one flag "f,g". */
  lemma CommaCollides(x: string, f: string, g: string, category: Category)
    requires x != "" && NoWs(x) && PlainFlag(f) && PlainFlag(g) && LexLe(f, g) && f != g
    ensures Normalized(x + " " + (f + "," + g), category) == Normalized(x + " " + (f + " " + g), category)
    ensures FlagSet(Tokens(x + " " + (f + "," + g))[1..]) != FlagSet(Tokens(x + " " + (f + " " + g))[1..])
  {
    var fg := f + "," + g;
    JoinedTokens(x, fg);
    TwoTokens(x, f, g);
    OneFlag(fg);
    TwoFlags(f, g);
    assert fg in FlagSet([fg]) && fg !in FlagSet([f, g]);
  }

  lemma JoinedTokens(x: string, f: string)
    requires x != "" && NoWs(x) && f != "" && NoWs(f)
    ensures Tokens(x + " " + f) == [x, f] && [x, f][1..] == [f]
  {
    TokenThen(f, "");
    TokenThen(x, f);
  }

  lemma TwoTokens(x: string, f: string, g: string)
    requires x != "" && NoWs(x) && f != "" && NoWs(f) && g != "" && NoWs(g)
    ensures Tokens(x + " " + (f + " " + g)) == [x, f, g] && [x, f, g][1..] == [f, g]
  {
    TokenThen(g, "");
    TokenThen(f, g);
    TokenThen(x, f + " " + g);
  }

  lemma PlainBase(b: string)
    requires '/' !in b && '\\' !in b
    ensures BaseCommand(b) == b
  {
    SplitOne(b, '/');
    SplitOne(b, '\\');
  }

  lemma ShiftColon(n: string, b: string, f: string)
    ensures Format(n, b + ":" + f, "") == Format(n, b, f + ":")
  {
    assert n + ":" + (b + ":" + f) + ":" + "" == n + ":" + b + ":" + (f + ":");
  }

  /** A colon: the base name "b:f" against the base name b with the flag "f:". */
  lemma ColonCollides(b: string, f: string, category: Category)
    requires b != "" && NoWs(b) && PlainFlag(f)
    requires '/' !in b && '/' !in f && '\\' !in b && '\\' !in f
    ensures Normalized(b + ":" + f, category) == Normalized(b + " " + (f + ":"), category)
    ensures BaseCommand(Tokens(b + ":" + f)[0]) != BaseCommand(Tokens(b + " " + (f + ":"))[0])
  {
    var bf, fc := b + ":" + f, f + ":";
    TokenThen(bf, "");
    JoinedTokens(b, fc);
    PlainBase(bf);
    PlainBase(b);
    OneFlag(fc);
    assert [bf][1..] == [];
    assert FlagList([bf]) == [];
    assert FlagList([b, fc]) == [fc];
    ShiftColon(Name(category), b, f);
  }
}
