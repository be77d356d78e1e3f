/** Resource keys (pt-common/src/resource_evidence.rs). */
module Resources {
  import opened Strings
  import opened Utf8
  import opened Paths

  datatype Kind =
    | Listener | UnixSocket | Lockfile | Pidfile | SharedMemory | NamedPipe | DbusName | GpuDevice

  function Slug(k: Kind): string {
    match k
    case Listener => "listener"
    case UnixSocket => "unix_socket"
    case Lockfile => "lockfile"
    case Pidfile => "pidfile"
    case SharedMemory => "shm"
    case NamedPipe => "fifo"
    case DbusName => "dbus"
    case GpuDevice => "gpu"
  }

  const V4 := "0.0.0.0:"
  const V6 := ":::"
  const STAR := "*:"

  function StepV4(s: string): string { Replace(s, V4, "any:") }
  function StepV6(s: string): string { Replace(s, V6, "any6:") }
  function StepStar(s: string): string { Replace(s, STAR, "any:") }

  /** `canonicalize_resource_key` of a listener: three replacements, in this order. */
  function ListenerKey(s: string): string { StepStar(StepV6(StepV4(s))) }

  /** The path-like kinds' own normalisation. */
  function PathKey(key: string): string {
    var normalized := Slashes(key);
    if ByteLen(normalized) > 1 then TrimEndSlashes(normalized) else normalized
  }

  predicate IsPathLike(k: Kind) { k.UnixSocket? || k.Lockfile? || k.Pidfile? }

  function CanonicalKey(k: Kind, key: string): string {
    match k
    case Listener => ListenerKey(key)
    case UnixSocket => PathKey(key)
    case Lockfile => PathKey(key)
    case Pidfile => PathKey(key)
    case _ => key
  }

  /** What `stable_resource_id` digests. */
  function IdPreimage(k: Kind, canonicalKey: string): string { Slug(k) + ":" + canonicalKey }

  /** The tags of the kinds, and the text that is digested. */
  lemma TagsSpelledOut(key: string)
    ensures IdPreimage(Listener, key) == "listener:" + key && IdPreimage(UnixSocket, key) == "unix_socket:" + key
    ensures IdPreimage(Lockfile, key) == "lockfile:" + key && IdPreimage(Pidfile, key) == "pidfile:" + key
    ensures IdPreimage(SharedMemory, key) == "shm:" + key && IdPreimage(NamedPipe, key) == "fifo:" + key
    ensures IdPreimage(DbusName, key) == "dbus:" + key && IdPreimage(GpuDevice, key) == "gpu:" + key
  {}

  lemma SlugsAreTags(k: Kind, k': Kind)
    ensures ':' !in Slug(k)
    ensures Slug(k) == Slug(k') ==> k == k'
  {
    if Slug(k) == Slug(k') { assert Slug(k)[0] == Slug(k')[0]; }
  }

  /** Resources of different kinds, or with different canonical keys, are digested differently. */
  lemma PreimageInjective(k: Kind, key: string, k': Kind, key': string)
    requires IdPreimage(k, key) == IdPreimage(k', key')
    ensures k == k' && key == key'
  {
    SlugsAreTags(k, k');
    SlugsAreTags(k', k);
    assert IdPreimage(k, key) == Slug(k) + [':'] + key;
    assert IdPreimage(k', key') == Slug(k') + [':'] + key';
    SameHead(Slug(k), key, Slug(k'), key', ':');
  }

  /** The text that is digested for a raw key. */
  function ResourcePreimage(k: Kind, key: string): string { IdPreimage(k, CanonicalKey(k, key)) }

  /** Two observations get the same id text exactly when kind and canonical key agree: for
      path-like kinds when the paths have the same workspace normal form, for listeners when
      the canonical listener keys agree, for all others when the keys are equal. */
  lemma SameResourceExactly(k: Kind, key: string, k': Kind, key': string)
    ensures ResourcePreimage(k, key) == ResourcePreimage(k', key')
       <==> && k == k'
            && (IsPathLike(k) ==> Normalize(key) == Normalize(key'))
            && (k.Listener? ==> ListenerKey(key) == ListenerKey(key'))
            && (!IsPathLike(k) && !k.Listener? ==> key == key')
  {
    if ResourcePreimage(k, key) == ResourcePreimage(k', key') {
      PreimageInjective(k, CanonicalKey(k, key), k', CanonicalKey(k', key'));
    }
  }

  /** So a path-like resource is one resource under every spelling of its path, and no other. */
  lemma PathLikeSpellings(k: Kind, key: string, n: string)
    requires IsPathLike(k) && IsNormal(n)
    ensures ResourcePreimage(k, key) == ResourcePreimage(k, n) <==> Spells(key, n)
  {
    SameResourceExactly(k, key, k, n);
    NormalizeExact(n);
    SpellingsOf(key, n);
  }

  // ------------------------------------------------------- one replacement

  /** A text that shares no character with the start of the replacement begins the
      result only if it began the source. */
  lemma {:induction false} PrefixSurvives(q: string, s: string, pat: string, out: string)
    requires |pat| > 0 && |out| > 0 && out[0] !in q
    requires q <= Replace(s, pat, out)
    ensures q <= s
  {
    if |q| > 0 {
      assert q[0] in q;
      assert forall c | c in q[1..] :: c in q;
      PrefixSurvives(q[1..], s[1..], pat, out);
    }
  }

  /** A replacement whose characters cannot start q creates no occurrence of q. */
  lemma {:induction false} CreatesNone(s: string, pat: string, out: string, q: string)
    requires |pat| > 0 && |out| > 0 && |q| > 0
    requires out[0] !in q && q[0] !in out
    requires !Contains(s, q) || pat == q
    ensures !Contains(Replace(s, pat, out), q)
    decreases |s|
  {
    var r := Replace(s, pat, out);
    if |s| == 0 {
      OccursEmpty(q);
    } else if pat <= s {
      ContainsTail(s, q, |pat|);
      CreatesNone(s[|pat|..], pat, out, q);
      SkipOut(out, Replace(s[|pat|..], pat, out), q);
    } else {
      ContainsStep(s, q);
      CreatesNone(s[1..], pat, out, q);
      assert r[1..] == Replace(s[1..], pat, out);
      ContainsStep(r, q);
      if q <= r { PrefixSurvives(q, s, pat, out); }
    }
  }

  lemma OccursEmpty(q: string)
    requires |q| > 0
    ensures !Contains("", q)
  {}

  lemma {:induction false} ContainsTail(s: string, q: string, n: nat)
    requires n <= |s|
    ensures Contains(s[n..], q) ==> Contains(s, q)
  {
    if n > 0 {
      assert s[1..][n - 1..] == s[n..];
      ContainsTail(s[1..], q, n - 1);
      ContainsStep(s, q);
    } else {
      assert s[0..] == s;
    }
  }

  lemma {:induction false} SkipOut(out: string, rest: string, q: string)
    requires |q| > 0 && q[0] !in out
    ensures Contains(out + rest, q) <==> Contains(rest, q)
  {
    if |out| == 0 {
      assert out + rest == rest;
    } else {
      assert (out + rest)[0] == out[0] && out[0] in out;
      assert (out + rest)[1..] == out[1..] + rest;
      assert forall c | c in out[1..] :: c in out;
      ContainsStep(out + rest, q);
      SkipOut(out[1..], rest, q);
    }
  }

  // --------------------------------------------------------- runs of colons

  predicate BadRun(k: nat) { k >= 5 && k % 3 == 2 }

  /** Scanning s after m colons: some maximal run of colons has a bad length. */
  predicate HasBadRunAfter(m: nat, s: string)
    decreases |s|
  {
    if |s| == 0 then BadRun(m)
    else if s[0] == ':' then HasBadRunAfter(m + 1, s[1..])
    else BadRun(m) || HasBadRunAfter(0, s[1..])
  }

  /** Some maximal run of colons has length 5, 8, 11, ... */
  predicate HasBadRun(s: string) { HasBadRunAfter(0, s) }

  function ColonRun(s: string): (k: nat)
    ensures k <= |s| && forall i | 0 <= i < k :: s[i] == ':'
    ensures k < |s| ==> s[k] != ':'
  {
    if |s| > 0 && s[0] == ':' then 1 + ColonRun(s[1..]) else 0
  }

  lemma {:induction false} BadRunByRuns(m: nat, s: string)
    ensures HasBadRunAfter(m, s) <==> BadRun(m + ColonRun(s)) || HasBadRun(s[ColonRun(s)..])
    decreases |s|
  {
    if |s| > 0 && s[0] == ':' {
      BadRunByRuns(m + 1, s[1..]);
      assert s[ColonRun(s)..] == s[1..][ColonRun(s[1..])..];
    }
  }

  /** The first replacement keeps every run of colons. */
  lemma {:induction false} StepV4KeepsRuns(m: nat, s: string)
    ensures HasBadRunAfter(m, StepV4(s)) <==> HasBadRunAfter(m, s)
    decreases |s|
  {
    if |s| > 0 {
      if V4 <= s {
        var rest := s[8..];
        StepV4KeepsRuns(1, rest);
        ScanV4(m, rest);
        ScanAny(m, StepV4(rest));
        assert s == V4 + rest;
      } else {
        StepV4KeepsRuns(m + 1, s[1..]);
        StepV4KeepsRuns(0, s[1..]);
        assert StepV4(s)[1..] == StepV4(s[1..]);
      }
    }
  }

  lemma ScanV4(m: nat, rest: string)
    ensures HasBadRunAfter(m, V4 + rest) <==> BadRun(m) || HasBadRunAfter(1, rest)
  {
    var s := V4 + rest;
    assert s[1..][0] == '.' && s[2..][0] == '0' && s[3..][0] == '.' && s[4..][0] == '0';
    assert s[5..][0] == '.' && s[6..][0] == '0' && s[7..][0] == ':';
    assert s[1..][1..] == s[2..] && s[2..][1..] == s[3..] && s[3..][1..] == s[4..];
    assert s[4..][1..] == s[5..] && s[5..][1..] == s[6..] && s[6..][1..] == s[7..] && s[7..][1..] == rest;
    assert HasBadRunAfter(0, s[7..]) == HasBadRunAfter(1, rest);
    assert HasBadRunAfter(0, s[6..]) == HasBadRunAfter(0, s[7..]);
    assert HasBadRunAfter(0, s[5..]) == HasBadRunAfter(0, s[6..]);
    assert HasBadRunAfter(0, s[4..]) == HasBadRunAfter(0, s[5..]);
    assert HasBadRunAfter(0, s[3..]) == HasBadRunAfter(0, s[4..]);
    assert HasBadRunAfter(0, s[2..]) == HasBadRunAfter(0, s[3..]);
    assert HasBadRunAfter(0, s[1..]) == HasBadRunAfter(0, s[2..]);
  }

  lemma ScanAny(m: nat, rest: string)
    ensures HasBadRunAfter(m, "any:" + rest) <==> BadRun(m) || HasBadRunAfter(1, rest)
  {
    var s := "any:" + rest;
    assert s[1..][0] == 'n' && s[2..][0] == 'y' && s[3..][0] == ':';
    assert s[1..][1..] == s[2..] && s[2..][1..] == s[3..] && s[3..][1..] == rest;
    assert HasBadRunAfter(0, s[3..]) == HasBadRunAfter(1, rest);
    assert HasBadRunAfter(0, s[2..]) == HasBadRunAfter(0, s[3..]);
    assert HasBadRunAfter(0, s[1..]) == HasBadRunAfter(0, s[2..]);
  }

  /** Replacement text in front: three colons can only start at its final one. */
  lemma AfterAny6(z: string)
    ensures Contains("any6:" + z, V6) <==> "::" <= z || Contains(z, V6)
  {
    assert "any6:" + z == "any6" + ([':'] + z);
    SkipOut("any6", [':'] + z, V6);
    ContainsStep([':'] + z, V6);
    assert ([':'] + z)[1..] == z;
  }

  lemma RunOfTwo(s: string)
    ensures ColonRun(s) == 2 <==> |s| >= 2 && s[0] == ':' && s[1] == ':' && (|s| == 2 || s[2] != ':')
  {
    var k := ColonRun(s);
    assert k < |s| ==> s[k] != ':';
    assert k > 2 ==> s[2] == ':';
  }

  /** Two colons begin the result of the second replacement exactly on runs of two. */
  lemma TwoColonsLead(s: string)
    ensures "::" <= StepV6(s) <==> ColonRun(s) == 2
  {
    if V6 <= s {
      assert StepV6(s)[0] == 'a' && ColonRun(s) != 2;
    } else if |s| > 1 {
      assert StepV6(s) == [s[0]] + StepV6(s[1..]);
      if V6 <= s[1..] {
        assert StepV6(s[1..])[0] == 'a' && s[0] != ':';
      } else {
        assert StepV6(s[1..]) == [s[1]] + StepV6(s[1..][1..]);
        var r := StepV6(s);
        assert r[0] == s[0] && r[1] == s[1];
        assert "::" <= r <==> r[0] == ':' && r[1] == ':';
        assert V6 <= s <==> |s| >= 3 && s[0] == ':' && s[1] == ':' && s[2] == ':';
        RunOfTwo(s);
      }
    } else {
      assert |s| == 1 ==> s[1..] == "" && StepV6(s[1..]) == "";
    }
  }

  lemma {:induction false} StepV6OnRun(s: string)
    ensures Contains(StepV6(s), V6)
       <==> BadRun(ColonRun(s)) || Contains(StepV6(s[ColonRun(s)..]), V6)
    decreases |s|
  {
    var k := ColonRun(s);
    if k >= 3 {
      ThreeReplaced(s);
      StepV6OnRun(s[3..]);
      TwoColonsLead(s[3..]);
    } else {
      ShortRun(s, k);
    }
  }

  lemma ThreeReplaced(s: string)
    requires ColonRun(s) >= 3
    ensures ColonRun(s[3..]) == ColonRun(s) - 3 && s[3..][ColonRun(s) - 3..] == s[ColonRun(s)..]
    ensures Contains(StepV6(s), V6) <==> "::" <= StepV6(s[3..]) || Contains(StepV6(s[3..]), V6)
  {
    RunDrop3(s);
    assert V6 <= s && StepV6(s) == "any6:" + StepV6(s[3..]);
    AfterAny6(StepV6(s[3..]));
  }

  lemma RunDrop3(s: string)
    requires ColonRun(s) >= 3
    ensures ColonRun(s[3..]) == ColonRun(s) - 3
  {
    assert s[1..][1..] == s[2..] && s[2..][1..] == s[3..];
    assert ColonRun(s) == 1 + ColonRun(s[1..]);
    assert ColonRun(s[1..]) == 1 + ColonRun(s[2..]);
    assert ColonRun(s[2..]) == 1 + ColonRun(s[3..]);
  }

  lemma {:induction false} ShortRun(s: string, k: nat)
    requires k == ColonRun(s) && k < 3
    ensures Contains(StepV6(s), V6) <==> Contains(StepV6(s[k..]), V6)
  {
    if k == 0 {
      assert s[0..] == s;
    } else {
      assert StepV6(s) == [':'] + StepV6(s[1..]);
      ContainsStep(StepV6(s), V6);
      TwoColonsLead(s[1..]);
      ShortRun(s[1..], k - 1);
      assert s[1..][k - 1..] == s[k..];
    }
  }

  /** Three colons survive the second replacement exactly after a bad run. */
  lemma {:induction false} StepV6Leaves(s: string)
    ensures Contains(StepV6(s), V6) <==> HasBadRun(s)
    decreases |s|
  {
    var k := ColonRun(s);
    StepV6OnRun(s);
    BadRunByRuns(0, s);
    if |s| == 0 {
    } else if k > 0 {
      StepV6Leaves(s[k..]);
    } else {
      StepV6Leaves(s[1..]);
      assert StepV6(s) == [s[0]] + StepV6(s[1..]);
      ContainsStep(StepV6(s), V6);
    }
  }

  /** The third replacement keeps three colons and creates none. */
  lemma {:induction false} StepStarKeepsV6(s: string)
    ensures Contains(StepStar(s), V6) <==> Contains(s, V6)
    decreases |s|
  {
    if |s| > 0 {
      if STAR <= s {
        var rest := s[2..];
        StepStarKeepsV6(rest);
        assert s == "*" + ([':'] + rest) && StepStar(s) == "any" + ([':'] + StepStar(rest));
        SkipOut("*", [':'] + rest, V6);
        SkipOut("any", [':'] + StepStar(rest), V6);
        ContainsStep([':'] + rest, V6);
        ContainsStep([':'] + StepStar(rest), V6);
        assert ([':'] + rest)[1..] == rest && ([':'] + StepStar(rest))[1..] == StepStar(rest);
        ColonsLead(rest);
      } else {
        StepStarKeepsV6(s[1..]);
        assert StepStar(s) == [s[0]] + StepStar(s[1..]);
        ContainsStep(s, V6);
        ContainsStep(StepStar(s), V6);
        ColonsLead(s[1..]);
        ThreeColons(s[0], s[1..]);
        ThreeColons(s[0], StepStar(s[1..]));
        assert s == [s[0]] + s[1..];
      }
    }
  }

  lemma ThreeColons(c: char, z: string)
    ensures V6 <= [c] + z <==> c == ':' && "::" <= z
  {
    var s := [c] + z;
    assert V6 <= s <==> |s| >= 3 && s[0] == ':' && s[1] == ':' && s[2] == ':';
  }

  lemma ColonsLead(s: string)
    ensures "::" <= StepStar(s) <==> "::" <= s
  {
    if "::" <= StepStar(s) { PrefixSurvives("::", s, STAR, "any:"); }
    if "::" <= s {
      assert StepStar(s) == [':'] + StepStar(s[1..]);
      assert StepStar(s[1..]) == [':'] + StepStar(s[1..][1..]);
    }
  }

  // ------------------------------------------------------------- the theorems

  /** What a canonical listener key may contain: never the IPv4 or star wildcard, and
      three colons exactly when the key had a run of 5, 8, 11, ... colons. */
  lemma NoPatternSurvives(s: string)
    ensures !Contains(ListenerKey(s), V4) && !Contains(ListenerKey(s), STAR)
    ensures Contains(ListenerKey(s), V6) <==> HasBadRun(s)
  {
    var x := StepV4(s);
    var y := StepV6(x);
    CreatesNone(s, V4, "any:", V4);
    CreatesNone(x, V6, "any6:", V4);
    CreatesNone(y, STAR, "any:", V4);
    CreatesNone(y, STAR, "any:", STAR);
    StepStarKeepsV6(y);
    StepV6Leaves(x);
    StepV4KeepsRuns(0, s);
  }

  lemma {:induction false} StepV6Grows(s: string)
    ensures |StepV6(s)| >= |s| && (Contains(s, V6) ==> |StepV6(s)| > |s|)
    decreases |s|
  {
    if |s| > 0 {
      if V6 <= s {
        StepV6Grows(s[3..]);
      } else {
        ContainsStep(s, V6);
        StepV6Grows(s[1..]);
      }
    } else {
      OccursEmpty(V6);
    }
  }

  /** Canonicalisation is idempotent exactly on keys without a run of 5, 8, 11, ... colons. */
  lemma IdempotentExactly(s: string)
    ensures ListenerKey(ListenerKey(s)) == ListenerKey(s) <==> !HasBadRun(s)
  {
    var c := ListenerKey(s);
    NoPatternSurvives(s);
    ReplaceAbsent(c, V4, "any:");
    CreatesNone(c, V6, "any6:", STAR);
    ReplaceAbsent(StepV6(c), STAR, "any:");
    assert ListenerKey(c) == StepV6(c);
    if HasBadRun(s) {
      StepV6Grows(c);
    } else {
      ReplaceAbsent(c, V6, "any6:");
    }
  }

  /** For example, the port 8080 after five colons. */
  lemma FiveColonsFail()
    ensures HasBadRun(":::::8080")
    ensures ListenerKey(ListenerKey(":::::8080")) != ListenerKey(":::::8080")
  {
    var s := ":::::8080";
    RunOf(s, 5);
    BadRunByRuns(0, s);
    IdempotentExactly(s);
  }

  lemma {:induction false} RunOf(s: string, k: nat)
    requires k < |s| && (forall i | 0 <= i < k :: s[i] == ':') && s[k] != ':'
    ensures ColonRun(s) == k
  {
    if k > 0 { RunOf(s[1..], k - 1); }
  }

  /** In particular, on keys without five colons in a row. */
  lemma {:induction false} BadRunHasFiveColons(s: string)
    requires HasBadRun(s)
    ensures Contains(s, ":::::")
    decreases |s|
  {
    var k := ColonRun(s);
    BadRunByRuns(0, s);
    if BadRun(k) {
      assert ":::::" <= s;
      ContainsStep(s, ":::::");
    } else if k > 0 {
      BadRunHasFiveColons(s[k..]);
      ContainsTail(s, ":::::", k);
    } else {
      BadRunHasFiveColons(s[1..]);
      ContainsTail(s, ":::::", 1);
    }
  }

  lemma StepLiteral(c: char, s: string)
    requires c != '0' && c != '*' && c != ':'
    ensures StepV4([c] + s) == [c] + StepV4(s)
    ensures StepV6([c] + s) == [c] + StepV6(s)
    ensures StepStar([c] + s) == [c] + StepStar(s)
  {
    var t := [c] + s;
    assert t[0] == c && t[1..] == s;
    assert V4[0] == '0' && V6[0] == ':' && STAR[0] == '*';
    assert !(V4 <= t) && !(V6 <= t) && !(STAR <= t);
  }

  lemma ThroughAny(s: string)
    ensures StepV6("any" + s) == "any" + StepV6(s) && StepStar("any" + s) == "any" + StepStar(s)
  {
    StepLiteral('y', s);
    StepLiteral('n', ['y'] + s);
    StepLiteral('a', ['n'] + (['y'] + s));
    assert "any" + s == ['a'] + (['n'] + (['y'] + s));
    assert ['a'] + (['n'] + (['y'] + StepV6(s))) == "any" + StepV6(s);
    assert ['a'] + (['n'] + (['y'] + StepStar(s))) == "any" + StepStar(s);
  }

  /** Through the last two replacements, "any:" stays in front of a text that does not
      start with two colons; before two colons its own colon is taken for IPv6. */
  lemma AnyInFront(q: string)
    ensures !("::" <= q) ==> StepStar(StepV6("any:" + q)) == "any:" + StepStar(StepV6(q))
    ensures "::" <= q ==> StepStar(StepV6("any:" + q)) == "any" + StepStar(StepV6([':'] + q))
  {
    assert "any:" + q == "any" + ([':'] + q);
    ThroughAny([':'] + q);
    ThroughAny(StepV6([':'] + q));
    assert ([':'] + q)[1..] == q;
    if !("::" <= q) {
      assert StepV6([':'] + q) == [':'] + StepV6(q);
      assert ([':'] + StepV6(q))[1..] == StepV6(q);
      assert "any" + ([':'] + StepStar(StepV6(q))) == "any:" + StepStar(StepV6(q));
    }
  }

  lemma StarInFront(q: string)
    ensures !("::" <= q) ==> StepStar(StepV6("*:" + q)) == "any:" + StepStar(StepV6(q))
    ensures "::" <= q ==> "*" <= StepStar(StepV6("*:" + q))
  {
    var s := "*:" + q;
    assert s[1..] == [':'] + q && ([':'] + q)[1..] == q;
    assert s[0] == '*' && !(V6 <= s);
    assert StepV6(s) == ['*'] + StepV6([':'] + q);
    if !("::" <= q) {
      assert StepV6([':'] + q) == [':'] + StepV6(q);
      assert StepV6(s)[2..] == StepV6(q);
    } else {
      assert V6 <= [':'] + q;
      var x := StepV6([':'] + q);
      assert x[0] == 'a';
      assert (['*'] + x)[1] == 'a';
    }
  }

  lemma StepV4Fronts(p: string)
    ensures StepV4(V4 + p) == "any:" + StepV4(p)
    ensures StepV4(STAR + p) == STAR + StepV4(p)
    ensures StepV4(V6 + p) == V6 + StepV4(p)
    ensures "::" <= StepV4(p) <==> "::" <= p
  {
    assert V4[0] == '0' && STAR[0] == '*' && V6[0] == ':';
    assert (V4 + p)[8..] == p;
    assert (STAR + p)[1..] == [':'] + p && ([':'] + p)[1..] == p;
    assert StepV4([':'] + p) == [':'] + StepV4(p);
    assert STAR + StepV4(p) == ['*'] + ([':'] + StepV4(p));
    assert (V6 + p)[1..] == [':'] + ([':'] + p) && ([':'] + ([':'] + p))[1..] == [':'] + p;
    assert StepV4([':'] + ([':'] + p)) == [':'] + StepV4([':'] + p);
    assert V6 + StepV4(p) == [':'] + ([':'] + ([':'] + StepV4(p)));
    ColonsSurvive(p);
  }

  lemma ColonsSurvive(p: string)
    ensures "::" <= StepV4(p) <==> "::" <= p
  {
    if "::" <= StepV4(p) { PrefixSurvives("::", p, V4, "any:"); }
    if "::" <= p {
      assert V4[0] == '0';
      assert StepV4(p) == [':'] + StepV4(p[1..]);
      assert StepV4(p[1..]) == [':'] + StepV4(p[1..][1..]);
    }
  }

  /** The IPv4 and the star wildcard share one key, `any:` and the port's own key, exactly
      when the port does not start with two colons; the IPv6 wildcard has its own key. */
  lemma WildcardsShareKey(p: string)
    ensures ListenerKey(V4 + p) == ListenerKey(STAR + p) <==> !("::" <= p)
    ensures !("::" <= p) ==> ListenerKey(V4 + p) == "any:" + ListenerKey(p)
    ensures ListenerKey(V6 + p) == "any6:" + ListenerKey(p)
  {
    var q := StepV4(p);
    StepV4Fronts(p);
    AnyInFront(q);
    StarInFront(q);
    assert (V6 + q)[3..] == q;
    assert StepV6(V6 + q) == "any6:" + StepV6(q);
    var z := StepV6(q);
    assert "any6:" + z == "any" + (['6'] + ([':'] + z));
    ThroughAny(['6'] + ([':'] + z));
    StepLiteral('6', [':'] + z);
    assert ([':'] + z)[1..] == z;
    assert StepStar([':'] + z) == [':'] + StepStar(z);
    assert "any" + (['6'] + ([':'] + StepStar(z))) == "any6:" + StepStar(z);
  }

  /** For a port of digits the three keys are as documented. */
  lemma {:induction false} PortKeys(p: string)
    requires forall c | c in p :: '0' <= c <= '9'
    ensures ListenerKey(V4 + p) == ListenerKey(STAR + p) == "any:" + p
    ensures ListenerKey(V6 + p) == "any6:" + p
  {
    if |p| > 0 { assert p[0] in p; }
    WildcardsShareKey(p);
    NoColon(p, V4, "any:");
    NoColon(p, V6, "any6:");
    NoColon(p, STAR, "any:");
  }

  /** The documented examples. */
  lemma DocumentedV4Key()
    ensures ListenerKey("0.0.0.0:8080") == "any:8080"
  {
    PortKeys("8080");
    assert V4 + "8080" == "0.0.0.0:8080" && "any:" + "8080" == "any:8080";
  }

  lemma DocumentedStarKey()
    ensures ListenerKey("*:8080") == "any:8080"
  {
    PortKeys("8080");
    assert STAR + "8080" == "*:8080" && "any:" + "8080" == "any:8080";
  }

  lemma DocumentedV6Key()
    ensures ListenerKey(":::8080") == "any6:8080"
  {
    PortKeys("8080");
    assert V6 + "8080" == ":::8080" && "any6:" + "8080" == "any6:8080";
  }

  lemma ContainsChar(p: string, pat: string, c: char)
    requires Contains(p, pat) && c in pat
    ensures c in p
  {
    var a, b := ContainsSplit(p, pat);
  }

  lemma NoColon(p: string, pat: string, out: string)
    requires |pat| > 0 && ':' in pat && ':' !in p
    ensures Replace(p, pat, out) == p
  {
    if Contains(p, pat) {
      ContainsChar(p, pat, ':');
    }
    ReplaceAbsent(p, pat, out);
  }
}
