/** Which raw listener keys are taken for the same socket (pt-common/src/resource_evidence.rs). */
module ListenerKeys {
  import opened Resources

  /** The key with every IPv4 wildcard written as a star, except before two colons. */
  function StarForm(k: string): string {
    if |k| == 0 then ""
    else if V4 <= k then (if "::" <= k[8..] then V4 else STAR) + StarForm(k[8..])
    else [k[0]] + StarForm(k[1..])
  }

  // ------------------------------------------------- the key, front to back

  lemma AsFront(pat: string, k: string)
    requires pat <= k
    ensures k == pat + k[|pat|..]
  {}

  lemma MappedBeforeColons(q: string)
    ensures ListenerKey(V4 + ("::" + q)) == "anyany6:" + ListenerKey(q)
  {
    var x := StepV4(q);
    StepV4Fronts("::" + q);
    StepV4OfColons(q);
    AnyInFront("::" + x);
    SixKey(q);
    assert [':'] + ("::" + x) == V6 + x;
    assert "any" + ("any6:" + ListenerKey(q)) == "anyany6:" + ListenerKey(q);
  }

  lemma SixKey(q: string)
    ensures StepStar(StepV6(V6 + StepV4(q))) == "any6:" + ListenerKey(q)
  {
    StepV4Fronts(q);
    WildcardsShareKey(q);
  }

  lemma StepV4OfColons(q: string)
    ensures StepV4("::" + q) == "::" + StepV4(q)
  {
    StepV4OfColon(q);
    StepV4OfColon([':'] + q);
    assert "::" + q == [':'] + ([':'] + q);
    assert "::" + StepV4(q) == [':'] + ([':'] + StepV4(q));
  }

  lemma StepV4OfColon(q: string)
    ensures StepV4([':'] + q) == [':'] + StepV4(q)
  {
    assert V4[0] == '0';
    assert ([':'] + q)[1..] == q;
  }

  /** No wildcard starts here. */
  predicate IsLiteral(c: char, p: string) {
    !(V4 <= [c] + p) && !(V6 <= [c] + p) && !(c == '*' && ":" <= p && !(":::" <= p))
  }

  lemma LiteralInFront(c: char, p: string)
    requires IsLiteral(c, p)
    ensures ListenerKey([c] + p) == [c] + ListenerKey(p)
  {
    var x := StepV4(p);
    assert ([c] + p)[1..] == p;
    assert StepV4([c] + p) == [c] + x;
    LiteralAfterV4(c, p);
    assert ([c] + x)[1..] == x;
    assert StepV6([c] + x) == [c] + StepV6(x);
    LiteralAfterV6(c, p);
    assert ([c] + StepV6(x))[1..] == StepV6(x);
  }

  lemma LiteralAfterV4(c: char, p: string)
    requires IsLiteral(c, p)
    ensures !(V6 <= [c] + StepV4(p))
  {
    if V6 <= [c] + StepV4(p) {
      assert c == ([c] + StepV4(p))[0] == V6[0] == ':';
      assert "::" <= StepV4(p) by { TwoAfter(c, StepV4(p)); }
      ColonsSurvive(p);
      TwoAfter(c, p);
    }
  }

  /** Three colons are one and two. */
  lemma TwoAfter(c: char, p: string)
    ensures V6 <= [c] + p <==> c == ':' && "::" <= p
  {
    var t := [c] + p;
    assert t[0] == c && t[1..] == p;
    assert V6 <= t <==> |t| >= 3 && t[0] == ':' && t[1] == ':' && t[2] == ':';
    assert "::" <= p <==> |p| >= 2 && p[0] == ':' && p[1] == ':';
  }

  lemma LiteralAfterV6(c: char, p: string)
    requires IsLiteral(c, p)
    ensures !(STAR <= [c] + StepV6(StepV4(p)))
  {
    var y := StepV6(StepV4(p));
    assert ([c] + y)[0] == c && ([c] + y)[1..] == y;
    assert STAR <= [c] + y ==> c == '*' && ":" <= y;
    if ":" <= y {
      PrefixSurvives(":", StepV4(p), V6, "any6:");
      PrefixSurvives(":", p, V4, "any:");
    }
    if ":::" <= p { ThreeTaken(p); }
  }

  lemma ThreeTaken(p: string)
    requires ":::" <= p
    ensures !(":" <= StepV6(StepV4(p)))
  {
    AsFront(":::", p);
    StepV4Fronts(p[3..]);
    assert V6 <= StepV4(p);
    assert StepV6(StepV4(p))[0] == 'a';
  }

  /** What a canonical key starts with. */
  lemma StartOf(k: string)
    ensures ListenerKey(k) != "" ==> |k| > 0 && (ListenerKey(k)[0] == 'a' || ListenerKey(k)[0] == k[0])
    ensures k != "" && ListenerKey(k) != "" && ListenerKey(k)[0] != 'a' ==> IsLiteral(k[0], k[1..])
  {
    if |k| > 0 {
      assert k == [k[0]] + k[1..];
      if IsLiteral(k[0], k[1..]) {
        LiteralInFront(k[0], k[1..]);
      } else {
        WildcardInFront(k);
      }
    }
  }

  /** Where a wildcard starts, its replacement is what the key starts with. */
  lemma WildcardInFront(k: string)
    requires |k| > 0 && !IsLiteral(k[0], k[1..])
    ensures V4 <= k || V6 <= k || (STAR <= k && !("::" <= k[2..]))
    ensures V4 <= k && "::" <= k[8..] ==> ListenerKey(k) == "anyany6:" + ListenerKey(k[10..])
    ensures V4 <= k && !("::" <= k[8..]) ==> ListenerKey(k) == "any:" + ListenerKey(k[8..])
    ensures V6 <= k ==> ListenerKey(k) == "any6:" + ListenerKey(k[3..])
    ensures STAR <= k && !("::" <= k[2..]) ==> ListenerKey(k) == "any:" + ListenerKey(k[2..])
  {
    assert k == [k[0]] + k[1..];
    if V4 <= k {
      AsFront(V4, k);
      WildcardsShareKey(k[8..]);
      if "::" <= k[8..] {
        AsFront("::", k[8..]);
        MappedBeforeColons(k[10..]);
      }
    } else if V6 <= k {
      AsFront(V6, k);
      WildcardsShareKey(k[3..]);
    } else {
      StarWithColon(k);
      AsFront(STAR, k);
      WildcardsShareKey(k[2..]);
    }
  }

  lemma StarWithColon(k: string)
    requires |k| > 0 && k[0] == '*' && ":" <= k[1..] && !(":::" <= k[1..])
    ensures STAR <= k && !("::" <= k[2..])
  {
    assert k[1] == k[1..][0] == ':';
    assert ":::" <= k[1..] <==> |k| >= 4 && k[1] == ':' && k[2] == ':' && k[3] == ':';
    assert "::" <= k[2..] <==> |k| >= 4 && k[2] == ':' && k[3] == ':';
  }

  // ------------------------------------------------- star forms have the same key

  lemma {:induction false} PrefixKept(u: string, k: string)
    requires '*' !in u && u <= StarForm(k)
    ensures u <= k
    decreases |k|
  {
    if |u| > 0 {
      assert u[0] in u;
      if V4 <= k {
        assert "::" <= k[8..];
        if |u| > 8 {
          var v := u[8..];
          assert StarForm(k)[8..] == StarForm(k[8..]);
          assert v == StarForm(k)[8..][..|v|];
          assert forall c | c in v :: c in u;
          PrefixKept(v, k[8..]);
          assert u == V4 + v;
        }
      } else {
        assert forall c | c in u[1..] :: c in u;
        PrefixKept(u[1..], k[1..]);
      }
    }
  }

  lemma FormOfColon(p: string)
    ensures StarForm([':'] + p) == [':'] + StarForm(p)
  {
    assert ([':'] + p)[1..] == p && V4[0] == '0';
  }

  lemma FormOfColons(p: string)
    ensures StarForm("::" + p) == "::" + StarForm(p) && StarForm(":::" + p) == ":::" + StarForm(p)
  {
    FormOfColon(p);
    FormOfColon([':'] + p);
    FormOfColon([':'] + ([':'] + p));
    assert "::" + p == [':'] + ([':'] + p) && ":::" + p == [':'] + ([':'] + ([':'] + p));
    assert "::" + StarForm(p) == [':'] + ([':'] + StarForm(p));
    assert ":::" + StarForm(p) == [':'] + ([':'] + ([':'] + StarForm(p)));
  }

  lemma ColonsKept(p: string)
    ensures "::" <= StarForm(p) <==> "::" <= p
    ensures ":::" <= StarForm(p) <==> ":::" <= p
  {
    if "::" <= StarForm(p) { PrefixKept("::", p); }
    if ":::" <= StarForm(p) { PrefixKept(":::", p); }
    if "::" <= p {
      AsFront("::", p);
      FormOfColons(p[2..]);
    }
    if ":::" <= p {
      AsFront(":::", p);
      FormOfColons(p[3..]);
    }
  }

  lemma FormOfStar(p: string)
    ensures StarForm(STAR + p) == STAR + StarForm(p)
  {
    FormOfColon(p);
    var k := STAR + p;
    assert k[0] == '*' && k[1..] == [':'] + p && V4[0] == '0';
    assert STAR + StarForm(p) == ['*'] + ([':'] + StarForm(p));
  }

  lemma V4Kept(c: char, p: string)
    ensures V4 <= [c] + StarForm(p) ==> V4 <= [c] + p
  {
    if V4 <= [c] + StarForm(p) {
      assert V4[1..] == ([c] + StarForm(p))[1..8] == StarForm(p)[..7];
      PrefixKept(V4[1..], p);
      assert V4 == [c] + V4[1..];
    }
  }

  lemma LiteralKept(c: char, p: string)
    requires IsLiteral(c, p)
    ensures StarForm([c] + p) == [c] + StarForm(p) && IsLiteral(c, StarForm(p))
  {
    assert ([c] + p)[1..] == p;
    ColonsKept(p);
    TwoAfter(c, p);
    TwoAfter(c, StarForm(p));
    V4Kept(c, p);
    if ":" <= StarForm(p) { PrefixKept(":", p); }
  }

  /** Writing the IPv4 wildcards as stars does not change the key. */
  lemma {:induction false} SameKeyAsStarForm(k: string)
    ensures ListenerKey(StarForm(k)) == ListenerKey(k)
    decreases |k|
  {
    if |k| > 0 {
      assert k == [k[0]] + k[1..];
      if IsLiteral(k[0], k[1..]) {
        LiteralKept(k[0], k[1..]);
        SameKeyAsStarForm(k[1..]);
        LiteralInFront(k[0], k[1..]);
        LiteralInFront(k[0], StarForm(k[1..]));
      } else {
        WildcardInFront(k);
        WildcardForms(k);
      }
    }
  }

  lemma {:induction false} WildcardForms(k: string)
    requires |k| > 0 && !IsLiteral(k[0], k[1..])
    ensures ListenerKey(StarForm(k)) == ListenerKey(k)
    decreases |k|, 0
  {
    WildcardInFront(k);
    if V4 <= k && "::" <= k[8..] {
      var q := k[10..];
      SameKeyAsStarForm(q);
      KeptForm(k);
      MappedBeforeColons(StarForm(q));
    } else if V4 <= k {
      SameKeyAsStarForm(k[8..]);
      ColonsKept(k[8..]);
      WildcardsShareKey(StarForm(k[8..]));
    } else if V6 <= k {
      SameKeyAsStarForm(k[3..]);
      AsFront(V6, k);
      FormOfColons(k[3..]);
      WildcardsShareKey(StarForm(k[3..]));
    } else {
      SameKeyAsStarForm(k[2..]);
      AsFront(STAR, k);
      FormOfStar(k[2..]);
      ColonsKept(k[2..]);
      WildcardsShareKey(StarForm(k[2..]));
    }
  }

  lemma KeptForm(k: string)
    requires V4 <= k && "::" <= k[8..]
    ensures StarForm(k) == V4 + ("::" + StarForm(k[10..]))
  {
    AsFront("::", k[8..]);
    assert k[8..][2..] == k[10..];
    FormOfColons(k[10..]);
  }

  // ------------------------------------------------- and the key gives the form back

  function Undone(s: string): string {
    if |s| == 0 then ""
    else if "anyany6:" <= s then V4 + ("::" + Undone(s[8..]))
    else if "any6:" <= s then V6 + Undone(s[5..])
    else if "any:" <= s then STAR + Undone(s[4..])
    else [s[0]] + Undone(s[1..])
  }

  lemma UndoneAny(s: string)
    ensures Undone("any:" + s) == STAR + Undone(s)
    ensures Undone("any6:" + s) == V6 + Undone(s)
    ensures Undone("anyany6:" + s) == V4 + ("::" + Undone(s))
  {
    assert ("any:" + s)[3] == ':' && ("any:" + s)[4..] == s;
    assert ("any6:" + s)[3] == '6' && ("any6:" + s)[5..] == s;
    assert ("anyany6:" + s)[8..] == s;
    assert "anyany6:"[3] == 'a' && "any6:"[3] == '6' && "any:"[3] == ':';
  }

  lemma UndoneLiteral(c: char, s: string)
    requires !("any" <= [c] + s)
    ensures Undone([c] + s) == [c] + Undone(s)
  {
    var t := [c] + s;
    assert t[1..] == s && t[0] == c;
    assert "anyany6:" <= t ==> "any" <= t by { assert "anyany6:"[..3] == "any"; }
    assert "any6:" <= t ==> "any" <= t by { assert "any6:"[..3] == "any"; }
    assert "any:" <= t ==> "any" <= t by { assert "any:"[..3] == "any"; }
  }

  /** No "any" comes from text without the letter y, only from replacements. */
  lemma NoAnyFromText(c: char, p: string)
    requires 'y' !in p
    ensures !("any" <= [c] + ListenerKey(p))
  {
    NoNyFromText(p);
    PrefixTail("any", c, ListenerKey(p));
    assert "any"[1..] == "ny";
  }

  lemma NoNyFromText(p: string)
    requires 'y' !in p
    ensures !("ny" <= ListenerKey(p))
  {
    StartOf(p);
    if |p| > 0 && IsLiteral(p[0], p[1..]) {
      assert p == [p[0]] + p[1..];
      LiteralInFront(p[0], p[1..]);
      assert forall c | c in p[1..] :: c in p;
      NoYFromText(p[1..]);
      PrefixTail("ny", p[0], ListenerKey(p[1..]));
      assert "ny"[1..] == "y";
    }
  }

  lemma NoYFromText(p: string)
    requires 'y' !in p
    ensures !("y" <= ListenerKey(p))
  {
    StartOf(p);
    if |p| > 0 { assert p[0] in p; }
  }

  lemma PrefixTail(u: string, c: char, s: string)
    requires |u| > 0
    ensures u <= [c] + s ==> u[1..] <= s
  {
    assert ([c] + s)[1..] == s;
    if u <= [c] + s { assert u[1..] == ([c] + s)[1..|u|] == s[..|u| - 1]; }
  }

  lemma {:induction false} UndoneExact(k: string)
    requires 'y' !in k
    ensures Undone(ListenerKey(k)) == StarForm(k)
    decreases |k|
  {
    if |k| > 0 {
      assert k == [k[0]] + k[1..];
      assert forall i: nat, c | i <= |k| && c in k[i..] :: c in k;
      if IsLiteral(k[0], k[1..]) {
        UndoneExact(k[1..]);
        LiteralInFront(k[0], k[1..]);
        LiteralKept(k[0], k[1..]);
        NoAnyFromText(k[0], k[1..]);
        UndoneLiteral(k[0], ListenerKey(k[1..]));
      } else {
        UndoneWildcard(k);
      }
    }
  }

  lemma {:induction false} UndoneWildcard(k: string)
    requires 'y' !in k && |k| > 0 && !IsLiteral(k[0], k[1..])
    ensures Undone(ListenerKey(k)) == StarForm(k)
    decreases |k|, 0
  {
    assert forall i: nat, c | i <= |k| && c in k[i..] :: c in k;
    WildcardInFront(k);
    if V4 <= k && "::" <= k[8..] {
      UndoneExact(k[10..]);
      UndoneAny(ListenerKey(k[10..]));
      KeptForm(k);
    } else if V4 <= k {
      UndoneExact(k[8..]);
      UndoneAny(ListenerKey(k[8..]));
    } else if V6 <= k {
      UndoneExact(k[3..]);
      UndoneAny(ListenerKey(k[3..]));
      AsFront(V6, k);
      FormOfColons(k[3..]);
    } else {
      UndoneExact(k[2..]);
      UndoneAny(ListenerKey(k[2..]));
      AsFront(STAR, k);
      FormOfStar(k[2..]);
    }
  }

  // ------------------------------------------------- the theorems

  /** Two keys without the letter y, such as all numeric addresses, have the same canonical
      key exactly when they are equal up to writing the IPv4 wildcard as a star, except before
      two colons. */
  lemma SharedKeyExactly(k: string, k': string)
    requires 'y' !in k && 'y' !in k'
    ensures ListenerKey(k) == ListenerKey(k') <==> StarForm(k) == StarForm(k')
  {
    SameKeyAsStarForm(k);
    SameKeyAsStarForm(k');
    UndoneExact(k);
    UndoneExact(k');
  }

  /** So for listeners too, the digested text is shared under a condition on the raw keys. */
  lemma SameListenerExactly(key: string, key': string)
    requires 'y' !in key && 'y' !in key'
    ensures ResourcePreimage(Listener, key) == ResourcePreimage(Listener, key') <==> StarForm(key) == StarForm(key')
  {
    SameResourceExactly(Listener, key, Listener, key');
    SharedKeyExactly(key, key');
  }

  lemma AnyThroughV4(p: string)
    ensures StepV4("any:" + p) == "any:" + StepV4(p)
  {
    StepV4OfColon(p);
    var x := [':'] + p;
    StepLiteral('y', x);
    StepLiteral('n', ['y'] + x);
    StepLiteral('a', ['n'] + (['y'] + x));
    Spelled(p);
    Spelled(StepV4(p));
  }

  lemma Spelled(p: string)
    ensures "any:" + p == ['a'] + (['n'] + (['y'] + ([':'] + p)))
  {}

  /** The letter y matters: a key may spell the replacement itself. */
  lemma AnySpelledOut(p: string)
    requires !("::" <= p)
    ensures ListenerKey("any:" + p) == ListenerKey(STAR + p)
    ensures StarForm("any:" + p) != StarForm(STAR + p)
  {
    WildcardsShareKey(p);
    ColonsSurvive(p);
    AnyInFront(StepV4(p));
    AnyThroughV4(p);
    FormOfStar(p);
    assert ("any:" + p)[0] == 'a' && V4[0] == '0';
  }

  /** The IPv4 wildcard is replaced after any character too, so at the end of a longer
      address. */
  lemma LongerAddress(c: char, p: string)
    requires !("::" <= p)
    ensures ListenerKey([c] + (V4 + p)) == [c] + ("any:" + ListenerKey(p))
  {
    var k := [c] + (V4 + p);
    assert k[0] == c && k[1] == '0' && V4[1] == '.' && V6[1] == ':' && (V4 + p)[0] == '0';
    LiteralInFront(c, V4 + p);
    WildcardsShareKey(p);
  }

  /** For example. */
  lemma TailOfLongerAddress()
    ensures ListenerKey("10.0.0.0:80") == "1any:80"
  {
    LongerAddress('1', "80");
    SamePort();
    assert ['1'] + (V4 + "80") == "10.0.0.0:80";
    assert ['1'] + ("any:" + "80") == "1any:80";
  }

  lemma SamePort()
    ensures ListenerKey("80") == "80"
  {
    NoColon("80", V4, "any:");
    NoColon("80", V6, "any6:");
    NoColon("80", STAR, "any:");
  }
}
