/** Process start ids and session ids (pt-common/src/id.rs). */
module Ids {
  import opened Wrappers
  import opened Strings

  const U64_MAX := 0xFFFF_FFFF_FFFF_FFFF
  const U32_MAX := 0xFFFF_FFFF

  // ------------------------------------------------------------------- decimals

  predicate IsDigit(c: char) { '0' <= c <= '9' }
  predicate AllDigits(s: string) { forall c | c in s :: IsDigit(c) }

  function DigitChar(d: nat): char
    requires d < 10
  {
    (d + '0' as int) as char
  }

  /** `{}` of an unsigned integer. */
  function Decimal(n: nat): (s: string)
    ensures |s| >= 1
  {
    if n < 10 then [DigitChar(n)] else Decimal(n / 10) + [DigitChar(n % 10)]
  }

  /** The value of a digit string. */
  function Value(s: string): nat
    requires AllDigits(s)
  {
    if |s| == 0 then 0
    else
      assert IsDigit(s[|s| - 1]);
      Value(s[..|s| - 1]) * 10 + (s[|s| - 1] as int - '0' as int)
  }

  /** `parse` of an unsigned integer: an optional plus sign, then at least one digit,
      and the value within the type. */
  function ParseUnsigned(s: string, max: nat): Option<nat> {
    var digits := if |s| >= 1 && s[0] == '+' then s[1..] else s;
    if |digits| == 0 || !AllDigits(digits) || Value(digits) > max then None
    else Some(Value(digits))
  }

  lemma {:induction false} DecimalValue(n: nat)
    ensures AllDigits(Decimal(n)) && Value(Decimal(n)) == n
    ensures Decimal(n)[0] == '0' ==> n == 0
  {
    if n >= 10 {
      DecimalValue(n / 10);
      assert Decimal(n)[..|Decimal(n)| - 1] == Decimal(n / 10);
    } else {
      assert Value(Decimal(n)[..0]) == 0;
    }
  }

  /** The numerals that are printed: no leading zero. */
  predicate Canonical(s: string) {
    |s| >= 1 && AllDigits(s) && (s[0] == '0' ==> |s| == 1)
  }

  lemma {:induction false} CanonicalExact(s: string)
    requires |s| >= 1 && AllDigits(s)
    ensures Decimal(Value(s)) == s <==> Canonical(s)
  {
    DecimalValue(Value(s));
    if Decimal(Value(s)) == s {
      if s[0] == '0' { assert Decimal(0) == "0"; }
    }
    if Canonical(s) { CanonicalPrints(s); }
  }

  lemma OneDigit(s: string)
    requires |s| == 1 && AllDigits(s)
    ensures Value(s) == s[0] as int - '0' as int && Decimal(Value(s)) == s
  {
    assert s[0] in s;
    assert Value(s[..0]) == 0;
    assert DigitChar(Value(s)) == s[0];
  }

  /** Numerals are decimal. */
  lemma ValueExactly(s: string, c: char)
    requires AllDigits(s) && '0' <= c <= '9'
    ensures Value("") == 0 && AllDigits(s + [c]) && Value(s + [c]) == 10 * Value(s) + (c as int - '0' as int)
  {
    assert (s + [c])[..|s|] == s;
  }

  lemma PrintDigit(v: nat, d: nat)
    requires v >= 1 && d < 10
    ensures Decimal(v * 10 + d) == Decimal(v) + [DigitChar(d)]
  {
    assert (v * 10 + d) / 10 == v && (v * 10 + d) % 10 == d;
  }

  lemma ValueAppend(s: string, c: char)
    requires AllDigits(s) && IsDigit(c)
    ensures AllDigits(s + [c]) && Value(s + [c]) == Value(s) * 10 + (c as int - '0' as int)
  {
    var t := s + [c];
    assert t[..|t| - 1] == s && t[|t| - 1] == c;
  }

  /** Appending a digit to a printed positive number prints ten times the number plus it. */
  lemma AppendDigit(s: string, c: char)
    requires |s| >= 1 && AllDigits(s) && IsDigit(c) && Value(s) >= 1 && Decimal(Value(s)) == s
    ensures AllDigits(s + [c]) && Value(s + [c]) >= 10 && Decimal(Value(s + [c])) == s + [c]
  {
    var d := c as int - '0' as int;
    ValueAppend(s, c);
    PrintDigit(Value(s), d);
  }

  lemma {:induction false} CanonicalPrints(s: string)
    requires Canonical(s)
    ensures Decimal(Value(s)) == s
    ensures s[0] != '0' ==> Value(s) >= 1
  {
    if |s| == 1 {
      OneDigit(s);
    } else {
      var front, last := s[..|s| - 1], s[|s| - 1];
      assert forall c | c in front :: c in s;
      assert last in s && front[0] == s[0];
      assert s == front + [last];
      CanonicalPrints(front);
      AppendDigit(front, last);
    }
  }

  // ------------------------------------------------------------------ start ids

  /** `from_linux`, and `from_macos`, which prints the same way. */
  function FromLinux(bootId: string, startTimeTicks: nat, pid: nat): string {
    bootId + ":" + Decimal(startTimeTicks) + ":" + Decimal(pid)
  }

  predicate WellFormedStartId(s: string) {
    var parts := Split(s, ':');
    && |parts| == 3 && parts[0] != ""
    && ParseUnsigned(parts[1], U64_MAX).Some? && ParseUnsigned(parts[2], U32_MAX).Some?
  }

  /** `next` of the split iterator. */
  method Next(parts: seq<string>) returns (field: Option<string>, rest: seq<string>)
    ensures if |parts| == 0 then field == None && rest == [] else field == Some(parts[0]) && rest == parts[1..]
  {
    if |parts| == 0 { return None, []; }
    return Some(parts[0]), parts[1..];
  }

  /** `StartId::parse`: accepts exactly three fields, unchanged. */
  method ParseStartId(s: string) returns (r: Option<string>)
    ensures r == if WellFormedStartId(s) then Some(s) else None
  {
    var parts := Split(s, ':');
    var bootId, startTime, pid, more;
    bootId, parts := Next(parts);
    if bootId.None? { return None; }
    startTime, parts := Next(parts);
    if startTime.None? { return None; }
    pid, parts := Next(parts);
    if pid.None? { return None; }
    more, parts := Next(parts);
    if more.Some? { return None; }
    if bootId.value == "" { return None; }
    if ParseUnsigned(startTime.value, U64_MAX).None? { return None; }
    if ParseUnsigned(pid.value, U32_MAX).None? { return None; }
    r := Some(s);
  }

  lemma DigitsHaveNoSeparator(s: string)
    requires AllDigits(s)
    ensures ':' !in s && (|s| >= 1 ==> s[0] != '+')
  {
    if |s| >= 1 { assert s[0] in s; }
  }

  lemma PrintedFields(b: string, t: nat, p: nat)
    ensures Split(FromLinux(b, t, p), ':') == Split(b, ':') + [Decimal(t), Decimal(p)]
  {
    DecimalValue(t);
    DecimalValue(p);
    DigitsHaveNoSeparator(Decimal(t));
    DigitsHaveNoSeparator(Decimal(p));
    assert FromLinux(b, t, p) == b + [':'] + (Decimal(t) + [':'] + Decimal(p));
    SplitConcat(b, Decimal(t) + [':'] + Decimal(p), ':');
    SplitConcat(Decimal(t), Decimal(p), ':');
    SplitOne(Decimal(t), ':');
    SplitOne(Decimal(p), ':');
  }

  /** A printed start id is accepted exactly when its boot id is non-empty and
      colon-free and its numbers fit 64 and 32 bits. */
  lemma PrintedIsAccepted(b: string, t: nat, p: nat)
    ensures WellFormedStartId(FromLinux(b, t, p))
       <==> b != "" && ':' !in b && t <= 18_446_744_073_709_551_615 && p <= 4_294_967_295
  {
    PrintedFields(b, t, p);
    DecimalValue(t);
    DecimalValue(p);
    DigitsHaveNoSeparator(Decimal(t));
    DigitsHaveNoSeparator(Decimal(p));
    var parts := Split(b, ':');
    if ':' !in b {
      SplitOne(b, ':');
    } else {
      JoinSplit(b, ':');
      SplitFree(b, ':');
    }
  }

  /** Printing is injective, colons in the boot id included: no two incarnations share an id. */
  lemma PrintingInjective(b: string, t: nat, p: nat, b': string, t': nat, p': nat)
    requires FromLinux(b, t, p) == FromLinux(b', t', p')
    ensures b == b' && t == t' && p == p'
  {
    PrintedFields(b, t, p);
    PrintedFields(b', t', p');
    var x, y := Split(b, ':'), Split(b', ':');
    assert |x| + 2 == |x + [Decimal(t), Decimal(p)]| == |y| + 2;
    assert (x + [Decimal(t), Decimal(p)])[..|x|] == x && (y + [Decimal(t'), Decimal(p')])[..|y|] == y;
    assert (x + [Decimal(t), Decimal(p)])[|x|] == Decimal(t) && (y + [Decimal(t'), Decimal(p')])[|y|] == Decimal(t');
    assert (x + [Decimal(t), Decimal(p)])[|x| + 1] == Decimal(p)
        && (y + [Decimal(t'), Decimal(p')])[|y| + 1] == Decimal(p');
    DecimalValue(t); DecimalValue(t'); DecimalValue(p); DecimalValue(p');
    JoinSplit(b, ':');
    JoinSplit(b', ':');
  }

  /** The process a start id names. */
  function Named(s: string): (string, nat, nat)
    requires WellFormedStartId(s)
  {
    var parts := Split(s, ':');
    (parts[0], ParseUnsigned(parts[1], U64_MAX).value, ParseUnsigned(parts[2], U32_MAX).value)
  }

  /** The parser also accepts a plus sign and leading zeros, unchanged, so an accepted id
      is the printed id of what it names exactly when both its numerals are canonical. */
  lemma AcceptedIsPrinted(s: string)
    requires WellFormedStartId(s)
    ensures FromLinux(Named(s).0, Named(s).1, Named(s).2) == s
       <==> Canonical(Split(s, ':')[1]) && Canonical(Split(s, ':')[2])
  {
    var parts := Split(s, ':');
    var (b, t, p) := Named(s);
    SplitFree(s, ':');
    JoinSplit(s, ':');
    PrintedFields(b, t, p);
    SplitOne(b, ':');
    DecimalValue(t);
    DecimalValue(p);
    assert Split(b, ':') + [Decimal(t), Decimal(p)] == [b, Decimal(t), Decimal(p)];
    JoinSplit(FromLinux(b, t, p), ':');
    NumeralExact(parts[1], U64_MAX);
    NumeralExact(parts[2], U32_MAX);
    assert parts == [parts[0], parts[1], parts[2]];
  }

  lemma NumeralExact(s: string, max: nat)
    requires ParseUnsigned(s, max).Some?
    ensures Decimal(ParseUnsigned(s, max).value) == s <==> Canonical(s)
  {
    var v := ParseUnsigned(s, max).value;
    DecimalValue(v);
    DigitsHaveNoSeparator(Decimal(v));
    if s[0] == '+' {
      assert !AllDigits(s) by { assert s[0] in s && !IsDigit(s[0]); }
    } else {
      CanonicalExact(s);
    }
  }

  /** So a process has more than one accepted id: a plus sign gives another. */
  lemma PlusSignAccepted(b: string, t: nat, p: nat)
    requires b != "" && ':' !in b && t <= U64_MAX && p <= U32_MAX
    ensures var s := b + [':'] + ("+" + Decimal(t) + [':'] + Decimal(p));
            && WellFormedStartId(s) && Named(s) == (b, t, p)
            && s != FromLinux(b, t, p)
  {
    var plus := "+" + Decimal(t);
    DecimalValue(t);
    DecimalValue(p);
    DigitsHaveNoSeparator(Decimal(t));
    DigitsHaveNoSeparator(Decimal(p));
    HeadField(b, plus + [':'] + Decimal(p), ':');
    HeadField(plus, Decimal(p), ':');
    SplitOne(Decimal(p), ':');
    assert plus[1..] == Decimal(t);
    PrintedFields(b, t, p);
    SplitOne(b, ':');
    assert Split(b + [':'] + (plus + [':'] + Decimal(p)), ':') == [b, plus, Decimal(p)];
    assert plus[0] != Decimal(t)[0];
    assert Split(FromLinux(b, t, p), ':')[1] != plus;
  }
}
