/** Session ids `pt-YYYYMMDD-HHMMSS-XXXX` (pt-common/src/id.rs). */
module SessionIds {
  import opened Wrappers
  import opened Utf8
  import opened Ids

  /** The lower-case alphabet of section 6 of RFC 4648. */
  const ALPHABET := "abcdefghijklmnopqrstuvwxyz234567"

  predicate IsBase32(c: char) { 'a' <= c <= 'z' || '2' <= c <= '7' }

  // ------------------------------------------------------------------- parsing

  /** Slicing a string at an offset inside a character panics. */
  datatype Outcome = Panicked | Rejected | Accepted(id: string)

  /** `SessionId::parse`: byte tests first, then three slices at byte offsets. */
  function ParseSessionId(s: string): Outcome {
    var bytes := Encode(s);
    if |bytes| != 23 then Rejected
    else if bytes[0] != 'p' as int || bytes[1] != 't' as int || bytes[2] != '-' as int
            || bytes[11] != '-' as int || bytes[18] != '-' as int then Rejected
    else
      var date, time, suffix := Slice(s, 3, 11), Slice(s, 12, 18), Slice(s, 19, 23);
      if date.None? || time.None? || suffix.None? then Panicked
      else if !AllDigits(date.value) || !AllDigits(time.value) then Rejected
      else if !(forall c | c in suffix.value :: IsBase32(c)) then Rejected
      else Accepted(s)
  }

  /** The documented form, on characters. */
  predicate IsSessionId(s: string) {
    && |s| == 23 && s[..3] == "pt-" && s[11] == '-' && s[18] == '-'
    && AllDigits(s[3..11]) && AllDigits(s[12..18])
    && forall c | c in s[19..] :: IsBase32(c)
  }

  /** Between boundaries a slice exists, and its bytes are that range of the bytes. */
  lemma SliceBytes(s: string, from: nat, to: nat)
    requires from <= to && IsBoundary(Encode(s), from) && IsBoundary(Encode(s), to) && to <= |Encode(s)|
    ensures Slice(s, from, to).Some? && Encode(Slice(s, from, to).value) == Encode(s)[from..to]
  {
    Cut(s, from);
    var rest := DropBytes(s, from).value;
    BoundaryShifts(Encode(s), Encode(rest), from, to);
    SliceOfRest(s, rest, from, to);
  }

  lemma SliceOfRest(s: string, rest: string, from: nat, to: nat)
    requires from <= to && DropBytes(s, from) == Some(rest) && IsBoundary(Encode(rest), to - from)
    ensures Slice(s, from, to).Some? && Encode(Slice(s, from, to).value) == Encode(rest)[..to - from]
  {
    Cut(rest, to - from);
  }

  lemma BoundaryShifts(bytes: Bytes, rest: Bytes, from: nat, to: nat)
    requires from <= to <= |bytes| && IsBoundary(bytes, to) && rest == bytes[from..]
    ensures IsBoundary(rest, to - from)
    ensures rest[..to - from] == bytes[from..to]
  {
    assert to < |bytes| ==> rest[to - from] == bytes[to];
  }

  lemma {:induction false} AsciiText(s: string)
    requires forall c | c in s :: c as int < 0x80
    ensures |Encode(s)| == |s| && forall i | 0 <= i < |s| :: Encode(s)[i] == s[i] as int
  {
    assert forall i | 0 <= i < |s| :: s[i] in s;
    Ascii(s);
  }

  /** After the byte tests the three slices exist. */
  lemma SlicesExist(s: string)
    requires var b := Encode(s); |b| == 23 && b[2] == '-' as int && b[11] == '-' as int && b[18] == '-' as int
    ensures Slice(s, 3, 11).Some? && Encode(Slice(s, 3, 11).value) == Encode(s)[3..11]
    ensures Slice(s, 12, 18).Some? && Encode(Slice(s, 12, 18).value) == Encode(s)[12..18]
    ensures Slice(s, 19, 23).Some? && Encode(Slice(s, 19, 23).value) == Encode(s)[19..23]
  {
    AfterAscii(s, 2); AfterAscii(s, 11); AfterAscii(s, 18);
    SliceBytes(s, 3, 11); SliceBytes(s, 12, 18); SliceBytes(s, 19, 23);
  }

  /** No text of any length and content makes the parser slice inside a character. */
  lemma NeverPanics(s: string)
    ensures ParseSessionId(s) != Panicked
  {
    var bytes := Encode(s);
    if |bytes| == 23 && bytes[2] == '-' as int && bytes[11] == '-' as int && bytes[18] == '-' as int {
      SlicesExist(s);
    }
  }

  /** The byte-level parser accepts exactly the ids of the documented form. */
  lemma AcceptsExactly(s: string)
    ensures ParseSessionId(s) == Accepted(s) <==> IsSessionId(s)
  {
    if ParseSessionId(s) == Accepted(s) { AcceptedHasForm(s); }
    if IsSessionId(s) { FormIsAccepted(s); }
  }

  /** The documented example. */
  lemma DocumentedId()
    ensures ParseSessionId("pt-20260115-143022-a7xq") == Accepted("pt-20260115-143022-a7xq")
  {
    DocumentedFields();
    Assembled("20260115", "143022", "a7xq");
    AcceptsExactly("pt-" + "20260115" + "-" + "143022" + "-" + "a7xq");
    assert "pt-" + "20260115" + "-" + "143022" + "-" + "a7xq" == "pt-20260115-143022-a7xq";
  }

  lemma DocumentedFields()
    ensures AllDigits("20260115") && AllDigits("143022") && forall c | c in "a7xq" :: IsBase32(c)
  {}

  /** A slice of ASCII characters is that range of the text, once the text is ASCII. */
  lemma AsciiSliceBytes(s: string, from: nat, to: nat)
    requires from <= to <= |Encode(s)| && Slice(s, from, to).Some?
    requires Encode(Slice(s, from, to).value) == Encode(s)[from..to]
    requires forall c | c in Slice(s, from, to).value :: c as int < 0x80
    ensures |Slice(s, from, to).value| == to - from
    ensures forall i | from <= i < to :: Encode(s)[i] < 0x80
  {
    var t := Slice(s, from, to).value;
    AsciiText(t);
    forall i | from <= i < to ensures Encode(s)[i] < 0x80 {
      assert Encode(s)[i] == Encode(t)[i - from] && t[i - from] in t;
    }
  }

  lemma AcceptedBytes(s: string)
    requires ParseSessionId(s) == Accepted(s)
    ensures |Encode(s)| == 23 && forall i | 0 <= i < 23 :: Encode(s)[i] < 0x80
  {
    SlicesExist(s);
    AsciiSliceBytes(s, 3, 11); AsciiSliceBytes(s, 12, 18); AsciiSliceBytes(s, 19, 23);
  }

  lemma AcceptedIsAscii(s: string)
    requires ParseSessionId(s) == Accepted(s)
    ensures forall i | 0 <= i < |s| :: s[i] as int < 0x80
    ensures |Encode(s)| == |s| && forall i | 0 <= i < |s| :: Encode(s)[i] == s[i] as int
  {
    AcceptedBytes(s);
    Ascii(s);
  }

  lemma AcceptedHasForm(s: string)
    requires ParseSessionId(s) == Accepted(s)
    ensures IsSessionId(s)
  {
    AcceptedIsAscii(s);
    AsciiSlice(s, 3, 11); AsciiSlice(s, 12, 18); AsciiSlice(s, 19, 23);
    assert s[19..23] == s[19..];
    assert s[..3] == [s[0], s[1], s[2]];
  }

  lemma FormIsAscii(s: string)
    requires IsSessionId(s)
    ensures forall i | 0 <= i < 23 :: s[i] as int < 0x80
  {
    assert s[..3] == "pt-" && s[0] == s[..3][0] && s[1] == s[..3][1] && s[2] == s[..3][2];
    forall i | 3 <= i < 11 ensures s[i] as int < 0x80 { assert s[i] == s[3..11][i - 3] && s[i] in s[3..11]; }
    forall i | 12 <= i < 18 ensures s[i] as int < 0x80 { assert s[i] == s[12..18][i - 12] && s[i] in s[12..18]; }
    forall i | 19 <= i < 23 ensures s[i] as int < 0x80 { assert s[i] == s[19..][i - 19] && s[i] in s[19..]; }
  }

  lemma FormIsAccepted(s: string)
    requires IsSessionId(s)
    ensures ParseSessionId(s) == Accepted(s)
  {
    FormIsAscii(s);
    Ascii(s);
    assert s[0] == s[..3][0] && s[1] == s[..3][1] && s[2] == s[..3][2];
    AsciiSlice(s, 3, 11); AsciiSlice(s, 12, 18); AsciiSlice(s, 19, 23);
    assert s[19..23] == s[19..];
  }

  /** In ASCII text byte offsets are character offsets. */
  lemma AsciiSlice(s: string, from: nat, to: nat)
    requires from <= to <= |s| && forall i | 0 <= i < |s| :: s[i] as int < 0x80
    ensures Slice(s, from, to) == Some(s[from..to])
  {
    AsciiDrop(s, from);
    AsciiTake(s[from..], to - from);
    assert s[from..][..to - from] == s[from..to];
  }

  lemma {:induction false} AsciiDrop(s: string, n: nat)
    requires n <= |s| && forall i | 0 <= i < |s| :: s[i] as int < 0x80
    ensures DropBytes(s, n) == Some(s[n..])
  {
    if n > 0 { AsciiDrop(s[1..], n - 1); }
  }

  lemma {:induction false} AsciiTake(s: string, n: nat)
    requires n <= |s| && forall i | 0 <= i < |s| :: s[i] as int < 0x80
    ensures TakeBytes(s, n) == Some(s[..n])
  {
    if n > 0 {
      AsciiTake(s[1..], n - 1);
      assert s[..n] == [s[0]] + s[1..][..n - 1];
    }
  }

  // ------------------------------------------------------------------ generation

  /** The value the suffix renders: the low 20 bits of three random bytes. */
  function SuffixValue(b0: Byte, b1: Byte, b2: Byte): (v: nat)
    ensures v < 0x10_0000
  {
    var hi: int, mid: int := b0, b1;
    (hi * 0x1_0000 + mid * 0x100 + b2) % 0x10_0000
  }

  /** The four five-bit groups of a 20-bit value, high to low. */
  function Render(v: nat): (s: string)
    requires v < 0x10_0000
    ensures |s| == 4
  {
    [ALPHABET[v / 0x8000 % 32], ALPHABET[v / 0x400 % 32], ALPHABET[v / 0x20 % 32], ALPHABET[v % 32]]
  }

  /** `generate_base32_suffix`, on the three random bytes. */
  method GenerateSuffix(b0: Byte, b1: Byte, b2: Byte) returns (out: string)
    ensures out == Render(SuffixValue(b0, b1, b2))
  {
    var value := SuffixValue(b0, b1, b2);
    var divisors := [0x8000, 0x400, 0x20, 1];
    out := "";
    var i := 0;
    while i < 4
      invariant 0 <= i <= 4
      invariant out == Render(value)[..i]
    {
      var idx := value / divisors[i] % 32;
      out := out + [ALPHABET[idx]];
      i := i + 1;
    }
  }

  /** The value of one base32 character. */
  function CharValue(c: char): (d: nat)
    requires IsBase32(c)
    ensures d < 32
  {
    if 'a' <= c <= 'z' then c as int - 'a' as int else c as int - '2' as int + 26
  }

  lemma AlphabetExact(d: nat, c: char)
    requires d < 32 && IsBase32(c)
    ensures IsBase32(ALPHABET[d]) && CharValue(ALPHABET[d]) == d
    ensures ALPHABET[CharValue(c)] == c
  {
    assert forall i | 0 <= i < 26 :: ALPHABET[i] == (i + 'a' as int) as char;
    assert forall i | 26 <= i < 32 :: ALPHABET[i] == (i - 26 + '2' as int) as char;
  }

  function Decode(s: string): nat
    requires |s| == 4 && forall c | c in s :: IsBase32(c)
  {
    assert s[0] in s && s[1] in s && s[2] in s && s[3] in s;
    CharValue(s[0]) * 0x8000 + CharValue(s[1]) * 0x400 + CharValue(s[2]) * 0x20 + CharValue(s[3])
  }

  lemma Groups(v: nat)
    requires v < 0x10_0000
    ensures v == v / 0x8000 % 32 * 0x8000 + v / 0x400 % 32 * 0x400 + v / 0x20 % 32 * 0x20 + v % 32
  {
    var v1 := v / 0x20;
    var v2 := v1 / 0x20;
    assert v / 0x400 == v2 && v / 0x8000 == v2 / 0x20;
  }

  lemma Ungroup(d0: nat, d1: nat, d2: nat, d3: nat)
    requires d0 < 32 && d1 < 32 && d2 < 32 && d3 < 32
    ensures var w := d0 * 0x8000 + d1 * 0x400 + d2 * 0x20 + d3;
            w < 0x10_0000 && w / 0x8000 % 32 == d0 && w / 0x400 % 32 == d1 && w / 0x20 % 32 == d2 && w % 32 == d3
  {
    var w := d0 * 0x8000 + d1 * 0x400 + d2 * 0x20 + d3;
    assert w / 0x20 == d0 * 0x400 + d1 * 0x20 + d2 && w % 32 == d3;
    assert w / 0x400 == d0 * 0x20 + d1 && w / 0x8000 == d0;
  }

  /** Rendering loses nothing: decoding the suffix gives the 20-bit value back. */
  lemma DecodeInverts(v: nat)
    requires v < 0x10_0000
    ensures (forall c | c in Render(v) :: IsBase32(c)) && Decode(Render(v)) == v
  {
    AlphabetExact(v / 0x8000 % 32, 'a');
    AlphabetExact(v / 0x400 % 32, 'a');
    AlphabetExact(v / 0x20 % 32, 'a');
    AlphabetExact(v % 32, 'a');
    Groups(v);
  }

  /** So the suffix decodes to the low 20 bits of the three bytes, the first byte highest. */
  lemma SuffixDecodes(b0: Byte, b1: Byte, b2: Byte)
    ensures var s := Render(SuffixValue(b0, b1, b2));
            && (forall c | c in s :: IsBase32(c))
            && Decode(s) == (b0 as int * 0x1_0000 + b1 as int * 0x100 + b2 as int) % 0x10_0000
  {
    DecodeInverts(SuffixValue(b0, b1, b2));
  }

  lemma RenderGroups(d0: nat, d1: nat, d2: nat, d3: nat)
    requires d0 < 32 && d1 < 32 && d2 < 32 && d3 < 32
    ensures var w := d0 * 0x8000 + d1 * 0x400 + d2 * 0x20 + d3;
            w < 0x10_0000 && Render(w) == [ALPHABET[d0], ALPHABET[d1], ALPHABET[d2], ALPHABET[d3]]
  {
    Ungroup(d0, d1, d2, d3);
  }

  /** And every four base32 characters are the suffix of some 20-bit value. */
  lemma EverySuffixIsRendered(s: string) returns (v: nat)
    requires |s| == 4 && forall c | c in s :: IsBase32(c)
    ensures v < 0x10_0000 && Render(v) == s
  {
    assert s[0] in s && s[1] in s && s[2] in s && s[3] in s;
    var d0, d1, d2, d3 := CharValue(s[0]), CharValue(s[1]), CharValue(s[2]), CharValue(s[3]);
    AlphabetExact(0, s[0]);
    AlphabetExact(0, s[1]);
    AlphabetExact(0, s[2]);
    AlphabetExact(0, s[3]);
    RenderGroups(d0, d1, d2, d3);
    v := d0 * 0x8000 + d1 * 0x400 + d2 * 0x20 + d3;
    assert s == [s[0], s[1], s[2], s[3]];
  }

  function Digits2(n: nat): string
    requires n < 100
  {
    [DigitChar(n / 10), DigitChar(n % 10)]
  }

  function DateOf(year: nat, month: nat, day: nat): string
    requires year <= 9999 && month <= 12 && day <= 31
  {
    Digits2(year / 100) + Digits2(year % 100) + Digits2(month) + Digits2(day)
  }

  function TimeOf(hour: nat, minute: nat, second: nat): string
    requires hour <= 23 && minute <= 59 && second <= 60
  {
    Digits2(hour) + Digits2(minute) + Digits2(second)
  }

  /** `SessionId::new` at the given UTC time (second 60 is a leap second). */
  function NewSessionId(year: nat, month: nat, day: nat, hour: nat, minute: nat, second: nat, suffix: string): string
    requires year <= 9999 && month <= 12 && day <= 31 && hour <= 23 && minute <= 59 && second <= 60
  {
    "pt-" + DateOf(year, month, day) + "-" + TimeOf(hour, minute, second) + "-" + suffix
  }

  lemma Assembled(date: string, time: string, suffix: string)
    requires |date| == 8 && AllDigits(date) && |time| == 6 && AllDigits(time)
    requires |suffix| == 4 && forall c | c in suffix :: IsBase32(c)
    ensures IsSessionId("pt-" + date + "-" + time + "-" + suffix)
  {
    var front := "pt-" + date + "-";
    var s := front + time + "-" + suffix;
    assert |front| == 12 && front[..3] == "pt-" && front[3..11] == date && front[11] == '-';
    assert s[..12] == front && s[..3] == front[..3] && s[3..11] == front[3..11] && s[11] == front[11];
    assert s[12..18] == time && s[18] == '-' && s[19..] == suffix;
  }

  lemma Digits2Value(n: nat)
    requires n < 100
    ensures AllDigits(Digits2(n)) && Value(Digits2(n)) == n
  {
    var s := Digits2(n);
    assert s[..1] == [s[0]] && s[..1][..0] == "";
    assert Value(s[..1]) == n / 10;
  }

  lemma {:induction false} ValueConcat(a: string, b: string)
    requires AllDigits(a) && AllDigits(b) && |b| == 2
    ensures AllDigits(a + b) && Value(a + b) == Value(a) * 100 + Value(b)
  {
    var s := a + b;
    assert s[..|s| - 1] == a + [b[0]] && (a + [b[0]])[..|a|] == a;
    assert b[..1] == [b[0]] && b[..1][..0] == "" && b[0] in b && b[1] in b;
    assert Value(a + [b[0]]) == Value(a) * 10 + (b[0] as int - '0' as int);
    assert Value(b[..1]) == b[0] as int - '0' as int;
  }

  /** The digits of an id are its year, month, day, hour, minute and second, in this order. */
  lemma DigitsOfId(year: nat, month: nat, day: nat, hour: nat, minute: nat, second: nat, suffix: string)
    requires year <= 9999 && month <= 12 && day <= 31 && hour <= 23 && minute <= 59 && second <= 60
    ensures var s := NewSessionId(year, month, day, hour, minute, second, suffix);
            && |s| == 19 + |suffix| && AllDigits(s[3..7]) && AllDigits(s[7..9]) && AllDigits(s[9..11])
            && AllDigits(s[12..14]) && AllDigits(s[14..16]) && AllDigits(s[16..18])
            && Value(s[3..7]) == year && Value(s[7..9]) == month && Value(s[9..11]) == day
            && Value(s[12..14]) == hour && Value(s[14..16]) == minute && Value(s[16..18]) == second
            && s[19..] == suffix
  {
    Digits2Value(year / 100); Digits2Value(year % 100); Digits2Value(month); Digits2Value(day);
    Digits2Value(hour); Digits2Value(minute); Digits2Value(second);
    ValueConcat(Digits2(year / 100), Digits2(year % 100));
    var s := NewSessionId(year, month, day, hour, minute, second, suffix);
    var date, time := DateOf(year, month, day), TimeOf(hour, minute, second);
    FieldsAt(date, time, suffix);
    assert date[..4] == Digits2(year / 100) + Digits2(year % 100);
    assert date[4..6] == Digits2(month) && date[6..8] == Digits2(day);
    assert time[..2] == Digits2(hour) && time[2..4] == Digits2(minute) && time[4..6] == Digits2(second);
  }

  lemma FieldsAt(date: string, time: string, suffix: string)
    requires |date| == 8 && |time| == 6
    ensures var s := "pt-" + date + "-" + time + "-" + suffix;
            && |s| == 19 + |suffix| && s[3..7] == date[..4] && s[7..9] == date[4..6] && s[9..11] == date[6..8]
            && s[12..14] == time[..2] && s[14..16] == time[2..4] && s[16..18] == time[4..6] && s[19..] == suffix
  {
    var front := "pt-" + date + "-";
    var s := front + time + "-" + suffix;
    assert |front| == 12 && front[3..11] == date;
    assert s[..12] == front && s[12..18] == time && s[19..] == suffix;
    assert s[3..11] == front[3..11];
    assert s[3..7] == s[3..11][..4] && s[7..9] == s[3..11][4..6] && s[9..11] == s[3..11][6..8];
    assert s[12..14] == s[12..18][..2] && s[14..16] == s[12..18][2..4] && s[16..18] == s[12..18][4..6];
  }

  /** Every generated id is accepted. */
  lemma GeneratedIsAccepted(year: nat, month: nat, day: nat, hour: nat, minute: nat, second: nat, v: nat)
    requires year <= 9999 && month <= 12 && day <= 31 && hour <= 23 && minute <= 59 && second <= 60 && v < 0x10_0000
    ensures var s := NewSessionId(year, month, day, hour, minute, second, Render(v));
            ParseSessionId(s) == Accepted(s)
  {
    var s := NewSessionId(year, month, day, hour, minute, second, Render(v));
    DecodeInverts(v);
    Assembled(DateOf(year, month, day), TimeOf(hour, minute, second), Render(v));
    AcceptsExactly(s);
  }
}
