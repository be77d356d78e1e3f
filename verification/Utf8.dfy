/** UTF-8 (section 4 of RFC 3629) and byte-offset slicing of strings. */
module Utf8 {
  import opened Wrappers
  import opened Strings

  type Byte = b: int | 0 <= b < 256
  type Bytes = seq<Byte>

  function EncodeChar(c: char): (r: Bytes)
    ensures 1 <= |r| <= 4
    ensures |r| == 1 <==> c as int < 0x80
    ensures r[0] < 0x80 <==> c as int < 0x80
    ensures c as int < 0x80 ==> r == [c as int]
    ensures r[0] < 0x80 || 0xC0 <= r[0]
    ensures forall i | 1 <= i < |r| :: 0x80 <= r[i] < 0xC0
  {
    var v := c as int;
    if v < 0x80 then [v]
    else if v < 0x800 then [0xC0 + v / 0x40, 0x80 + v % 0x40]
    else if v < 0x1_0000 then [0xE0 + v / 0x1000, 0x80 + v / 0x40 % 0x40, 0x80 + v % 0x40]
    else [0xF0 + v / 0x4_0000, 0x80 + v / 0x1000 % 0x40, 0x80 + v / 0x40 % 0x40, 0x80 + v % 0x40]
  }

  function Bits(b: Byte, marker: int): int { b as int - marker }

  /** The table of section 3 of RFC 3629: the bits of the character, six to each following
      byte, and the length in the first byte. */
  lemma EncodingExactly(c: char)
    ensures var r, v := EncodeChar(c), c as int;
            match |r|
            case 1 => v == r[0] && v < 0x80
            case 2 => v == Bits(r[0], 0xC0) * 0x40 + Bits(r[1], 0x80) && 0x80 <= v < 0x800
            case 3 => && v == Bits(r[0], 0xE0) * 0x1000 + Bits(r[1], 0x80) * 0x40 + Bits(r[2], 0x80)
                      && 0x800 <= v < 0x1_0000
            case _ => && v == Bits(r[0], 0xF0) * 0x4_0000 + Bits(r[1], 0x80) * 0x1000
                           + Bits(r[2], 0x80) * 0x40 + Bits(r[3], 0x80)
                      && 0x1_0000 <= v
  {
    var v := c as int;
    assert v / 0x1000 == v / 0x40 / 0x40 && v / 0x4_0000 == v / 0x1000 / 0x40;
  }

  /** Encoding goes character by character. */
  lemma EncodeExactly(c: char, s: string)
    ensures Encode("") == [] && Encode([c] + s) == EncodeChar(c) + Encode(s)
  {
    assert ([c] + s)[1..] == s;
  }

  function Encode(s: string): Bytes {
    if |s| == 0 then [] else EncodeChar(s[0]) + Encode(s[1..])
  }

  /** `str::len`: the length in bytes. */
  function ByteLen(s: string): nat { |Encode(s)| }

  lemma {:induction false} EncodeConcat(a: string, b: string)
    ensures Encode(a + b) == Encode(a) + Encode(b)
  {
    if |a| == 0 {
      assert a + b == b;
    } else {
      assert (a + b)[1..] == a[1..] + b;
      EncodeConcat(a[1..], b);
    }
  }

  /** `str::is_char_boundary`: a byte test, without decoding. */
  predicate IsBoundary(bytes: Bytes, i: nat) {
    i == |bytes| || (i < |bytes| && !(0x80 <= bytes[i] < 0xC0))
  }

  /** The text from byte offset n on; None when n falls inside a character or past the end. */
  function DropBytes(s: string, n: nat): Option<string> {
    if n == 0 then Some(s)
    else if |s| == 0 || n < |EncodeChar(s[0])| then None
    else DropBytes(s[1..], n - |EncodeChar(s[0])|)
  }

  /** The text before byte offset n; None when n falls inside a character or past the end. */
  function TakeBytes(s: string, n: nat): Option<string> {
    if n == 0 then Some("")
    else if |s| == 0 || n < |EncodeChar(s[0])| then None
    else match TakeBytes(s[1..], n - |EncodeChar(s[0])|)
         case None => None
         case Some(t) => Some([s[0]] + t)
  }

  /** `&s[from..to]`; None is the panic on an offset that is not a boundary. */
  function Slice(s: string, from: nat, to: nat): Option<string> {
    if from > to then None
    else match DropBytes(s, from)
         case None => None
         case Some(t) => TakeBytes(t, to - from)
  }

  /** Boundaries of a text are those of its tail, shifted, and its start. */
  lemma BoundaryStep(s: string, n: nat)
    requires |s| > 0
    ensures var k := |EncodeChar(s[0])|;
            IsBoundary(Encode(s), n) <==> n == 0 || (n >= k && IsBoundary(Encode(s[1..]), n - k))
  {
    BoundaryOfConcat(EncodeChar(s[0]), Encode(s[1..]), n);
  }

  lemma BoundaryOfConcat(e: Bytes, rest: Bytes, n: nat)
    requires |e| >= 1 && !(0x80 <= e[0] < 0xC0) && forall i | 1 <= i < |e| :: 0x80 <= e[i] < 0xC0
    ensures IsBoundary(e + rest, n) <==> n == 0 || (n >= |e| && IsBoundary(rest, n - |e|))
  {
    var bytes := e + rest;
    if n < |e| {
      assert bytes[n] == e[n];
    } else if n < |bytes| {
      assert bytes[n] == rest[n - |e|];
    }
  }

  /** Cutting at n succeeds exactly on the offsets the byte test calls boundaries. */
  lemma {:induction false} CutExists(s: string, n: nat)
    ensures DropBytes(s, n).Some? <==> IsBoundary(Encode(s), n)
    ensures TakeBytes(s, n).Some? <==> IsBoundary(Encode(s), n)
  {
    if |s| > 0 {
      BoundaryStep(s, n);
      if n > 0 && n >= |EncodeChar(s[0])| { CutExists(s[1..], n - |EncodeChar(s[0])|); }
    }
  }

  /** A successful cut splits the text, and its first part has as many bytes as asked. */
  lemma {:induction false} CutText(s: string, n: nat)
    requires IsBoundary(Encode(s), n)
    ensures DropBytes(s, n).Some? && TakeBytes(s, n).Some?
    ensures s == TakeBytes(s, n).value + DropBytes(s, n).value
    ensures |Encode(TakeBytes(s, n).value)| == n
  {
    CutExists(s, n);
    if n > 0 {
      var k := |EncodeChar(s[0])|;
      BoundaryStep(s, n);
      CutText(s[1..], n - k);
      var t := TakeBytes(s[1..], n - k).value;
      assert TakeBytes(s, n).value == [s[0]] + t;
      assert ([s[0]] + t)[1..] == t;
    }
  }

  /** And the bytes are cut at the same place. */
  lemma Cut(s: string, n: nat)
    requires IsBoundary(Encode(s), n)
    ensures DropBytes(s, n).Some? && TakeBytes(s, n).Some?
    ensures s == TakeBytes(s, n).value + DropBytes(s, n).value
    ensures Encode(TakeBytes(s, n).value) == Encode(s)[..n]
    ensures Encode(DropBytes(s, n).value) == Encode(s)[n..]
  {
    CutText(s, n);
    EncodeConcat(TakeBytes(s, n).value, DropBytes(s, n).value);
  }

  /** In UTF-8 the offset after an ASCII byte is a boundary. */
  lemma {:induction false} AfterAscii(s: string, i: nat)
    requires i < |Encode(s)| && Encode(s)[i] < 0x80
    ensures IsBoundary(Encode(s), i) && IsBoundary(Encode(s), i + 1)
  {
    var k := |EncodeChar(s[0])|;
    assert Encode(s)[k..] == Encode(s[1..]);
    if i >= k {
      assert Encode(s)[i] == Encode(s[1..])[i - k];
      AfterAscii(s[1..], i - k);
    } else {
      assert Encode(s)[i] == EncodeChar(s[0])[i];
      if |s| > 1 { assert Encode(s[1..])[0] == EncodeChar(s[1])[0]; }
    }
  }

  /** Text of ASCII characters has one byte per character, and only such text has ASCII bytes. */
  lemma {:induction false} Ascii(s: string)
    ensures (forall i | 0 <= i < |s| :: s[i] as int < 0x80)
       <==> (forall i | 0 <= i < |Encode(s)| :: Encode(s)[i] < 0x80)
    ensures (forall i | 0 <= i < |s| :: s[i] as int < 0x80) ==>
              |Encode(s)| == |s| && forall i | 0 <= i < |s| :: Encode(s)[i] == s[i] as int
  {
    if |s| > 0 {
      Ascii(s[1..]);
      var k := |EncodeChar(s[0])|;
      assert Encode(s)[0] == EncodeChar(s[0])[0];
      assert Encode(s)[k..] == Encode(s[1..]);
      if forall i | 0 <= i < |s| :: s[i] as int < 0x80 {
        forall i | 0 <= i < |s[1..]| ensures s[1..][i] as int < 0x80 { assert s[1..][i] == s[i + 1]; }
        forall i | 0 <= i < |s| ensures Encode(s)[i] == s[i] as int {
          if i > 0 { assert Encode(s)[i] == Encode(s[1..])[i - 1]; }
        }
      }
      if forall i | 0 <= i < |Encode(s)| :: Encode(s)[i] < 0x80 {
        forall i | 0 <= i < |Encode(s[1..])| ensures Encode(s[1..])[i] < 0x80 {
          assert Encode(s[1..])[i] == Encode(s)[i + k];
        }
        forall i | 0 <= i < |s| ensures s[i] as int < 0x80 {
          if i > 0 { assert s[i] == s[1..][i - 1]; }
        }
      }
    }
  }

  // ---------------------------------------------------------------- ordering

  /** Lexicographic order on bytes, the order of `str::cmp`. */
  predicate BytesLe(a: Bytes, b: Bytes) {
    |a| == 0 || (|b| > 0 && (a[0] < b[0] || (a[0] == b[0] && BytesLe(a[1..], b[1..]))))
  }

  lemma {:induction false} CommonPrefix(p: Bytes, a: Bytes, b: Bytes)
    ensures BytesLe(p + a, p + b) <==> BytesLe(a, b)
  {
    if |p| == 0 {
      assert p + a == a && p + b == b;
    } else {
      assert (p + a)[0] == p[0] == (p + b)[0];
      assert (p + a)[1..] == p[1..] + a && (p + b)[1..] == p[1..] + b;
      CommonPrefix(p[1..], a, b);
    }
  }

  /** Six bits at a time: a smaller number has a smaller front, or the same front and a
      smaller last group. */
  lemma SixBits(v: nat, w: nat)
    requires v < w
    ensures v / 0x40 < w / 0x40 || (v / 0x40 == w / 0x40 && v % 0x40 < w % 0x40)
    ensures v / 0x40 / 0x40 == v / 0x1000 && v / 0x1000 / 0x40 == v / 0x4_0000
  {}

  lemma FrontsOf(v: nat, w: nat)
    requires v < w
    ensures var v1, w1, v2, w2, v3, w3 := v / 0x40, w / 0x40, v / 0x1000, w / 0x1000, v / 0x4_0000, w / 0x4_0000;
            || v3 < w3
            || (v3 == w3 && v2 % 0x40 < w2 % 0x40)
            || (v3 == w3 && v2 == w2 && v1 % 0x40 < w1 % 0x40)
            || (v3 == w3 && v2 == w2 && v1 == w1 && v % 0x40 < w % 0x40)
  {
    SixBits(v, w);
    if v / 0x40 < w / 0x40 {
      SixBits(v / 0x40, w / 0x40);
      SixBits(w, w + 1);
      if v / 0x1000 < w / 0x1000 { SixBits(v / 0x1000, w / 0x1000); }
    }
  }

  lemma LeadByte(v: nat, w: nat)
    requires v < w
    ensures v < 0x800 ==> v / 0x40 < 0x20
    ensures v < 0x1_0000 ==> v / 0x1000 < 0x10
    ensures w >= 0x80 ==> w / 0x40 >= 2
    ensures v / 0x1000 == 0 == w / 0x1000 ==> v / 0x4_0000 == 0 == w / 0x4_0000
  {}

  /** Where two encodings first differ, the smaller character has the smaller byte. */
  lemma SmallerByte(c: char, d: char) returns (k: nat)
    requires c < d
    ensures k < |EncodeChar(c)| && k < |EncodeChar(d)|
    ensures EncodeChar(c)[..k] == EncodeChar(d)[..k] && EncodeChar(c)[k] < EncodeChar(d)[k]
  {
    var v, w := c as int, d as int;
    LeadByte(v, w);
    if |EncodeChar(c)| != |EncodeChar(d)| || w < 0x80 {
      k := 0;
    } else {
      k := SameLength(c, d);
    }
  }

  lemma SameLength(c: char, d: char) returns (k: nat)
    requires c < d && |EncodeChar(c)| == |EncodeChar(d)| > 1
    ensures k < |EncodeChar(c)|
    ensures EncodeChar(c)[..k] == EncodeChar(d)[..k] && EncodeChar(c)[k] < EncodeChar(d)[k]
  {
    if |EncodeChar(c)| == 2 {
      k := TwoBytes(c, d);
    } else if |EncodeChar(c)| == 3 {
      k := ThreeBytes(c, d);
    } else {
      k := FourBytes(c, d);
    }
  }

  lemma TwoBytes(c: char, d: char) returns (k: nat)
    requires c < d && |EncodeChar(c)| == |EncodeChar(d)| == 2
    ensures k < 2 && EncodeChar(c)[..k] == EncodeChar(d)[..k] && EncodeChar(c)[k] < EncodeChar(d)[k]
  {
    var e, f := EncodeChar(c), EncodeChar(d);
    SixBits(c as int, d as int);
    k := if e[0] < f[0] then 0 else 1;
  }

  lemma ThreeBytes(c: char, d: char) returns (k: nat)
    requires c < d && |EncodeChar(c)| == |EncodeChar(d)| == 3
    ensures k < 3 && EncodeChar(c)[..k] == EncodeChar(d)[..k] && EncodeChar(c)[k] < EncodeChar(d)[k]
  {
    var e, f := EncodeChar(c), EncodeChar(d);
    FrontsOf(c as int, d as int);
    LeadThree(c as int, d as int);
    k := if e[0] < f[0] then 0 else if e[1] < f[1] then 1 else 2;
  }

  lemma FourBytes(c: char, d: char) returns (k: nat)
    requires c < d && |EncodeChar(c)| == |EncodeChar(d)| == 4
    ensures k < 4 && EncodeChar(c)[..k] == EncodeChar(d)[..k] && EncodeChar(c)[k] < EncodeChar(d)[k]
  {
    var e, f := EncodeChar(c), EncodeChar(d);
    FrontsOf(c as int, d as int);
    k := if e[0] < f[0] then 0 else if e[1] < f[1] then 1 else if e[2] < f[2] then 2 else 3;
  }

  lemma LeadThree(v: nat, w: nat)
    requires v < w < 0x1_0000
    ensures v / 0x4_0000 == 0 == w / 0x4_0000
    ensures v / 0x1000 % 0x40 == v / 0x1000 && w / 0x1000 % 0x40 == w / 0x1000
  {}

  lemma Decided(e: Bytes, f: Bytes, a: Bytes, b: Bytes, k: nat)
    requires k < |e| && k < |f| && e[..k] == f[..k] && e[k] < f[k]
    ensures BytesLe(e + a, f + b) && !BytesLe(f + b, e + a)
  {
    var p := e[..k];
    assert e + a == p + (e[k..] + a) && f + b == p + (f[k..] + b);
    CommonPrefix(p, e[k..] + a, f[k..] + b);
    CommonPrefix(p, f[k..] + b, e[k..] + a);
  }

  /** Byte order on UTF-8 is the order of the texts by scalar value. */
  lemma {:induction false} ByteOrderIsTextOrder(a: string, b: string)
    ensures BytesLe(Encode(a), Encode(b)) <==> LexLe(a, b)
  {
    if |a| > 0 && |b| > 0 {
      var e, f := EncodeChar(a[0]), EncodeChar(b[0]);
      if a[0] < b[0] {
        var k := SmallerByte(a[0], b[0]);
        Decided(e, f, Encode(a[1..]), Encode(b[1..]), k);
      } else if b[0] < a[0] {
        var k := SmallerByte(b[0], a[0]);
        Decided(f, e, Encode(b[1..]), Encode(a[1..]), k);
      } else {
        CommonPrefix(e, Encode(a[1..]), Encode(b[1..]));
        ByteOrderIsTextOrder(a[1..], b[1..]);
      }
    }
  }
}
