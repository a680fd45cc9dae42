/** Unicode strings in their two encodings, and the key order of section 3.2.3 of RFC 8785: the
    UTF-16 code unit order, with a byte order fast path. */
module Unicode {
  import opened Basics
  import opened Sorting

  /** A Unicode scalar value: any code point but the surrogates. */
  type Rune = r: int | 0 <= r < 0xD800 || 0xE000 <= r < 0x110000

  /** A string as its runes; in memory it is the UTF-8 bytes of them. */
  type Text = seq<Rune>

  function EncodeRune(r: Rune): (b: Bytes)
    ensures 1 <= |b| <= 4
  {
    if r < 0x80 then [r]
    else if r < 0x800 then [0xC0 + r / 0x40, 0x80 + r % 0x40]
    else if r < 0x10000 then [0xE0 + r / 0x1000, 0x80 + r / 0x40 % 0x40, 0x80 + r % 0x40]
    else [0xF0 + r / 0x40000, 0x80 + r / 0x1000 % 0x40, 0x80 + r / 0x40 % 0x40, 0x80 + r % 0x40]
  }

  function Utf8(s: Text): Bytes {
    if s == [] then [] else EncodeRune(s[0]) + Utf8(s[1..])
  }

  /** One unit in the Basic Multilingual Plane, a surrogate pair above it. */
  function Units(r: Rune): (u: seq<int>)
    ensures 1 <= |u| <= 2
  {
    if r < 0x10000 then [r]
    else [0xD800 + (r - 0x10000) / 0x400, 0xDC00 + (r - 0x10000) % 0x400]
  }

  function Utf16(s: Text): seq<int> {
    if s == [] then [] else Units(s[0]) + Utf16(s[1..])
  }

  /** The table of section 3 of RFC 3629: the length by range, the lead byte by length, and the code
      point read back from the bits. */
  lemma RuneForm(r: Rune)
    ensures var b: seq<int> := EncodeRune(r);
            && |b| == (if r <= 0x7F then 1 else if r <= 0x7FF then 2 else if r <= 0xFFFF then 3 else 4)
            && (forall i :: 0 < i < |b| ==> 0x80 <= b[i] <= 0xBF)
            && (|b| == 1 ==> r == b[0])
            && (|b| == 2 ==> 0xC0 <= b[0] <= 0xDF && r == (b[0] - 0xC0) * 64 + (b[1] - 0x80))
            && (|b| == 3 ==> 0xE0 <= b[0] <= 0xEF && r == (b[0] - 0xE0) * 4096 + (b[1] - 0x80) * 64 + (b[2] - 0x80))
            && (|b| == 4 ==> && 0xF0 <= b[0] <= 0xF4
                             && r == (b[0] - 0xF0) * 262144 + (b[1] - 0x80) * 4096 + (b[2] - 0x80) * 64 + (b[3] - 0x80))
  {
    Sextets(r);
  }

  /** A number by its base-64 digits. */
  lemma Sextets(n: nat)
    ensures n == n / 0x40 * 64 + n % 0x40
    ensures n / 0x40 == n / 0x1000 * 64 + n / 0x40 % 0x40
    ensures n / 0x1000 == n / 0x40000 * 64 + n / 0x1000 % 0x40
  {
    assert n / 0x40 / 0x40 == n / 0x1000;
    assert n / 0x1000 / 0x40 == n / 0x40000;
  }

  /** UTF-16: one unit, or a high and a low surrogate from which the code point reads back. */
  lemma UnitsForm(r: Rune)
    ensures var u := Units(r);
            && (|u| == 1 <==> r <= 0xFFFF) && (|u| == 1 ==> u[0] == r)
            && (|u| == 2 ==> && 0xD800 <= u[0] <= 0xDBFF && 0xDC00 <= u[1] <= 0xDFFF
                             && r == 0x10000 + (u[0] - 0xD800) * 1024 + (u[1] - 0xDC00))
  {
  }

  predicate Supplementary(s: Text) {
    exists i :: 0 <= i < |s| && s[i] >= 0x10000
  }

  // ---------------------------------------------------------------- order of encodings

  /** x is smaller than y at a position both have, so whatever follows does not matter. */
  predicate Below(x: seq<int>, y: seq<int>) {
    x != [] && y != [] && (x[0] < y[0] || (x[0] == y[0] && Below(x[1..], y[1..])))
  }

  lemma {:induction false} BelowDecides(x: seq<int>, u: seq<int>, y: seq<int>, v: seq<int>)
    requires Below(x, y)
    ensures LexLess(x + u, y + v)
  {
    if x[0] == y[0] {
      BelowDecides(x[1..], u, y[1..], v);
      assert (x + u)[1..] == x[1..] + u && (y + v)[1..] == y[1..] + v;
    }
  }

  lemma {:induction false} SharedPrefix(x: seq<int>, u: seq<int>, v: seq<int>)
    ensures LexLess(x + u, x + v) == LexLess(u, v)
  {
    if x == [] {
      assert x + u == u && x + v == v;
    } else {
      SharedPrefix(x[1..], u, v);
      assert (x + u)[1..] == x[1..] + u && (x + v)[1..] == x[1..] + v;
    }
  }

  /** Shifting the last byte into the rest: r is q with six more bits. */
  lemma Digits64(p: nat, q: nat)
    requires p < q
    ensures p / 0x40 < q / 0x40 || (p / 0x40 == q / 0x40 && p % 0x40 < q % 0x40)
  {
  }

  /** Lead bytes fall in disjoint, increasing ranges by length. */
  lemma LeadByte(r: Rune)
    ensures var b := EncodeRune(r);
            && (r < 0x80 <==> b[0] < 0x80)
            && (r < 0x800 <==> b[0] < 0xE0)
            && (r < 0x10000 <==> b[0] < 0xF0)
  {
  }

  lemma TwoBelow(p: Rune, q: Rune)
    requires 0x80 <= p < q < 0x800
    ensures Below(EncodeRune(p), EncodeRune(q))
  {
    Digits64(p, q);
    var x, y := EncodeRune(p), EncodeRune(q);
    assert x[1..] == [0x80 + p % 0x40] && y[1..] == [0x80 + q % 0x40];
  }

  lemma ThreeBelow(p: Rune, q: Rune)
    requires 0x800 <= p < q < 0x10000
    ensures Below(EncodeRune(p), EncodeRune(q))
  {
    TailsBelow(p, q);
    var x, y := EncodeRune(p), EncodeRune(q);
    assert x[1..] == Tail(p) && y[1..] == Tail(q);
  }

  lemma FourBelow(p: Rune, q: Rune)
    requires 0x10000 <= p < q
    ensures Below(EncodeRune(p), EncodeRune(q))
  {
    hide Tail;
    TailsBelow(p, q);
    var x, y := EncodeRune(p), EncodeRune(q);
    assert x[1..] == [0x80 + p / 0x1000 % 0x40] + Tail(p) by { hide *; FourTail(p); }
    assert y[1..] == [0x80 + q / 0x1000 % 0x40] + Tail(q) by { hide *; FourTail(q); }
    assert x[1..][1..] == Tail(p) && y[1..][1..] == Tail(q);
    if p / 0x1000 < q / 0x1000 {
      Digits64(p / 0x1000, q / 0x1000);
    }
    assert p / 0x1000 / 0x40 == p / 0x40000 && q / 0x1000 / 0x40 == q / 0x40000;
  }

  /** The last two continuation bytes. */
  function Tail(r: Rune): Bytes {
    [0x80 + r / 0x40 % 0x40, 0x80 + r % 0x40]
  }

  lemma FourTail(r: Rune)
    requires r >= 0x10000
    ensures EncodeRune(r)[1..] == [0x80 + r / 0x1000 % 0x40] + Tail(r)
  {
  }

  lemma TailsBelow(p: Rune, q: Rune)
    requires p < q
    ensures p / 0x1000 < q / 0x1000 || (p / 0x1000 == q / 0x1000 && Below(Tail(p), Tail(q)))
  {
    Digits64(p, q);
    if p / 0x40 < q / 0x40 {
      Digits64(p / 0x40, q / 0x40);
    }
    assert p / 0x40 / 0x40 == p / 0x1000 && q / 0x40 / 0x40 == q / 0x1000;
    assert Tail(p)[1..] == [0x80 + p % 0x40] && Tail(q)[1..] == [0x80 + q % 0x40];
  }

  lemma RunesBelow(p: Rune, q: Rune)
    requires p < q
    ensures Below(EncodeRune(p), EncodeRune(q))
  {
    if 0x80 <= p && q < 0x800 {
      TwoBelow(p, q);
    } else if 0x800 <= p && q < 0x10000 {
      ThreeBelow(p, q);
    } else if 0x10000 <= p {
      FourBelow(p, q);
    } else if q >= 0x80 {
      hide EncodeRune;
      LeadByte(p);
      LeadByte(q);
    }
  }

  lemma UnitsApart(p: Rune, q: Rune)
    requires p != q
    ensures Below(Units(p), Units(q)) || Below(Units(q), Units(p))
  {
  }

  /** UTF-8 keeps the code point order. */
  lemma {:induction false} Utf8Order(a: Text, b: Text)
    ensures LexLess(Utf8(a), Utf8(b)) == LexLess(a, b)
  {
    hide EncodeRune;
    if a != [] && b != [] {
      var u, v := Utf8(a[1..]), Utf8(b[1..]);
      if a[0] == b[0] {
        Utf8Order(a[1..], b[1..]);
        SharedPrefix(EncodeRune(a[0]), u, v);
      } else if a[0] < b[0] {
        RunesBelow(a[0], b[0]);
        BelowDecides(EncodeRune(a[0]), u, EncodeRune(b[0]), v);
      } else {
        RunesBelow(b[0], a[0]);
        BelowDecides(EncodeRune(b[0]), v, EncodeRune(a[0]), u);
        LexAsymmetric(Utf8(b), Utf8(a));
      }
    }
  }

  /** Different strings have different bytes. */
  lemma Utf8Injective(a: Text, b: Text)
    requires Utf8(a) == Utf8(b)
    ensures a == b
  {
    hide Utf8;
    LexTotal(a, b);
    Utf8Order(a, b);
    Utf8Order(b, a);
    if LexLess(Utf8(a), Utf8(b)) {
      LexAsymmetric(Utf8(a), Utf8(b));
    }
  }

  lemma {:induction false} Utf8Append(a: Text, b: Text)
    ensures Utf8(a + b) == Utf8(a) + Utf8(b)
  {
    hide EncodeRune;
    if a == [] {
      assert a + b == b;
    } else {
      Utf8Append(a[1..], b);
      assert (a + b)[1..] == a[1..] + b;
      Regroup(EncodeRune(a[0]), Utf8(a[1..]), Utf8(b));
    }
  }

  lemma {:induction false} Utf8Ascii(s: Text)
    requires forall i :: 0 <= i < |s| ==> s[i] < 0x80
    ensures Utf8(s) == s
  {
    if s != [] {
      Utf8Ascii(s[1..]);
      assert s == [s[0]] + s[1..];
    }
  }

  /** Different strings have different code units, so the key order is strict and total. */
  lemma {:induction false} Utf16Injective(a: Text, b: Text)
    ensures Utf16(a) == Utf16(b) ==> a == b
  {
    hide Units;
    if a != [] && b != [] {
      var u, v := Utf16(a[1..]), Utf16(b[1..]);
      if a[0] == b[0] {
        var x := Units(a[0]);
        Utf16Injective(a[1..], b[1..]);
        assert (x + u)[|x|..] == u && (x + v)[|x|..] == v;
        assert a == [a[0]] + a[1..] && b == [b[0]] + b[1..];
      } else {
        UnitsApart(a[0], b[0]);
        if Below(Units(a[0]), Units(b[0])) {
          BelowDecides(Units(a[0]), u, Units(b[0]), v);
          LexAsymmetric(Utf16(a), Utf16(b));
        } else {
          BelowDecides(Units(b[0]), v, Units(a[0]), u);
          LexAsymmetric(Utf16(b), Utf16(a));
        }
      }
    }
  }

  lemma KeyIsInjective()
    ensures Injective(Utf16)
  {
    forall a: Text, b: Text | Utf16(a) == Utf16(b)
      ensures a == b
    {
      Utf16Injective(a, b);
    }
  }

  lemma {:induction false} PlaneZeroUnits(s: Text)
    requires !Supplementary(s)
    ensures Utf16(s) == s
  {
    if s != [] {
      assert forall i :: 0 <= i < |s[1..]| ==> s[1..][i] == s[i + 1];
      PlaneZeroUnits(s[1..]);
      assert s == [s[0]] + s[1..];
    }
  }

  /** The fast path: without supplementary characters, byte order is UTF-16 order. */
  lemma ByteOrderIsKeyOrder(a: Text, b: Text)
    requires !Supplementary(a) && !Supplementary(b)
    ensures LexLess(Utf8(a), Utf8(b)) == LexLess(Utf16(a), Utf16(b))
  {
    Utf8Order(a, b);
    PlaneZeroUnits(a);
    PlaneZeroUnits(b);
  }

  /** The fast path must not be taken further: U+FF61 precedes U+10002 in bytes and follows it in
      code units. */
  lemma OrdersDiverge()
    ensures LexLess(Utf8([0xFF61]), Utf8([0x10002]))
    ensures LexLess(Utf16([0x10002]), Utf16([0xFF61]))
  {
    Utf8Order([0xFF61], [0x10002]);
    assert Utf16([0x10002]) == [0xD800, 0xDC02];
    assert Utf16([0xFF61]) == [0xFF61];
  }

  // ---------------------------------------------------------------- the source's loops

  method HasSupplementary(s: Text) returns (r: bool)
    ensures r == Supplementary(s)
  {
    for i := 0 to |s|
      invariant forall k :: 0 <= k < i ==> s[k] < 0x10000
    {
      if s[i] >= 0x10000 {
        return true;
      }
    }
    return false;
  }

  lemma {:induction false} DecidedAt(a: seq<int>, b: seq<int>, i: nat)
    requires i <= |a| && i <= |b| && a[..i] == b[..i]
    ensures LexLess(a, b) == LexLess(a[i..], b[i..])
  {
    assert a == a[..i] + a[i..] && b == b[..i] + b[i..];
    SharedPrefix(a[..i], a[i..], b[i..]);
  }

  /** jcsKeyLess is the UTF-16 code unit order on every pair of strings. */
  method KeyLess(a: Text, b: Text) returns (r: bool)
    ensures r == LexLess(Utf16(a), Utf16(b))
  {
    hide Utf8, Utf16, Supplementary;
    var sa := HasSupplementary(a);
    var sb := HasSupplementary(b);
    if !sa && !sb {
      ByteOrderIsKeyOrder(a, b);
      return LexLess(Utf8(a), Utf8(b));
    }
    var ua, ub := Utf16(a), Utf16(b);
    var i := 0;
    while i < |ua| && i < |ub|
      invariant i <= |ua| && i <= |ub| && ua[..i] == ub[..i]
    {
      if ua[i] != ub[i] {
        DecidedAt(ua, ub, i);
        return ua[i] < ub[i];
      }
      i := i + 1;
    }
    DecidedAt(ua, ub, i);
    return |ua| < |ub|;
  }
}
