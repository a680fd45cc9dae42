/** The leaves of the canonical JSON text: strings (section 3.2.2.2 of RFC 8785) and numbers
    (section 3.2.2.3), each against a reader that follows the JSON grammar of RFC 8259. */
module JcsText {
  import opened Basics
  import opened Unicode

  const QUOTE: Rune := 0x22
  const BACKSLASH: Rune := 0x5C
  const PLUS: Rune := 0x2B
  const MINUS: Rune := 0x2D
  const POINT: Rune := 0x2E
  const LOWER_E: Rune := 0x65

  // ---------------------------------------------------------------- strings

  function Hex(d: int): Rune
    requires 0 <= d < 16
  {
    if d < 10 then 0x30 + d else 0x61 + d - 10
  }

  function Escape(r: Rune): (e: Text)
    ensures e != []
  {
    if r == QUOTE then [BACKSLASH, QUOTE]
    else if r == BACKSLASH then [BACKSLASH, BACKSLASH]
    else if r == 0x08 then [BACKSLASH, 0x62]
    else if r == 0x0C then [BACKSLASH, 0x66]
    else if r == 0x0A then [BACKSLASH, 0x6E]
    else if r == 0x0D then [BACKSLASH, 0x72]
    else if r == 0x09 then [BACKSLASH, 0x74]
    else if r < 0x20 then [BACKSLASH, 0x75, 0x30, 0x30, Hex(r / 16), Hex(r % 16)]
    else [r]
  }

  function Escapes(s: Text): Text {
    if s == [] then [] else Escape(s[0]) + Escapes(s[1..])
  }

  function Quoted(s: Text): Text {
    [QUOTE] + Escapes(s) + [QUOTE]
  }

  function HexValue(r: Rune): (v: Option<int>)
    ensures v.Some? ==> 0 <= v.value < 16
  {
    if 0x30 <= r <= 0x39 then Some(r - 0x30)
    else if 0x61 <= r <= 0x66 then Some(r - 0x61 + 10)
    else if 0x41 <= r <= 0x46 then Some(r - 0x41 + 10)
    else None
  }

  function ReadHex(t: Text): (r: Option<int>)
    requires |t| == 4
    ensures r.Some? ==> 0 <= r.value < 0x10000
  {
    hide HexValue;
    var a, b, c, d := HexValue(t[0]), HexValue(t[1]), HexValue(t[2]), HexValue(t[3]);
    if a.None? || b.None? || c.None? || d.None? then None
    else Some(a.value * 0x1000 + b.value * 0x100 + c.value * 0x10 + d.value)
  }

  function ReadShortEscape(r: Rune): Option<Rune> {
    if r == QUOTE || r == BACKSLASH || r == 0x2F then Some(r)
    else if r == 0x62 then Some(0x08)
    else if r == 0x66 then Some(0x0C)
    else if r == 0x6E then Some(0x0A)
    else if r == 0x72 then Some(0x0D)
    else if r == 0x74 then Some(0x09)
    else None
  }

  /** One character of a JSON string, escaped or raw (section 7 of RFC 8259; escaped surrogates
      are not read). */
  function ReadChar(t: Text): (r: Option<(Rune, Text)>)
    ensures r.Some? ==> |r.value.1| < |t|
  {
    if t == [] || t[0] < 0x20 || t[0] == QUOTE then None
    else if t[0] != BACKSLASH then Some((t[0], t[1..]))
    else if |t| < 2 then None
    else if t[1] == 0x75 then
      if |t| < 6 then None
      else
        var v := ReadHex(t[2..6]);
        if v.None? || 0xD800 <= v.value < 0xE000 then None else Some((v.value, t[6..]))
    else
      var c := ReadShortEscape(t[1]);
      if c.None? then None else Some((c.value, t[2..]))
  }

  /** The rest of a JSON string after its opening quote, and what follows its closing quote. */
  function ReadString(t: Text): (r: Option<(Text, Text)>)
    ensures r.Some? ==> |r.value.1| < |t|
    decreases |t|
  {
    if t != [] && t[0] == QUOTE then Some(([], t[1..]))
    else
      var c := ReadChar(t);
      if c.None? then None
      else
        var more := ReadString(c.value.1);
        if more.None? then None else Some(([c.value.0] + more.value.0, more.value.1))
  }

  lemma ControlReads(r: Rune, u: Text)
    requires r < 0x20
    ensures ReadChar([BACKSLASH, 0x75, 0x30, 0x30, Hex(r / 16), Hex(r % 16)] + u) == Some((r, u))
  {
    var e := [BACKSLASH, 0x75, 0x30, 0x30, Hex(r / 16), Hex(r % 16)];
    assert (e + u)[2..6] == [0x30, 0x30, Hex(r / 16), Hex(r % 16)];
    assert (e + u)[6..] == u;
  }

  lemma EscapeReads(r: Rune, u: Text)
    ensures ReadChar(Escape(r) + u) == Some((r, u))
    ensures (Escape(r) + u)[0] != QUOTE
  {
    var e := Escape(r);
    assert (e + u)[|e|..] == u;
    if r < 0x20 && |e| == 6 {
      ControlReads(r, u);
    }
  }

  /** An escaped string reads back to itself, and its end is found wherever it stands. */
  lemma {:induction false} StringReads(s: Text, u: Text)
    ensures ReadString(Escapes(s) + [QUOTE] + u) == Some((s, u))
  {
    hide Escape, ReadChar;
    if s == [] {
      assert (Escapes(s) + [QUOTE] + u)[1..] == u;
    } else {
      var rest := Escapes(s[1..]) + [QUOTE] + u;
      StringReads(s[1..], u);
      EscapeReads(s[0], rest);
      assert Escapes(s) + [QUOTE] + u == Escape(s[0]) + rest;
      assert [s[0]] + s[1..] == s;
    }
  }

  // ---------------------------------------------------------------- numbers

  type Digit = d: int | 0 <= d < 10

  /** Shortest round-trip digits: neither end is a zero. */
  type Digits = ds: seq<Digit> | ds != [] && ds[0] != 0 && ds[|ds| - 1] != 0 witness [1]

  /** A double by its shortest digits: Finite(neg, d1...dk, n) is 0.d1...dk * 10^n. */
  datatype Float = NonFinite | Zero(neg: bool) | Finite(neg: bool, digits: Digits, n: int)

  function Zeros(n: nat): seq<Digit> {
    seq(n, i => 0)
  }

  function DigitRune(d: Digit): Rune {
    d as int + 0x30
  }

  function DigitText(ds: seq<Digit>): (t: Text)
    ensures |t| == |ds|
    ensures forall i :: 0 <= i < |ds| ==> t[i] == DigitRune(ds[i])
  {
    seq(|ds|, i requires 0 <= i < |ds| => DigitRune(ds[i]))
  }

  function Itoa(m: nat): (ds: seq<Digit>)
    ensures ds != []
  {
    if m < 10 then [m] else Itoa(m / 10) + [m % 10]
  }

  function ExponentText(e: int): Text {
    [LOWER_E] + (if e >= 0 then [PLUS] + DigitText(Itoa(e)) else [MINUS] + DigitText(Itoa(-e)))
  }

  function PointText(ds: seq<Digit>): Text {
    if ds == [] then [] else [POINT] + DigitText(ds)
  }

  /** The four layouts of a nonzero magnitude. */
  function Magnitude(ds: seq<Digit>, n: int): Text
    requires ds != []
  {
    var k := |ds|;
    if k <= n <= 21 then DigitText(ds + Zeros(n - k))
    else if 0 < n <= 21 then DigitText(ds[..n]) + PointText(ds[n..])
    else if -6 < n <= 0 then DigitText([0]) + PointText(Zeros(-n) + ds)
    else DigitText(ds[..1]) + PointText(ds[1..]) + ExponentText(n - 1)
  }

  function NumberText(f: Float): Text
    requires !f.NonFinite?
  {
    if f.Zero? then DigitText([0])
    else (if f.neg then [MINUS] else []) + Magnitude(f.digits, f.n)
  }

  /** A number literal by the parts of its grammar: whole.frac * 10^exp. */
  datatype Decimal = Decimal(whole: seq<Digit>, frac: seq<Digit>, exp: int)

  predicate IsDigit(r: Rune) {
    0x30 <= r <= 0x39
  }

  function ReadDigits(t: Text): (r: (seq<Digit>, Text))
    ensures |r.1| <= |t|
  {
    if t == [] || !IsDigit(t[0]) then ([], t)
    else
      var (ds, rest) := ReadDigits(t[1..]);
      ([t[0] - 0x30] + ds, rest)
  }

  function Nat(ds: seq<Digit>): nat {
    if ds == [] then 0 else 10 * Nat(ds[..|ds| - 1]) + ds[|ds| - 1]
  }

  function ReadFraction(t: Text): (seq<Digit>, Text) {
    if t != [] && t[0] == POINT then ReadDigits(t[1..]) else ([], t)
  }

  function ReadExponent(t: Text): Option<int> {
    if t == [] then Some(0)
    else if |t| < 3 || t[0] != LOWER_E || (t[1] != PLUS && t[1] != MINUS) then None
    else
      var (ds, rest) := ReadDigits(t[2..]);
      if ds == [] || rest != [] then None
      else Some(if t[1] == PLUS then Nat(ds) else -(Nat(ds) as int))
  }

  function ReadMagnitude(t: Text): Option<Decimal> {
    var (whole, t1) := ReadDigits(t);
    var (frac, t2) := ReadFraction(t1);
    var exp := ReadExponent(t2);
    if whole == [] || exp.None? then None else Some(Decimal(whole, frac, exp.value))
  }

  function Pow10(e: int): real
    decreases if e < 0 then -e else e
  {
    if e == 0 then 1.0 else if e > 0 then 10.0 * Pow10(e - 1) else Pow10(e + 1) / 10.0
  }

  function ValueOf(d: Decimal): real {
    Nat(d.whole + d.frac) as real * Pow10(d.exp - |d.frac|)
  }

  function StripTrailing(ds: seq<Digit>): seq<Digit> {
    if ds != [] && ds[|ds| - 1] == 0 then StripTrailing(ds[..|ds| - 1]) else ds
  }

  function LeadingZeros(ds: seq<Digit>): (z: nat)
    ensures z <= |ds|
  {
    if ds == [] || ds[0] != 0 then 0 else 1 + LeadingZeros(ds[1..])
  }

  /** The scientific form of a literal: leading and trailing zeros carry no value. */
  function FloatOf(neg: bool, d: Decimal): Option<Float> {
    var all := d.whole + d.frac;
    var z := LeadingZeros(all);
    var ds := StripTrailing(all[z..]);
    if z == |all| then Some(Zero(neg))
    else if ds == [] || ds[0] == 0 || ds[|ds| - 1] == 0 then None
    else Some(Finite(neg, ds, d.exp + |d.whole| - z))
  }

  function ReadNumber(t: Text): Option<Float> {
    var neg := t != [] && t[0] == MINUS;
    var d := ReadMagnitude(if neg then t[1..] else t);
    if d.None? then None else FloatOf(neg, d.value)
  }

  // ---------------------------------------------------------------- what the layouts mean

  predicate DigitsEnd(t: Text) {
    t == [] || !IsDigit(t[0])
  }

  lemma {:induction false} DigitsRead(ds: seq<Digit>, u: Text)
    requires DigitsEnd(u)
    ensures ReadDigits(DigitText(ds) + u) == (ds, u)
  {
    if ds == [] {
      assert DigitText(ds) + u == u;
    } else {
      var t := DigitText(ds) + u;
      DigitsRead(ds[1..], u);
      assert t[1..] == DigitText(ds[1..]) + u;
      assert t[0] == DigitRune(ds[0]);
      assert [ds[0]] + ds[1..] == ds;
    }
  }

  lemma {:induction false} NatOfItoa(m: nat)
    ensures Nat(Itoa(m)) == m
  {
    if m >= 10 {
      NatOfItoa(m / 10);
      assert Itoa(m)[..|Itoa(m)| - 1] == Itoa(m / 10);
    } else {
      assert Nat([m]) == 10 * Nat([]) + m by { assert [m][..0] == []; }
    }
  }

  lemma ExponentReads(e: int)
    ensures ReadExponent(ExponentText(e)) == Some(e)
    ensures PartsEnd(ExponentText(e))
  {
    hide Nat, Itoa;
    var t := ExponentText(e);
    var ds := Itoa(if e >= 0 then e else -e);
    assert t[2..] == DigitText(ds) + [];
    DigitsRead(ds, []);
    NatOfItoa(if e >= 0 then e else -e);
  }

  /** What may follow the digits of a number: nothing or an exponent. */
  predicate PartsEnd(t: Text) {
    DigitsEnd(t) && (t == [] || t[0] != POINT)
  }

  lemma FractionReads(frac: seq<Digit>, tail: Text)
    requires PartsEnd(tail)
    ensures ReadFraction(PointText(frac) + tail) == (frac, tail)
    ensures DigitsEnd(PointText(frac) + tail)
  {
    hide ReadDigits, DigitText;
    var t := PointText(frac) + tail;
    if frac == [] {
      assert t == tail;
    } else {
      Regroup([POINT], DigitText(frac), tail);
      assert t[0] == POINT && t[1..] == DigitText(frac) + tail;
      DigitsRead(frac, tail);
    }
  }

  /** A whole part, an optional fraction and an optional exponent read back as written. */
  lemma PartsRead(whole: seq<Digit>, frac: seq<Digit>, tail: Text)
    requires whole != [] && PartsEnd(tail) && ReadExponent(tail).Some?
    ensures ReadMagnitude(DigitText(whole) + PointText(frac) + tail)
         == Some(Decimal(whole, frac, ReadExponent(tail).value))
  {
    hide ReadExponent, ReadDigits, ReadFraction, DigitText, PointText, PartsEnd, DigitsEnd;
    FractionReads(frac, tail);
    DigitsRead(whole, PointText(frac) + tail);
    Regroup(DigitText(whole), PointText(frac), tail);
  }

  lemma EmptyExponent()
    ensures ReadExponent([]) == Some(0)
  {
  }

  /** The parts each layout puts down. */
  function Layout(ds: seq<Digit>, n: int): Decimal
    requires ds != []
  {
    var k := |ds|;
    if k <= n <= 21 then Decimal(ds + Zeros(n - k), [], 0)
    else if 0 < n <= 21 then Decimal(ds[..n], ds[n..], 0)
    else if -6 < n <= 0 then Decimal([0], Zeros(-n) + ds, 0)
    else Decimal(ds[..1], ds[1..], n - 1)
  }

  lemma MagnitudeReads(ds: seq<Digit>, n: int)
    requires ds != []
    ensures ReadMagnitude(Magnitude(ds, n)) == Some(Layout(ds, n))
  {
    hide ReadMagnitude, DigitText, PointText, ExponentText;
    var l := Layout(ds, n);
    if -6 < n <= 21 {
      EmptyExponent();
      PartsRead(l.whole, l.frac, []);
      assert DigitText(l.whole) + PointText(l.frac) + [] == DigitText(l.whole) + PointText(l.frac);
      if l.frac == [] {
        NoPoint();
        assert DigitText(l.whole) + [] == DigitText(l.whole);
      }
    } else {
      ExponentReads(n - 1);
      PartsRead(l.whole, l.frac, ExponentText(n - 1));
    }
  }

  lemma NoPoint()
    ensures PointText([]) == []
  {
  }

  lemma OneMoreZero(ds: seq<Digit>, z: nat)
    requires z > 0
    ensures Nat(ds + Zeros(z)) == 10 * Nat(ds + Zeros(z - 1))
  {
    var all := ds + Zeros(z);
    assert all[..|all| - 1] == ds + Zeros(z - 1);
  }

  lemma {:induction false} NatShift(ds: seq<Digit>, z: nat)
    ensures Nat(ds + Zeros(z)) as real == Nat(ds) as real * Pow10(z)
  {
    hide Nat;
    if z == 0 {
      assert ds + Zeros(0) == ds;
    } else {
      NatShift(ds, z - 1);
      OneMoreZero(ds, z);
      Rearrange(Nat(ds) as real, Pow10(z - 1));
    }
  }

  lemma Rearrange(a: real, p: real)
    ensures 10.0 * (a * p) == a * (10.0 * p)
  {
  }

  lemma {:induction false} NatLeading(z: nat, ds: seq<Digit>)
    ensures Nat(Zeros(z) + ds) == Nat(ds)
    decreases z, |ds|
  {
    if ds != [] {
      NatLeading(z, ds[..|ds| - 1]);
      var all := Zeros(z) + ds;
      assert all[..|all| - 1] == Zeros(z) + ds[..|ds| - 1];
    } else if z > 0 {
      NatLeading(z - 1, []);
      var all := Zeros(z) + [];
      assert all[..|all| - 1] == Zeros(z - 1) + [];
    }
  }

  /** Every layout denotes exactly 0.d1...dk * 10^n, for any digits at all. */
  lemma NumberDenotes(ds: seq<Digit>, n: int)
    requires ds != []
    ensures ReadMagnitude(Magnitude(ds, n)).Some?
    ensures ValueOf(ReadMagnitude(Magnitude(ds, n)).value) == Nat(ds) as real * Pow10(n - |ds|)
  {
    hide ReadMagnitude, Magnitude, Nat, Pow10;
    MagnitudeReads(ds, n);
    var l, k := Layout(ds, n), |ds|;
    if k <= n <= 21 {
      NatShift(ds, n - k);
      assert l.whole + l.frac == ds + Zeros(n - k);
      assert Pow10(0) == 1.0 by { PowZero(); }
    } else if 0 < n <= 21 {
      assert l.whole + l.frac == ds;
    } else if -6 < n <= 0 {
      NatLeading(1 - n, ds);
      assert l.whole + l.frac == Zeros(1 - n) + ds;
      assert l.exp - |l.frac| == n - k;
      assert Nat(l.whole + l.frac) == Nat(ds);
    } else {
      assert l.whole + l.frac == ds;
    }
  }

  lemma PowZero()
    ensures Pow10(0) == 1.0
  {
  }

  lemma {:induction false} StripZeros(ds: seq<Digit>, z: nat)
    requires ds != [] && ds[|ds| - 1] != 0
    ensures StripTrailing(ds + Zeros(z)) == ds
  {
    if z == 0 {
      assert ds + Zeros(0) == ds;
    } else {
      StripZeros(ds, z - 1);
      var all := ds + Zeros(z);
      assert all[..|all| - 1] == ds + Zeros(z - 1);
    }
  }

  lemma {:induction false} LeadCount(z: nat, ds: seq<Digit>)
    requires ds != [] && ds[0] != 0
    ensures LeadingZeros(Zeros(z) + ds) == z
  {
    if z == 0 {
      assert Zeros(0) + ds == ds;
    } else {
      LeadCount(z - 1, ds);
      assert (Zeros(z) + ds)[1..] == Zeros(z - 1) + ds;
    }
  }

  /** Zeros around the digits change neither the digits nor the point. */
  lemma PaddedFloat(neg: bool, d: Decimal, before: nat, ds: Digits, after: nat)
    requires d.whole + d.frac == Zeros(before) + ds + Zeros(after)
    ensures FloatOf(neg, d) == Some(Finite(neg, ds, d.exp + |d.whole| - before))
  {
    hide StripTrailing, LeadingZeros;
    var all := d.whole + d.frac;
    StripZeros(ds, after);
    LeadCount(before, ds + Zeros(after));
    Regroup(Zeros(before), ds, Zeros(after));
    assert all[before..] == ds + Zeros(after);
  }

  lemma LayoutIsShortest(neg: bool, ds: Digits, n: int)
    ensures FloatOf(neg, Layout(ds, n)) == Some(Finite(neg, ds, n))
  {
    hide FloatOf;
    var l, k := Layout(ds, n), |ds|;
    var all := l.whole + l.frac;
    if k <= n <= 21 {
      assert all == Zeros(0) + ds + Zeros(n - k);
      PaddedFloat(neg, l, 0, ds, n - k);
    } else if -6 < n <= 0 {
      assert all == Zeros(1 - n) + ds + Zeros(0);
      PaddedFloat(neg, l, 1 - n, ds, 0);
    } else {
      assert all == Zeros(0) + ds + Zeros(0);
      PaddedFloat(neg, l, 0, ds, 0);
    }
  }

  /** The characters a number may hold; none of them delimits values. */
  predicate NumberChar(r: Rune) {
    IsDigit(r) || r == PLUS || r == MINUS || r == POINT || r == LOWER_E
  }

  predicate NumberChars(t: Text) {
    forall i :: 0 <= i < |t| ==> NumberChar(t[i])
  }

  lemma JoinChars(a: Text, b: Text)
    requires NumberChars(a) && NumberChars(b)
    ensures NumberChars(a + b)
  {
  }

  lemma PartChars(ds: seq<Digit>, e: int)
    ensures NumberChars(DigitText(ds)) && NumberChars(PointText(ds)) && NumberChars(ExponentText(e))
    ensures ds != [] ==> IsDigit(DigitText(ds)[0])
  {
    hide Itoa;
  }

  lemma MagnitudeChars(ds: seq<Digit>, n: int)
    requires ds != []
    ensures var t := Magnitude(ds, n);
            t != [] && IsDigit(t[0]) && NumberChars(t)
  {
    var l := Layout(ds, n);
    PartChars(l.whole, n - 1);
    PartChars(l.frac, n - 1);
    hide DigitText, PointText, ExponentText, NumberChars, IsDigit;
    JoinChars(DigitText(l.whole), PointText(l.frac));
    JoinChars(DigitText(l.whole) + PointText(l.frac), ExponentText(n - 1));
  }

  /** The number text reads back to the number, but for the sign of zero. */
  lemma NumberReads(f: Float)
    requires !f.NonFinite?
    ensures ReadNumber(NumberText(f)) == Some(if f.Zero? then Zero(false) else f)
  {
    hide Magnitude, ReadMagnitude, FloatOf;
    if f.Zero? {
      ZeroReads();
    } else {
      MagnitudeChars(f.digits, f.n);
      MagnitudeReads(f.digits, f.n);
      LayoutIsShortest(f.neg, f.digits, f.n);
      assert NumberText(f)[if f.neg then 1 else 0..] == Magnitude(f.digits, f.n);
    }
  }

  lemma ZeroReads()
    ensures ReadNumber(DigitText([0])) == Some(Zero(false))
  {
    EmptyExponent();
    PartsRead([0], [], []);
    NoPoint();
    assert DigitText([0]) + [] + [] == DigitText([0]);
    assert LeadingZeros([0] + []) == 1;
  }

  // ---------------------------------------------------------------- number literals read in

  function Unminus(lit: Text): Text {
    if lit != [] && lit[0] == MINUS then lit[1..] else lit
  }

  /** Plain integer notation: an optional minus, then one or more digits. */
  predicate IntegerLiteral(lit: Text) {
    Unminus(lit) != [] && forall i :: 0 <= i < |Unminus(lit)| ==> IsDigit(Unminus(lit)[i])
  }

  method IsIntegerLiteral(lit: Text) returns (r: bool)
    ensures r == IntegerLiteral(lit)
  {
    var i := 0;
    if lit != [] && lit[0] == MINUS {
      i := 1;
    }
    ghost var start := i;
    if i == |lit| {
      return false;
    }
    while i < |lit|
      invariant start <= i <= |lit|
      invariant forall k :: start <= k < i ==> IsDigit(lit[k])
    {
      if !IsDigit(lit[i]) {
        assert Unminus(lit)[i - start] == lit[i];
        return false;
      }
      i := i + 1;
    }
    return true;
  }

  function IntegerValue(lit: Text): int {
    var m: int := Nat(ReadDigits(Unminus(lit)).0);
    if lit != [] && lit[0] == MINUS then -m else m
  }

  datatype NumberError = BadLiteral | LossyNumber | NonFiniteNumber

  /** checkedNumber, with the library's literal parser and the exact value of a double as
      parameters; out-of-range literals parse to an infinity. */
  function CheckedNumber(parse: Text -> Option<Float>, exact: Float -> Option<real>, lit: Text): Result<Float, NumberError> {
    var f := parse(lit);
    if f.None? then Err(BadLiteral)
    else if IntegerLiteral(lit) && exact(f.value) != Some(IntegerValue(lit) as real) then Err(LossyNumber)
    else if f.value.NonFinite? then Err(NonFiniteNumber)
    else Ok(f.value)
  }

  /** Two integer literals that pass and print alike are the same integer: no integer collapses
      onto a neighbouring double. */
  lemma IntegersDoNotCollapse(parse: Text -> Option<Float>, exact: Float -> Option<real>, a: Text, b: Text)
    requires exact(Zero(true)) == exact(Zero(false))
    requires IntegerLiteral(a) && IntegerLiteral(b)
    requires CheckedNumber(parse, exact, a).Ok? && CheckedNumber(parse, exact, b).Ok?
    requires NumberText(CheckedNumber(parse, exact, a).value) == NumberText(CheckedNumber(parse, exact, b).value)
    ensures IntegerValue(a) == IntegerValue(b)
  {
    hide NumberText, IntegerValue, IntegerLiteral;
    NumberReads(CheckedNumber(parse, exact, a).value);
    NumberReads(CheckedNumber(parse, exact, b).value);
    assert IntegerValue(a) as real == IntegerValue(b) as real;
  }
}
