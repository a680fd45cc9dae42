/** Which of the many spellings the canonical text takes: sections 3.2.2.2 and 3.2.2.3 of RFC 8785,
    stated about what the JSON reader makes of the text. */
module JcsForm {
  import opened Basics
  import opened Unicode
  import opened JcsText
  import Jcs

  // ---------------------------------------------------------------- strings

  function LowerHex(r: Rune): Rune {
    if 0x41 <= r <= 0x46 then r + 0x20 else r
  }

  /** The spelling of one character with the hex digits of a \u escape in lower case. */
  function Lowered(e: Text): Text {
    if |e| == 6 then [e[0], e[1], LowerHex(e[2]), LowerHex(e[3]), LowerHex(e[4]), LowerHex(e[5])] else e
  }

  lemma HexDigitUnique(d: Rune)
    requires HexValue(d).Some?
    ensures LowerHex(d) == Hex(HexValue(d).value)
  {
  }

  lemma HexSplits(a: int, b: int, c: int, d: int, r: int)
    requires 0 <= a < 16 && 0 <= b < 16 && 0 <= c < 16 && 0 <= d < 16
    requires r == a * 0x1000 + b * 0x100 + c * 0x10 + d && r < 0x20
    ensures a == 0 && b == 0 && c == r / 16 && d == r % 16
  {
  }

  lemma ControlSpelling(t: Text)
    requires |t| >= 6 && t[0] == BACKSLASH && t[1] == 0x75 && ReadHex(t[2..6]).Some? && ReadHex(t[2..6]).value < 0x20
    ensures var r := ReadHex(t[2..6]).value;
            Lowered(t[..6]) == [BACKSLASH, 0x75, 0x30, 0x30, Hex(r / 16), Hex(r % 16)]
  {
    hide HexValue;
    var h := t[2..6];
    HexSplits(HexValue(h[0]).value, HexValue(h[1]).value, HexValue(h[2]).value, HexValue(h[3]).value, ReadHex(h).value);
    HexDigitUnique(h[0]);
    HexDigitUnique(h[1]);
    HexDigitUnique(h[2]);
    HexDigitUnique(h[3]);
    assert h[0] == t[2] && h[1] == t[3] && h[2] == t[4] && h[3] == t[5];
  }

  /** No JSON spelling of a character is shorter than the canonical one, and one of the same length
      is the canonical one up to the case of its hex digits, which the canonical one has lower. */
  lemma EscapeShortest(t: Text, r: Rune, u: Text)
    requires ReadChar(t) == Some((r, u))
    ensures |Escape(r)| + |u| <= |t|
    ensures |Escape(r)| + |u| == |t| ==> Lowered(t[..|Escape(r)|]) == Escape(r)
    ensures Lowered(Escape(r)) == Escape(r)
  {
    hide ReadHex;
    if t[0] == BACKSLASH && t[1] == 0x75 {
      if r < 0x20 {
        ControlSpelling(t);
      }
    } else if t[0] == BACKSLASH {
      assert t[..2] == [t[0], t[1]];
    } else {
      assert t[..1] == [t[0]];
    }
  }

  /** No JSON spelling of a string is shorter than the canonical one. */
  lemma {:induction false} StringShortest(t: Text)
    requires ReadString(t).Some?
    ensures var (s, u) := ReadString(t).value;
            |Escapes(s)| + 1 + |u| <= |t|
    decreases |t|
  {
    hide Escape, ReadChar;
    if t == [] || t[0] != QUOTE {
      var (r, rest) := ReadChar(t).value;
      StringShortest(rest);
      EscapeShortest(t, r, rest);
      var (s, u) := ReadString(rest).value;
      assert ([r] + s)[1..] == s;
    }
  }

  // ---------------------------------------------------------------- numbers

  /** Plain notation exactly in the window -6 < n <= 21; outside it one digit before the point and
      the exponent n - 1. In plain notation the whole part has n digits, or is a single zero; a
      fraction never ends in a zero. */
  lemma NumberWindow(ds: Digits, n: int)
    ensures ReadMagnitude(Magnitude(ds, n)).Some?
    ensures var d := ReadMagnitude(Magnitude(ds, n)).value;
            && (d.exp == 0 <==> -6 < n <= 21)
            && (d.exp != 0 ==> d.exp == n - 1 && |d.whole| == 1)
            && (d.exp == 0 && n > 0 ==> |d.whole| == n)
            && (d.exp == 0 && n <= 0 ==> d.whole == [0])
            && (d.frac != [] ==> d.frac[|d.frac| - 1] != 0)
  {
    hide ReadMagnitude, Magnitude;
    MagnitudeReads(ds, n);
  }

  /** Outside the window, and only there, the text holds an exponent. */
  lemma ExponentExactly(ds: seq<Digit>, n: int)
    requires ds != []
    ensures 'e' as int in Magnitude(ds, n) <==> !(-6 < n <= 21)
  {
    var k := |ds|;
    hide DigitText, PointText, ExponentText;
    if k <= n <= 21 {
      NoExponent(ds + Zeros(n - k));
    } else if 0 < n <= 21 {
      NoExponent(ds[..n]);
      NoExponent(ds[n..]);
    } else if -6 < n <= 0 {
      NoExponent([0]);
      NoExponent(Zeros(-n) + ds);
    } else {
      ExponentMarked(n - 1);
    }
  }

  lemma NoExponent(ds: seq<Digit>)
    ensures 'e' as int !in DigitText(ds) && 'e' as int !in PointText(ds)
  {
  }

  lemma ExponentMarked(e: int)
    ensures 'e' as int in ExponentText(e)
  {
    hide Itoa;
    assert ExponentText(e)[0] == 'e' as int;
  }

  lemma {:induction false} NoLeadingZero(m: nat)
    ensures Itoa(m)[0] == 0 <==> m == 0
    ensures m == 0 ==> Itoa(m) == [0]
  {
    if m >= 10 {
      NoLeadingZero(m / 10);
    }
  }

  /** The exponent carries its sign and no leading zero. */
  lemma ExponentForm(e: int)
    requires e != 0
    ensures var ds := Itoa(if e > 0 then e else -e);
            ds[0] != 0 && Nat(ds) == (if e > 0 then e else -e)
            && ExponentText(e) == Ascii(if e > 0 then "e+" else "e-") + DigitText(ds)
  {
    var m: nat := if e > 0 then e else -e;
    NoLeadingZero(m);
    NatOfItoa(m);
    SignSpelled();
    hide Itoa, Nat, DigitText, Ascii;
    Regroup([LOWER_E], [if e > 0 then PLUS else MINUS], DigitText(Itoa(m)));
  }

  lemma SignSpelled()
    ensures [LOWER_E] + [PLUS] == Ascii("e+") && [LOWER_E] + [MINUS] == Ascii("e-")
  {
  }

  // ---------------------------------------------------------------- integer literals

  /** The text of an optional minus and digits. */
  function Signed(neg: bool, ds: seq<Digit>): Text {
    (if neg then Ascii("-") else []) + DigitText(ds)
  }

  /** An integer literal is an optional minus and one or more digits, and denotes what they spell. */
  lemma IntegerLiteralExactly(lit: Text)
    ensures IntegerLiteral(lit) <==> exists neg, ds :: ds != [] && lit == Signed(neg, ds)
  {
    var neg := lit != [] && lit[0] == MINUS;
    if IntegerLiteral(lit) {
      var ds := SpelledDigits(Unminus(lit));
      assert lit == Signed(neg, ds);
    }
    if neg', ds :| ds != [] && lit == Signed(neg', ds) {
      SignedParts(neg', ds);
    }
  }

  lemma {:induction false} SpelledDigits(t: Text) returns (ds: seq<Digit>)
    requires forall i :: 0 <= i < |t| ==> IsDigit(t[i])
    ensures t == DigitText(ds)
  {
    if t == [] {
      ds := [];
    } else {
      var rest := SpelledDigits(t[1..]);
      ds := [t[0] - 0x30] + rest;
      assert t == [t[0]] + t[1..];
    }
  }

  lemma SignedParts(neg: bool, ds: seq<Digit>)
    requires ds != []
    ensures Unminus(Signed(neg, ds)) == DigitText(ds) && (neg <==> Signed(neg, ds)[0] == MINUS)
  {
    assert Ascii("-") == [MINUS];
    assert DigitText(ds)[0] == DigitRune(ds[0]);
  }

  lemma IntegerDenotes(neg: bool, ds: seq<Digit>)
    requires ds != []
    ensures IntegerLiteral(Signed(neg, ds)) && IntegerValue(Signed(neg, ds)) == if neg then -(Nat(ds) as int) else Nat(ds)
  {
    SignedParts(neg, ds);
    assert DigitText(ds) + [] == DigitText(ds);
    DigitsRead(ds, []);
  }

  /** A literal passes exactly when it parses to a finite double and, if it is an integer, is that
      double's exact value. */
  lemma CheckedExactly(parse: Text -> Option<Float>, exact: Float -> Option<real>, lit: Text)
    ensures var r := CheckedNumber(parse, exact, lit);
            var whole := IntegerLiteral(lit);
            && (r == Err(BadLiteral) <==> parse(lit) == None)
            && (r == Err(LossyNumber) <==> parse(lit) != None && whole && exact(parse(lit).value) != Some(IntegerValue(lit) as real))
            && (r.Ok? <==> && parse(lit).Some? && !parse(lit).value.NonFinite?
                           && (whole ==> exact(parse(lit).value) == Some(IntegerValue(lit) as real)))
            && (r.Ok? ==> Some(r.value) == parse(lit))
  {
  }

  // ---------------------------------------------------------------- characters

  /** ASCII characters as code points. */
  function Ascii(s: string): (t: Text)
    requires forall i :: 0 <= i < |s| ==> s[i] as int < 0x80
    ensures |t| == |s|
  {
    seq(|s|, i requires 0 <= i < |s| => s[i] as int)
  }

  /** The literals and the punctuation of JSON. */
  lemma Spelled()
    ensures Jcs.NULL == Ascii("null") && Jcs.TRUE == Ascii("true") && Jcs.FALSE == Ascii("false")
    ensures [Jcs.OPEN_BRACE, Jcs.CLOSE_BRACE] == Ascii("{}") && [Jcs.OPEN_BRACKET, Jcs.CLOSE_BRACKET] == Ascii("[]")
    ensures [Jcs.COMMA, Jcs.COLON, QUOTE, BACKSLASH] == Ascii(",:\"\\")
    ensures [MINUS, PLUS, POINT, LOWER_E] == Ascii("-+.e")
  {
  }

  /** Zero has no sign and no point; another number has its sign in front exactly when negative. */
  lemma SignForm(f: Float)
    requires !f.NonFinite?
    ensures f.Zero? ==> NumberText(f) == Ascii("0")
    ensures f.Finite? ==> NumberText(f) != [] && ([NumberText(f)[0]] == Ascii("-") <==> f.neg)
  {
    if f.Finite? {
      MagnitudeChars(f.digits, f.n);
      hide Magnitude;
      assert Ascii("-")[0] == MINUS;
    }
  }
}
