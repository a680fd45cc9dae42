/** The appendJCS family: one shared buffer, written piece by piece, against the printer. */
module JcsAppend {
  import opened Basics
  import opened Sorting
  import opened Unicode
  import opened JcsText
  import opened Jcs
  import opened JcsDecoded

  class Buffer {
    var data: Bytes

    constructor ()
      ensures data == []
    {
      data := [];
    }

    /** WriteString and WriteByte: the bytes of a text. */
    method Write(t: Text)
      modifies this
      ensures data == old(data) + Utf8(t)
    {
      data := data + Utf8(t);
    }

    method WriteRune(r: Rune)
      modifies this
      ensures data == old(data) + EncodeRune(r)
    {
      data := data + EncodeRune(r);
    }
  }

  /** After out has been written, todo is what is left of the text. */
  ghost predicate Remaining(data: Bytes, todo: Text, start: Bytes, text: Text) {
    data + Utf8(todo) == start + Utf8(text)
  }

  lemma Wrote(data: Bytes, piece: Text, todo: Text, start: Bytes, text: Text)
    requires Remaining(data, piece + todo, start, text)
    ensures Remaining(data + Utf8(piece), todo, start, text)
  {
    hide Utf8;
    Utf8Append(piece, todo);
    Regroup(data, Utf8(piece), Utf8(todo));
  }

  lemma WroteAll(data: Bytes, start: Bytes, text: Text)
    requires Remaining(data, [], start, text)
    ensures data == start + Utf8(text)
  {
    assert data + [] == data;
  }

  /** appendJCSString. */
  method AppendString(buf: Buffer, s: Text)
    modifies buf
    ensures buf.data == old(buf.data) + Utf8(Quoted(s))
  {
    hide Utf8, Escape, EncodeRune, Remaining;
    ghost var start, text := buf.data, Quoted(s);
    StartsWith(start, text);
    assert text == [QUOTE] + (Escapes(s) + [QUOTE]);
    Wrote(buf.data, [QUOTE], Escapes(s) + [QUOTE], start, text);
    buf.Write([QUOTE]);
    assert s[0..] == s;
    for i := 0 to |s|
      invariant Remaining(buf.data, Escapes(s[i..]) + [QUOTE], start, text)
    {
      var r := s[i];
      ghost var todo := Escapes(s[i + 1..]) + [QUOTE];
      EscapesStep(s, i);
      Regroup(Escape(r), Escapes(s[i + 1..]), [QUOTE]);
      Wrote(buf.data, Escape(r), todo, start, text);
      AppendRune(buf, r);
    }
    assert Escapes(s[|s|..]) + [QUOTE] == [QUOTE] + [];
    Wrote(buf.data, [QUOTE], [], start, text);
    buf.Write([QUOTE]);
    WroteAll(buf.data, start, text);
  }

  lemma StartsWith(start: Bytes, text: Text)
    ensures Remaining(start, text, start, text)
  {
  }

  lemma EscapesStep(s: Text, i: nat)
    requires i < |s|
    ensures Escapes(s[i..]) == Escape(s[i]) + Escapes(s[i + 1..])
  {
    assert s[i..][1..] == s[i + 1..];
  }

  lemma OneRune(r: Rune)
    ensures Utf8([r]) == EncodeRune(r)
  {
    assert EncodeRune(r) + Utf8([r][1..]) == EncodeRune(r);
  }

  /** The escape switch for one character. */
  method AppendRune(buf: Buffer, r: Rune)
    modifies buf
    ensures buf.data == old(buf.data) + Utf8(Escape(r))
  {
    hide Utf8, EncodeRune;
    if r == QUOTE {
      buf.Write([BACKSLASH, QUOTE]);
    } else if r == BACKSLASH {
      buf.Write([BACKSLASH, BACKSLASH]);
    } else if r == 0x08 {
      buf.Write([BACKSLASH, 0x62]);
    } else if r == 0x0C {
      buf.Write([BACKSLASH, 0x66]);
    } else if r == 0x0A {
      buf.Write([BACKSLASH, 0x6E]);
    } else if r == 0x0D {
      buf.Write([BACKSLASH, 0x72]);
    } else if r == 0x09 {
      buf.Write([BACKSLASH, 0x74]);
    } else if r < 0x20 {
      buf.Write([BACKSLASH, 0x75, 0x30, 0x30, Hex(r / 16), Hex(r % 16)]);
    } else {
      OneRune(r);
      buf.WriteRune(r);
    }
  }

  /** writeZeros. */
  method WriteZeros(buf: Buffer, n: nat)
    modifies buf
    ensures buf.data == old(buf.data) + Utf8(DigitText(Zeros(n)))
  {
    hide Utf8;
    ghost var start := buf.data;
    ghost var text := DigitText(Zeros(n));
    StartsWith(start, text);
    for i := 0 to n
      invariant Remaining(buf.data, DigitText(Zeros(n - i)), start, text)
    {
      hide Remaining;
      assert DigitText(Zeros(n - i)) == DigitText([0]) + DigitText(Zeros(n - i - 1));
      Wrote(buf.data, DigitText([0]), DigitText(Zeros(n - i - 1)), start, text);
      buf.Write(DigitText([0]));
    }
    assert DigitText(Zeros(0)) == [];
    WroteAll(buf.data, start, text);
  }

  /** The four layouts, written part by part. */
  method AppendMagnitude(buf: Buffer, ds: Digits, n: int)
    modifies buf
    ensures buf.data == old(buf.data) + Utf8(Magnitude(ds, n))
  {
    hide Utf8, DigitText, Zeros, PointText, ExponentText;
    var k := |ds|;
    ghost var start, text := buf.data, Magnitude(ds, n);
    if k <= n <= 21 {
      DigitsJoin(ds, Zeros(n - k));
      buf.Write(DigitText(ds));
      WriteZeros(buf, n - k);
      TwoPieces(start, DigitText(ds), DigitText(Zeros(n - k)));
    } else if 0 < n <= 21 {
      buf.Write(DigitText(ds[..n]));
      AppendPoint(buf, ds[n..]);
      TwoPieces(start, DigitText(ds[..n]), PointText(ds[n..]));
    } else if -6 < n <= 0 {
      LeadingPoint(Zeros(-n), ds);
      buf.Write(DigitText([0]) + [POINT]);
      WriteZeros(buf, -n);
      TwoPieces(start, DigitText([0]) + [POINT], DigitText(Zeros(-n)));
      buf.Write(DigitText(ds));
      TwoPieces(start, DigitText([0]) + [POINT] + DigitText(Zeros(-n)), DigitText(ds));
    } else {
      buf.Write(DigitText(ds[..1]));
      if k > 1 {
        AppendPoint(buf, ds[1..]);
      } else {
        NoPointText(ds[1..]);
        assert buf.data + [] == buf.data;
      }
      TwoPieces(start, DigitText(ds[..1]), PointText(ds[1..]));
      AppendExponent(buf, n - 1);
      TwoPieces(start, DigitText(ds[..1]) + PointText(ds[1..]), ExponentText(n - 1));
    }
  }

  lemma TwoPieces(start: Bytes, a: Text, b: Text)
    ensures start + Utf8(a) + Utf8(b) == start + Utf8(a + b)
  {
    hide Utf8;
    Utf8Append(a, b);
    Regroup(start, Utf8(a), Utf8(b));
  }

  lemma DigitsJoin(a: seq<Digit>, b: seq<Digit>)
    ensures DigitText(a + b) == DigitText(a) + DigitText(b)
  {
  }

  lemma LeadingPoint(zeros: seq<Digit>, ds: seq<Digit>)
    requires ds != []
    ensures DigitText([0]) + PointText(zeros + ds) == DigitText([0]) + [POINT] + DigitText(zeros) + DigitText(ds)
  {
    hide DigitText;
    DigitsJoin(zeros, ds);
  }

  lemma NoPointText(ds: seq<Digit>)
    requires ds == []
    ensures Utf8(PointText(ds)) == []
  {
  }

  method AppendPoint(buf: Buffer, ds: seq<Digit>)
    requires ds != []
    modifies buf
    ensures buf.data == old(buf.data) + Utf8(PointText(ds))
  {
    hide Utf8, DigitText;
    ghost var start := buf.data;
    buf.Write([POINT]);
    buf.Write(DigitText(ds));
    TwoPieces(start, [POINT], DigitText(ds));
  }

  method AppendExponent(buf: Buffer, e: int)
    modifies buf
    ensures buf.data == old(buf.data) + Utf8(ExponentText(e))
  {
    hide Utf8, DigitText, Itoa;
    ghost var start := buf.data;
    buf.Write([LOWER_E]);
    var m, sign := e, PLUS;
    if m < 0 {
      m, sign := -m, MINUS;
    }
    buf.Write([sign]);
    TwoPieces(start, [LOWER_E], [sign]);
    buf.Write(DigitText(Itoa(m)));
    TwoPieces(start, [LOWER_E] + [sign], DigitText(Itoa(m)));
    Regroup([LOWER_E], [sign], DigitText(Itoa(m)));
  }

  /** appendJCSNumber: fails exactly on NaN and the infinities, before writing. */
  method AppendNumber(buf: Buffer, f: Float) returns (ok: bool)
    modifies buf
    ensures ok == !f.NonFinite?
    ensures buf.data == if ok then old(buf.data) + Utf8(NumberText(f)) else old(buf.data)
  {
    hide Utf8, Magnitude, DigitText;
    if f.NonFinite? {
      return false;
    }
    if f.Zero? {
      buf.Write(DigitText([0]));
      return true;
    }
    ghost var start := buf.data;
    if f.neg {
      buf.Write([MINUS]);
      AppendMagnitude(buf, f.digits, f.n);
      TwoPieces(start, [MINUS], Magnitude(f.digits, f.n));
    } else {
      AppendMagnitude(buf, f.digits, f.n);
      assert [] + Magnitude(f.digits, f.n) == Magnitude(f.digits, f.n);
    }
    return true;
  }

  // ---------------------------------------------------------------- keys

  /** The sort by jcsKeyLess, as an insertion sort. */
  method SortKeys(keys: seq<Text>) returns (r: seq<Text>)
    ensures r == Sort(Utf16, keys)
  {
    hide Utf16, LexLess, Insert;
    r := [];
    var n := |keys|;
    assert keys[n..] == [];
    while n > 0
      invariant 0 <= n <= |keys|
      invariant r == Sort(Utf16, keys[n..])
    {
      n := n - 1;
      var k, i := keys[n], 0;
      while i < |r|
        invariant 0 <= i <= |r|
        invariant forall m :: 0 <= m < i ==> LexLess(Utf16(r[m]), Utf16(k))
      {
        var less := KeyLess(r[i], k);
        if !less {
          break;
        }
        i := i + 1;
      }
      InsertAt(Utf16, k, r, i);
      assert keys[n..][1..] == keys[n + 1..];
      r := r[..i] + [k] + r[i..];
    }
    assert keys[0..] == keys;
  }

  /** Ranging over the map: every key once, in whatever order. */
  method ListKeys(fields: map<Text, Decoded>) returns (keys: seq<Text>)
    ensures multiset(keys) == multiset(fields.Keys)
  {
    keys := [];
    var rest := fields.Keys;
    while rest != {}
      invariant rest <= fields.Keys
      invariant multiset(keys) == multiset(fields.Keys - rest)
      decreases rest
    {
      var k :| k in rest;
      assert fields.Keys - (rest - {k}) == (fields.Keys - rest) + {k};
      assert k !in fields.Keys - rest;
      rest := rest - {k};
      keys := keys + [k];
    }
    assert fields.Keys - {} == fields.Keys;
  }

  // ---------------------------------------------------------------- values

  /** checkedNumber. */
  method CheckNumber(c: Numbers, lit: Text) returns (r: Result<Float, NumberError>)
    ensures r == Check(c, lit)
  {
    var f := c.parse(lit);
    if f.None? {
      return Err(BadLiteral);
    }
    var integer := IsIntegerLiteral(lit);
    if integer {
      var exact := c.exact(f.value);
      if exact.None? || exact.value != IntegerValue(lit) as real {
        return Err(LossyNumber);
      }
    }
    if f.value.NonFinite? {
      return Err(NonFiniteNumber);
    }
    return Ok(f.value);
  }

  /** appendJCS: the canonical bytes of the checked tree, whatever order the map yields its keys in, or the
      error of the first number that is refused. */
  method Append(buf: Buffer, c: Numbers, d: Decoded) returns (err: Option<NumberError>)
    modifies buf
    ensures err == Refusal(c, d)
    ensures err.None? ==> AllFinite(Checked(c, d)) && buf.data == old(buf.data) + Canonical(Checked(c, d))
    decreases d, 1, 0
  {
    hide Utf8, NumberText, Quoted, AllFinite, Print, ItemsRefusal, MembersRefusal, SortedKeys;
    ghost var j := Checked(c, d);
    PrintCases(j);
    RefusedExactly(c, d);
    err := None;
    if d.DNull? {
      buf.Write(NULL);
    } else if d.DBool? {
      buf.Write(if d.b then TRUE else FALSE);
    } else if d.DNumber? {
      var f := CheckNumber(c, d.lit);
      if f.Err? {
        return Some(f.error);
      }
      var ok := AppendNumber(buf, f.value);
    } else if d.DFloat? {
      var ok := AppendNumber(buf, d.f);
      if !ok {
        return Some(NonFiniteNumber);
      }
    } else if d.DStr? {
      AppendString(buf, d.s);
    } else if d.DArr? {
      err := AppendItems(buf, c, d);
    } else {
      err := AppendMembers(buf, c, d);
    }
  }

  lemma PrintCases(j: Json)
    ensures j.Null? || j.Bool? || j.Str? ==> AllFinite(j)
    ensures j.Num? ==> AllFinite(j) == !j.f.NonFinite?
    ensures j.Null? ==> Print(j) == NULL
    ensures j.Bool? ==> Print(j) == if j.b then TRUE else FALSE
    ensures j.Str? ==> Print(j) == Quoted(j.s)
    ensures j.Num? && AllFinite(j) ==> Print(j) == NumberText(j.f)
  {
    hide NumberText, Quoted;
  }

  /** What is left of an array before item i. */
  ghost function ItemsLeft(js: seq<Json>, i: nat): Text
    requires i <= |js| && forall m :: 0 <= m < |js| ==> AllFinite(js[m])
  {
    if i == |js| then [CLOSE_BRACKET]
    else (if i > 0 then [COMMA] else []) + ItemsText(js[i..])
  }

  lemma ItemsLeftStep(js: seq<Json>, i: nat)
    requires i < |js| && forall m :: 0 <= m < |js| ==> AllFinite(js[m])
    ensures ItemsLeft(js, i) == (if i > 0 then [COMMA] else []) + (Print(js[i]) + ItemsLeft(js, i + 1))
  {
    hide Print, AllFinite;
    assert js[i..][1..] == js[i + 1..];
    assert js[i..][0] == js[i];
  }

  lemma ItemsLeftStart(j: Json)
    requires j.Arr? && AllFinite(j)
    ensures Print(j) == [OPEN_BRACKET] + ItemsLeft(j.items, 0)
  {
    hide ItemsText;
    assert j.items[0..] == j.items;
    if j.items != [] {
      assert [] + ItemsText(j.items) == ItemsText(j.items);
    }
  }

  method AppendItems(buf: Buffer, c: Numbers, d: Decoded) returns (err: Option<NumberError>)
    requires d.DArr?
    modifies buf
    ensures err == Refusal(c, d)
    ensures err.None? ==> AllFinite(Checked(c, d)) && buf.data == old(buf.data) + Canonical(Checked(c, d))
    decreases d, 0, 1
  {
    hide Utf8, Print, ItemsLeft, Remaining, AllFinite, Checked;
    ghost var start, j := buf.data, Checked(c, d);
    CheckedItems(c, d);
    RefusedExactly(c, d);
    ghost var finite := AllFinite(j);
    if finite {
      ItemsFinite(j);
      StartsWith(start, Print(j));
      ItemsLeftStart(j);
      Wrote(start, [OPEN_BRACKET], ItemsLeft(j.items, 0), start, Print(j));
    }
    buf.Write([OPEN_BRACKET]);
    assert d.items[0..] == d.items;
    for i := 0 to |d.items|
      invariant ItemsRefusal(c, d.items) == ItemsRefusal(c, d.items[i..])
      invariant finite ==> Remaining(buf.data, ItemsLeft(j.items, i), start, Print(j))
    {
      assert d.items[i..][0] == d.items[i] && d.items[i..][1..] == d.items[i + 1..];
      err := AppendItem(buf, c, d, i, start);
      if err.Some? {
        return;
      }
    }
    err := None;
    ItemsLeftEnd(j.items);
    Wrote(buf.data, [CLOSE_BRACKET], [], start, Print(j));
    buf.Write([CLOSE_BRACKET]);
    WroteAll(buf.data, start, Print(j));
  }

  /** The checked array has the checked items. */
  lemma CheckedItems(c: Numbers, d: Decoded)
    requires d.DArr?
    ensures Checked(c, d).Arr? && |Checked(c, d).items| == |d.items|
    ensures forall i :: 0 <= i < |d.items| ==> Checked(c, d).items[i] == Checked(c, d.items[i])
    ensures AllFinite(Checked(c, d)) ==> forall m :: 0 <= m < |d.items| ==> AllFinite(Checked(c, d).items[m])
  {
  }

  /** One turn of the item loop. */
  method AppendItem(buf: Buffer, c: Numbers, d: Decoded, i: nat, ghost start: Bytes) returns (err: Option<NumberError>)
    requires d.DArr? && i < |d.items| && Checked(c, d).Arr? && |Checked(c, d).items| == |d.items|
    requires var j := Checked(c, d);
             AllFinite(j) ==> (forall m :: 0 <= m < |j.items| ==> AllFinite(j.items[m])) && Remaining(buf.data, ItemsLeft(j.items, i), start, Print(j))
    modifies buf
    ensures err == Refusal(c, d.items[i])
    ensures var j := Checked(c, d);
            err.None? && AllFinite(j) ==> Remaining(buf.data, ItemsLeft(j.items, i + 1), start, Print(j))
    decreases d, 0, 0
  {
    hide Utf8, Print, ItemsLeft, Remaining, AllFinite, Checked;
    ghost var j, left := Checked(c, d), [];
    CheckedItems(c, d);
    ghost var finite := AllFinite(j);
    if finite {
      ItemsLeftStep(j.items, i);
      left := Print(j.items[i]) + ItemsLeft(j.items, i + 1);
    }
    if i > 0 {
      if finite { Wrote(buf.data, [COMMA], left, start, Print(j)); }
      buf.Write([COMMA]);
    } else {
      assert [] + left == left;
    }
    ghost var before := buf.data;
    err := Append(buf, c, d.items[i]);
    if err.None? && finite { Wrote(before, Print(j.items[i]), ItemsLeft(j.items, i + 1), start, Print(j)); }
  }

  lemma ItemsFinite(j: Json)
    requires j.Arr? && AllFinite(j)
    ensures forall m :: 0 <= m < |j.items| ==> AllFinite(j.items[m])
  {
  }

  lemma ItemsLeftEnd(js: seq<Json>)
    requires forall m :: 0 <= m < |js| ==> AllFinite(js[m])
    ensures ItemsLeft(js, |js|) == [CLOSE_BRACKET] + []
  {
  }

  /** What is left of an object before member i. */
  ghost function MembersLeft(j: Json, ks: seq<Text>, i: nat): Text
    requires i <= |ks| && Covers(j, ks) && AllFinite(j)
  {
    if i == |ks| then [CLOSE_BRACE]
    else (if i > 0 then [COMMA] else []) + MembersText(j, ks[i..])
  }

  lemma MembersLeftStep(j: Json, ks: seq<Text>, i: nat)
    requires i < |ks| && Covers(j, ks) && AllFinite(j)
    ensures MembersLeft(j, ks, i)
         == (if i > 0 then [COMMA] else []) + (Quoted(ks[i]) + ([COLON] + (Print(j.fields[ks[i]]) + MembersLeft(j, ks, i + 1))))
  {
    hide Print, Quoted, AllFinite;
    assert ks[i..][1..] == ks[i + 1..];
    assert ks[i..][0] == ks[i];
    var k := ks[i];
    FieldFinite(j, k);
    Regroup(Quoted(k), [COLON], Print(j.fields[k]) + MembersLeft(j, ks, i + 1));
    Regroup(Quoted(k) + [COLON], Print(j.fields[k]), MembersLeft(j, ks, i + 1));
  }

  lemma MembersLeftEnds(j: Json, ks: seq<Text>)
    requires j.Obj? && ks == SortedKeys(j.fields.Keys) && Covers(j, ks) && AllFinite(j)
    ensures Print(j) == [OPEN_BRACE] + MembersLeft(j, ks, 0)
    ensures MembersLeft(j, ks, |ks|) == [CLOSE_BRACE] + []
  {
    hide MembersText, SortedKeys;
    assert ks[0..] == ks;
    if ks != [] {
      assert [] + MembersText(j, ks) == MembersText(j, ks);
    }
  }

  /** The keys in the order they are printed in. */
  method OrderedKeys(fields: map<Text, Decoded>) returns (keys: seq<Text>)
    ensures keys == SortedKeys(fields.Keys)
    ensures forall k :: k in keys <==> k in fields
  {
    hide SortedKeys, Sort;
    var listed := ListKeys(fields);
    SortedKeysUnique(fields.Keys, listed);
    SortedKeysComplete(fields.Keys);
    keys := SortKeys(listed);
  }

  method AppendMembers(buf: Buffer, c: Numbers, d: Decoded) returns (err: Option<NumberError>)
    requires d.DObj?
    modifies buf
    ensures err == Refusal(c, d)
    ensures err.None? ==> AllFinite(Checked(c, d)) && buf.data == old(buf.data) + Canonical(Checked(c, d))
    decreases d, 0, 1
  {
    hide Utf8, Print, MembersLeft, Remaining, SortedKeys, AllFinite, Checked;
    var keys := OrderedKeys(d.fields);
    ghost var start, j := buf.data, Checked(c, d);
    CheckedKeys(c, d);
    RefusedExactly(c, d);
    ghost var finite := AllFinite(j);
    if finite {
      StartsWith(start, Print(j));
      MembersLeftEnds(j, keys);
      Wrote(start, [OPEN_BRACE], MembersLeft(j, keys, 0), start, Print(j));
    }
    buf.Write([OPEN_BRACE]);
    assert keys[0..] == keys;
    for i := 0 to |keys|
      invariant MembersRefusal(c, d, keys) == MembersRefusal(c, d, keys[i..])
      invariant finite ==> Remaining(buf.data, MembersLeft(j, keys, i), start, Print(j))
    {
      assert keys[i..][0] == keys[i] && keys[i..][1..] == keys[i + 1..];
      err := AppendMember(buf, c, d, keys, i, start);
      if err.Some? {
        return;
      }
    }
    err := None;
    Wrote(buf.data, [CLOSE_BRACE], [], start, Print(j));
    buf.Write([CLOSE_BRACE]);
    WroteAll(buf.data, start, Print(j));
  }

  /** The checked object has the same keys, each with its checked value. */
  lemma CheckedKeys(c: Numbers, d: Decoded)
    requires d.DObj?
    ensures Checked(c, d).Obj? && Checked(c, d).fields.Keys == d.fields.Keys
    ensures forall k :: k in d.fields ==> Checked(c, d).fields[k] == Checked(c, d.fields[k])
  {
  }

  /** One turn of the member loop. */
  method AppendMember(buf: Buffer, c: Numbers, d: Decoded, keys: seq<Text>, i: nat, ghost start: Bytes)
      returns (err: Option<NumberError>)
    requires i < |keys| && Has(d, keys) && Covers(Checked(c, d), keys)
    requires var j := Checked(c, d); AllFinite(j) ==> Remaining(buf.data, MembersLeft(j, keys, i), start, Print(j))
    modifies buf
    ensures err == Refusal(c, d.fields[keys[i]])
    ensures var j := Checked(c, d);
            err.None? && AllFinite(j) ==> Remaining(buf.data, MembersLeft(j, keys, i + 1), start, Print(j))
    decreases d, 0, 0
  {
    hide Utf8, Print, Quoted, MembersText, MembersLeft, Remaining, AllFinite, Checked;
    var k := keys[i];
    ghost var j := Checked(c, d);
    CheckedKeys(c, d);
    ghost var finite := AllFinite(j);
    ghost var afterName, afterComma := [], [];
    if finite {
      FieldFinite(j, k);
      MembersLeftStep(j, keys, i);
      afterName := [COLON] + (Print(j.fields[k]) + MembersLeft(j, keys, i + 1));
      afterComma := Quoted(k) + afterName;
    }
    if i > 0 {
      if finite { Wrote(buf.data, [COMMA], afterComma, start, Print(j)); }
      buf.Write([COMMA]);
    } else {
      assert [] + afterComma == afterComma;
    }
    if finite { Wrote(buf.data, Quoted(k), afterName, start, Print(j)); }
    AppendString(buf, k);
    if finite { Wrote(buf.data, [COLON], afterName[1..], start, Print(j)); }
    buf.Write([COLON]);
    ghost var before := buf.data;
    err := Append(buf, c, d.fields[k]);
    if err.None? && finite { Wrote(before, Print(j.fields[k]), MembersLeft(j, keys, i + 1), start, Print(j)); }
  }

  lemma FieldFinite(j: Json, k: Text)
    requires j.Obj? && k in j.fields && AllFinite(j)
    ensures AllFinite(j.fields[k])
  {
  }

  /** JSONCanonicalize from the decoded tree on: a failed call returns no bytes. */
  method Canonicalize(c: Numbers, d: Decoded) returns (r: Result<Bytes, NumberError>)
    ensures Refusal(c, d).Some? ==> r == Err(Refusal(c, d).value)
    ensures Refusal(c, d).None? ==> AllFinite(Checked(c, d)) && r == Ok(Canonical(Checked(c, d)))
  {
    hide Refusal, Checked, AllFinite, Canonical;
    var buf := new Buffer();
    var err := Append(buf, c, d);
    if err.Some? {
      return Err(err.value);
    }
    assert [] + Canonical(Checked(c, d)) == Canonical(Checked(c, d));
    return Ok(buf.data);
  }
}
