/** JSON canonicalization (RFC 8785): the printer, a reader for what it prints, and the result that
    two trees print alike exactly when they are equal but for signed zeros. */
module Jcs {
  import opened Basics
  import opened Sorting
  import opened Unicode
  import opened JcsText

  /** A decoded JSON value. An object is a map: it has no key order. */
  datatype Json =
    | Null
    | Bool(b: bool)
    | Num(f: Float)
    | Str(s: Text)
    | Arr(items: seq<Json>)
    | Obj(fields: map<Text, Json>)

  const COMMA: Rune := 0x2C
  const COLON: Rune := 0x3A
  const OPEN_BRACKET: Rune := 0x5B
  const CLOSE_BRACKET: Rune := 0x5D
  const OPEN_BRACE: Rune := 0x7B
  const CLOSE_BRACE: Rune := 0x7D
  const NULL: Text := [0x6E, 0x75, 0x6C, 0x6C]
  const TRUE: Text := [0x74, 0x72, 0x75, 0x65]
  const FALSE: Text := [0x66, 0x61, 0x6C, 0x73, 0x65]

  ghost predicate AllFinite(j: Json) {
    match j
    case Num(f) => !f.NonFinite?
    case Arr(items) => forall i :: 0 <= i < |items| ==> AllFinite(items[i])
    case Obj(fields) => forall k :: k in fields ==> AllFinite(fields[k])
    case _ => true
  }

  /** The value without the signs of its zeros. */
  ghost function Unsigned(j: Json): Json {
    match j
    case Num(f) => if f.Zero? then Num(Zero(false)) else j
    case Arr(items) => Arr(UnsignedAll(items))
    case Obj(fields) => Obj(map k | k in fields :: Unsigned(fields[k]))
    case _ => j
  }

  ghost function UnsignedAll(js: seq<Json>): (r: seq<Json>)
    ensures |r| == |js|
    ensures forall i :: 0 <= i < |js| ==> r[i] == Unsigned(js[i])
  {
    if js == [] then [] else [Unsigned(js[0])] + UnsignedAll(js[1..])
  }

  // ---------------------------------------------------------------- key order

  ghost function Enumerate(s: set<Text>): seq<Text> {
    if s == {} then []
    else
      var k :| k in s;
      [k] + Enumerate(s - {k})
  }

  /** The keys in UTF-16 order. */
  ghost function SortedKeys(s: set<Text>): seq<Text> {
    Sort(Utf16, Enumerate(s))
  }

  lemma {:induction false} EnumerateAll(s: set<Text>)
    ensures multiset(Enumerate(s)) == multiset(s)
  {
    if s != {} {
      var k :| k in s && Enumerate(s) == [k] + Enumerate(s - {k});
      EnumerateAll(s - {k});
      assert s == (s - {k}) + {k};
      assert multiset(s) == multiset(s - {k}) + multiset{k};
    }
  }

  /** However the keys are listed, sorting gives one and the same list. */
  lemma SortedKeysUnique(s: set<Text>, keys: seq<Text>)
    requires multiset(keys) == multiset(s)
    ensures Sort(Utf16, keys) == SortedKeys(s)
  {
    EnumerateAll(s);
    KeyIsInjective();
    SortPermutation(Utf16, keys, Enumerate(s));
  }

  lemma {:induction false} SetHasNoRepeats(s: set<Text>, ks: seq<Text>, i: nat)
    requires multiset(ks) == multiset(s) && 0 < i < |ks|
    ensures ks[i - 1] != ks[i]
  {
    assert ks == ks[..i - 1] + [ks[i - 1], ks[i]] + ks[i + 1..];
    assert multiset(ks) == multiset(ks[..i - 1]) + multiset{ks[i - 1], ks[i]} + multiset(ks[i + 1..]);
    assert ks[i - 1] == ks[i] ==> multiset(ks)[ks[i]] >= 2;
  }

  lemma SameMembers(s: set<Text>, ks: seq<Text>)
    requires multiset(ks) == multiset(s)
    ensures forall k :: k in ks <==> k in s
    ensures s == {} <==> ks == []
  {
    forall k
      ensures k in ks <==> k in s
    {
      assert k in ks <==> k in multiset(ks);
    }
    if ks != [] {
      assert ks[0] in s;
    }
  }

  /** Every key once, in strictly increasing UTF-16 order. */
  lemma SortedKeysComplete(s: set<Text>)
    ensures forall k :: k in SortedKeys(s) <==> k in s
    ensures s == {} <==> SortedKeys(s) == []
    ensures Ascending(Utf16, SortedKeys(s))
  {
    hide Utf16, Sort, Enumerate, LexLess;
    EnumerateAll(s);
    SortCorrect(Utf16, Enumerate(s));
    var ks := SortedKeys(s);
    SameMembers(s, ks);
    KeyIsInjective();
    forall i | 0 < i < |ks|
      ensures ks[i - 1] != ks[i]
    {
      SetHasNoRepeats(s, ks, i);
    }
    AdjacentDistinctAscending(Utf16, ks);
  }

  // ---------------------------------------------------------------- the printer

  ghost predicate Covers(j: Json, ks: seq<Text>) {
    j.Obj? && forall i :: 0 <= i < |ks| ==> ks[i] in j.fields
  }

  ghost function Print(j: Json): Text
    requires AllFinite(j)
    decreases j, 1, 0
  {
    match j
    case Null => NULL
    case Bool(b) => if b then TRUE else FALSE
    case Num(f) => NumberText(f)
    case Str(s) => Quoted(s)
    case Arr(items) => [OPEN_BRACKET] + (if items == [] then [CLOSE_BRACKET] else ItemsText(items))
    case Obj(fields) =>
      SortedKeysComplete(fields.Keys);
      var ks := SortedKeys(fields.Keys);
      [OPEN_BRACE] + (if ks == [] then [CLOSE_BRACE] else MembersText(j, ks))
  }

  /** The items from here on, with the closing bracket. */
  ghost function ItemsText(js: seq<Json>): Text
    requires js != [] && forall i :: 0 <= i < |js| ==> AllFinite(js[i])
    decreases js, 0, 0
  {
    Print(js[0]) + (if |js| == 1 then [CLOSE_BRACKET] else [COMMA] + ItemsText(js[1..]))
  }

  /** The members from here on, with the closing brace. */
  ghost function MembersText(j: Json, ks: seq<Text>): Text
    requires ks != [] && Covers(j, ks) && AllFinite(j)
    decreases j, 0, |ks|
  {
    var k := ks[0];
    Quoted(k) + [COLON] + Print(j.fields[k])
    + (if |ks| == 1 then [CLOSE_BRACE] else [COMMA] + MembersText(j, ks[1..]))
  }

  // ---------------------------------------------------------------- the reader

  function TokenLength(t: Text): (n: nat)
    ensures n <= |t|
  {
    if t == [] || !NumberChar(t[0]) then 0 else 1 + TokenLength(t[1..])
  }

  function ReadToken(t: Text): (r: Option<(Json, Text)>)
    ensures r.Some? ==> |r.value.1| < |t|
  {
    var n := TokenLength(t);
    if n == 0 then None
    else
      var f := ReadNumber(t[..n]);
      if f.None? then None else Some((Num(f.value), t[n..]))
  }

  /** A JSON value at the head of t, and what follows it (sections 3 to 7 of RFC 8259, without
      white space). */
  function ReadValue(t: Text): (r: Option<(Json, Text)>)
    ensures r.Some? ==> |r.value.1| < |t|
    decreases |t|, 0
  {
    if t == [] then None
    else if t[0] == QUOTE then
      var s := ReadString(t[1..]);
      if s.None? then None else Some((Str(s.value.0), s.value.1))
    else if t[0] == OPEN_BRACKET then
      if |t| > 1 && t[1] == CLOSE_BRACKET then Some((Arr([]), t[2..]))
      else
        var items := ReadItems(t[1..]);
        if items.None? then None else Some((Arr(items.value.0), items.value.1))
    else if t[0] == OPEN_BRACE then
      if |t| > 1 && t[1] == CLOSE_BRACE then Some((Obj(map[]), t[2..]))
      else
        var members := ReadMembers(t[1..]);
        if members.None? then None else Some((Obj(members.value.0), members.value.1))
    else if NULL <= t then Some((Null, t[4..]))
    else if TRUE <= t then Some((Bool(true), t[4..]))
    else if FALSE <= t then Some((Bool(false), t[5..]))
    else ReadToken(t)
  }

  function ReadItems(t: Text): (r: Option<(seq<Json>, Text)>)
    ensures r.Some? ==> |r.value.1| < |t|
    decreases |t|, 1
  {
    var v := ReadValue(t);
    if v.None? then None
    else
      var (j, rest) := v.value;
      if rest == [] then None
      else if rest[0] == CLOSE_BRACKET then Some(([j], rest[1..]))
      else if rest[0] != COMMA then None
      else
        var more := ReadItems(rest[1..]);
        if more.None? then None else Some(([j] + more.value.0, more.value.1))
  }

  /** The last of two members with one name wins. */
  function ReadMembers(t: Text): (r: Option<(map<Text, Json>, Text)>)
    ensures r.Some? ==> |r.value.1| < |t|
    decreases |t|, 1
  {
    var m := ReadMember(t);
    if m.None? then None
    else
      var (k, j, rest) := m.value;
      if rest == [] then None
      else if rest[0] == CLOSE_BRACE then Some((map[k := j], rest[1..]))
      else if rest[0] != COMMA then None
      else
        var more := ReadMembers(rest[1..]);
        if more.None? then None else Some((map[k := j] + more.value.0, more.value.1))
  }

  function ReadMember(t: Text): (r: Option<(Text, Json, Text)>)
    ensures r.Some? ==> |r.value.2| < |t|
    decreases |t|, 0
  {
    if t == [] || t[0] != QUOTE then None
    else
      var s := ReadString(t[1..]);
      if s.None? || s.value.1 == [] || s.value.1[0] != COLON then None
      else
        var v := ReadValue(s.value.1[1..]);
        if v.None? then None else Some((s.value.0, v.value.0, v.value.1))
  }

  // ---------------------------------------------------------------- the text means the value

  /** What may follow a value: nothing that would prolong a number. */
  predicate Stop(u: Text) {
    u == [] || !NumberChar(u[0])
  }

  lemma {:induction false} TokenStops(t: Text, u: Text)
    requires NumberChars(t) && Stop(u)
    ensures TokenLength(t + u) == |t|
  {
    if t == [] {
      assert t + u == u;
    } else {
      assert (t + u)[1..] == t[1..] + u;
      TokenStops(t[1..], u);
    }
  }

  lemma NumberIsToken(f: Float)
    requires !f.NonFinite?
    ensures NumberText(f) != [] && NumberChars(NumberText(f))
  {
    hide Magnitude, NumberChars;
    if f.Zero? {
      PartChars([0], 0);
    } else {
      MagnitudeChars(f.digits, f.n);
      MinusChar();
      JoinChars([MINUS], Magnitude(f.digits, f.n));
      assert [] + Magnitude(f.digits, f.n) == Magnitude(f.digits, f.n);
    }
  }

  lemma MinusChar()
    ensures NumberChars([MINUS])
  {
  }

  lemma TokenDispatch(t: Text)
    requires t != [] && NumberChar(t[0])
    ensures ReadValue(t) == ReadToken(t)
  {
    hide ReadItems, ReadMembers, ReadToken, ReadString;
    assert NULL[0] != t[0] && TRUE[0] != t[0] && FALSE[0] != t[0];
  }

  lemma NumReads(f: Float, u: Text)
    requires !f.NonFinite? && Stop(u)
    ensures ReadValue(NumberText(f) + u) == Some((Unsigned(Num(f)), u))
  {
    hide NumberText, ReadNumber, NumberChar, ReadValue, TokenLength;
    var t := NumberText(f);
    NumberIsToken(f);
    assert NumberChar(t[0]);
    TokenDispatch(t + u);
    TokenStops(t, u);
    NumberReads(f);
    assert (t + u)[..|t|] == t && (t + u)[|t|..] == u;
  }

  lemma StrReads(s: Text, u: Text)
    ensures ReadValue(Quoted(s) + u) == Some((Str(s), u))
  {
    hide Escapes, ReadString;
    var t := Quoted(s) + u;
    assert t[0] == QUOTE && t[1..] == Escapes(s) + [QUOTE] + u;
    StringReads(s, u);
  }

  lemma WordReads(w: Text, u: Text)
    requires w == NULL || w == TRUE || w == FALSE
    ensures ReadValue(w + u) == Some((if w == NULL then Null else Bool(w == TRUE), u))
  {
    hide ReadItems, ReadMembers, ReadToken, ReadString;
    var t := w + u;
    assert w <= t && t[|w|..] == u;
    assert t[0] == w[0];
  }

  lemma EmptyReads(u: Text)
    ensures ReadValue([OPEN_BRACKET] + [CLOSE_BRACKET] + u) == Some((Arr([]), u))
    ensures ReadValue([OPEN_BRACE] + [CLOSE_BRACE] + u) == Some((Obj(map[]), u))
  {
    var t, o := [OPEN_BRACKET] + [CLOSE_BRACKET] + u, [OPEN_BRACE] + [CLOSE_BRACE] + u;
    assert t[0] == OPEN_BRACKET && t[1] == CLOSE_BRACKET && t[2..] == u;
    assert o[0] == OPEN_BRACE && o[1] == CLOSE_BRACE && o[2..] == u;
  }

  lemma ArrayReads(t: Text, u: Text, items: seq<Json>)
    requires t != [] && t[0] != CLOSE_BRACKET && ReadItems(t + u) == Some((items, u))
    ensures ReadValue([OPEN_BRACKET] + t + u) == Some((Arr(items), u))
  {
    hide ReadItems, ReadMembers, ReadToken, ReadString;
    var all := [OPEN_BRACKET] + t + u;
    assert all[0] == OPEN_BRACKET && all[1] == t[0] && all[1..] == t + u;
  }

  lemma ObjectReads(t: Text, u: Text, fields: map<Text, Json>)
    requires t != [] && t[0] != CLOSE_BRACE && ReadMembers(t + u) == Some((fields, u))
    ensures ReadValue([OPEN_BRACE] + t + u) == Some((Obj(fields), u))
  {
    hide ReadItems, ReadMembers, ReadToken, ReadString;
    var all := [OPEN_BRACE] + t + u;
    assert all[0] == OPEN_BRACE && all[1] == t[0] && all[1..] == t + u;
  }

  /** No value starts with a closing bracket. */
  lemma PrintHead(j: Json)
    requires AllFinite(j)
    ensures Print(j) != [] && Print(j)[0] != CLOSE_BRACKET
  {
    hide NumberText, ItemsText, MembersText, SortedKeys, Escapes;
    if j.Num? {
      NumberIsToken(j.f);
      assert NumberChar(NumberText(j.f)[0]);
    } else if j.Obj? {
      SortedKeysComplete(j.fields.Keys);
    }
  }

  lemma ItemsHead(js: seq<Json>)
    requires js != [] && forall i :: 0 <= i < |js| ==> AllFinite(js[i])
    ensures ItemsText(js) != [] && ItemsText(js)[0] != CLOSE_BRACKET
  {
    hide Print;
    PrintHead(js[0]);
  }

  /** Reading what was printed gives the value back, unsigned, with nothing lost after it. */
  lemma {:induction false} PrintReads(j: Json, u: Text)
    requires AllFinite(j) && Stop(u)
    ensures ReadValue(Print(j) + u) == Some((Unsigned(j), u))
    decreases j, 1, 0
  {
    hide ReadValue, ReadItems, ReadMembers, Quoted, NumberText, ItemsText, MembersText, SortedKeys, Stop;
    match j
    case Null => WordReads(NULL, u);
    case Bool(b) => WordReads(if b then TRUE else FALSE, u);
    case Num(f) => NumReads(f, u);
    case Str(s) => StrReads(s, u);
    case Arr(items) =>
      if items == [] {
        EmptyReads(u);
        assert UnsignedAll(items) == [];
      } else {
        ItemsRead(items, u);
        ItemsHead(items);
        ArrayReads(ItemsText(items), u, UnsignedAll(items));
      }
    case Obj(fields) =>
      SortedKeysComplete(fields.Keys);
      ObjectPrintReads(j, SortedKeys(fields.Keys), u);
  }

  lemma {:induction false} ObjectPrintReads(j: Json, ks: seq<Text>, u: Text)
    requires Covers(j, ks) && AllFinite(j) && Stop(u)
    requires forall k :: k in ks <==> k in j.fields
    ensures var t := if ks == [] then [CLOSE_BRACE] else MembersText(j, ks);
            ReadValue([OPEN_BRACE] + t + u) == Some((Unsigned(j), u))
    decreases j, 0, |ks| + 1
  {
    hide ReadValue, ReadMembers, MembersText, AllFinite, Stop;
    if ks == [] {
      EmptyReads(u);
      assert Unsigned(j).fields == map[];
    } else {
      MembersRead(j, ks, u);
      MembersHead(j, ks);
      ObjectReads(MembersText(j, ks), u, Picked(j, ks));
      assert Picked(j, ks) == Unsigned(j).fields;
    }
  }

  lemma {:induction false} ItemsRead(js: seq<Json>, u: Text)
    requires js != [] && (forall i :: 0 <= i < |js| ==> AllFinite(js[i])) && Stop(u)
    ensures ReadItems(ItemsText(js) + u) == Some((UnsignedAll(js), u))
    decreases js, 0, 0
  {
    hide ReadValue, Print, AllFinite, Unsigned, UnsignedAll;
    var t := ItemsText(js) + u;
    if |js| == 1 {
      var rest := [CLOSE_BRACKET] + u;
      PrintReads(js[0], rest);
      assert t == Print(js[0]) + rest;
      assert rest[1..] == u;
      assert UnsignedAll(js) == [Unsigned(js[0])];
    } else {
      var rest := [COMMA] + (ItemsText(js[1..]) + u);
      PrintReads(js[0], rest);
      ItemsRead(js[1..], u);
      assert t == Print(js[0]) + rest;
      assert rest[1..] == ItemsText(js[1..]) + u;
      assert UnsignedAll(js) == [Unsigned(js[0])] + UnsignedAll(js[1..]);
    }
  }

  /** The members named by ks, unsigned. */
  ghost function Picked(j: Json, ks: seq<Text>): map<Text, Json>
    requires Covers(j, ks)
  {
    map k | k in ks :: Unsigned(j.fields[k])
  }

  lemma MembersHead(j: Json, ks: seq<Text>)
    requires ks != [] && Covers(j, ks) && AllFinite(j)
    ensures MembersText(j, ks) != [] && MembersText(j, ks)[0] == QUOTE
  {
    hide Print, Escapes;
  }

  lemma {:induction false} MemberReads(k: Text, j: Json, rest: Text)
    requires AllFinite(j) && Stop(rest)
    ensures ReadMember(Quoted(k) + [COLON] + Print(j) + rest) == Some((k, Unsigned(j), rest))
    decreases j, 2, 0
  {
    hide ReadValue, ReadString, Escapes, Print, AllFinite, Unsigned, Stop;
    var t := Quoted(k) + [COLON] + Print(j) + rest;
    var tail := [COLON] + (Print(j) + rest);
    assert t[1..] == Escapes(k) + [QUOTE] + tail;
    StringReads(k, tail);
    PrintReads(j, rest);
    assert tail[1..] == Print(j) + rest;
  }

  lemma PickedUnfold(j: Json, ks: seq<Text>)
    requires ks != [] && Covers(j, ks)
    ensures var first := map[ks[0] := Unsigned(j.fields[ks[0]])];
            Picked(j, ks) == if |ks| == 1 then first else first + Picked(j, ks[1..])
  {
    hide Unsigned;
  }

  lemma {:induction false} MembersRead(j: Json, ks: seq<Text>, u: Text)
    requires ks != [] && Covers(j, ks) && AllFinite(j) && Stop(u)
    ensures ReadMembers(MembersText(j, ks) + u) == Some((Picked(j, ks), u))
    decreases j, 0, |ks|
  {
    hide ReadMember, Print, Unsigned, Quoted, Picked;
    var k, t := ks[0], MembersText(j, ks) + u;
    var head := Quoted(k) + [COLON] + Print(j.fields[k]);
    PickedUnfold(j, ks);
    if |ks| == 1 {
      var rest := [CLOSE_BRACE] + u;
      MemberReads(k, j.fields[k], rest);
      Regroup(head, [CLOSE_BRACE], u);
      assert rest[1..] == u;
    } else {
      var more := MembersText(j, ks[1..]);
      var rest := [COMMA] + (more + u);
      MemberReads(k, j.fields[k], rest);
      MembersRead(j, ks[1..], u);
      assert t == head + rest;
      assert rest[1..] == more + u;
    }
  }

  // ---------------------------------------------------------------- printing is canonical

  /** Zero signs do not show, so they may be dropped first. */
  lemma {:induction false} PrintUnsigned(j: Json)
    requires AllFinite(j)
    ensures AllFinite(Unsigned(j)) && Print(Unsigned(j)) == Print(j)
    decreases j, 1, 0
  {
    hide NumberText, Quoted, SortedKeys, ItemsText, MembersText;
    match j
    case Num(f) =>
      if f.Zero? { ZeroText(f); }
    case Arr(items) =>
      if items != [] { ItemsUnsigned(items); }
    case Obj(fields) =>
      forall k | k in fields
        ensures AllFinite(Unsigned(fields[k]))
      {
        PrintUnsigned(fields[k]);
      }
      assert Unsigned(j).fields.Keys == fields.Keys;
      SortedKeysComplete(fields.Keys);
      var ks := SortedKeys(fields.Keys);
      if ks != [] { MembersUnsigned(j, ks); }
    case _ =>
  }

  lemma ZeroText(f: Float)
    requires f.Zero?
    ensures NumberText(f) == NumberText(Zero(false))
  {
  }

  lemma {:induction false} ItemsUnsigned(js: seq<Json>)
    requires js != [] && forall i :: 0 <= i < |js| ==> AllFinite(js[i])
    ensures forall i :: 0 <= i < |js| ==> AllFinite(UnsignedAll(js)[i])
    ensures ItemsText(UnsignedAll(js)) == ItemsText(js)
    decreases js, 0, 0
  {
    hide Print, AllFinite, Unsigned;
    var us := UnsignedAll(js);
    PrintUnsigned(js[0]);
    if |js| > 1 {
      ItemsUnsigned(js[1..]);
      assert us[1..] == UnsignedAll(js[1..]);
      assert forall i :: 0 < i < |js| ==> us[i] == UnsignedAll(js[1..])[i - 1];
    }
  }

  lemma {:induction false} MembersUnsigned(j: Json, ks: seq<Text>)
    requires ks != [] && Covers(j, ks) && AllFinite(j) && AllFinite(Unsigned(j)) && Covers(Unsigned(j), ks)
    ensures MembersText(Unsigned(j), ks) == MembersText(j, ks)
    decreases j, 0, |ks|
  {
    hide Print, Quoted;
    var k := ks[0];
    PrintUnsigned(j.fields[k]);
    assert Unsigned(j).fields[k] == Unsigned(j.fields[k]);
    if |ks| > 1 {
      MembersUnsigned(j, ks[1..]);
    }
  }

  /** The canonical bytes: the UTF-8 of the printed text. */
  ghost function Canonical(j: Json): Bytes
    requires AllFinite(j)
  {
    Utf8(Print(j))
  }

  /** Two values have the same canonical bytes exactly when they differ in zero signs at most;
      key order cannot matter, a map having none. */
  lemma CanonicalExactly(a: Json, b: Json)
    requires AllFinite(a) && AllFinite(b)
    ensures Canonical(a) == Canonical(b) <==> Unsigned(a) == Unsigned(b)
  {
    hide Print, AllFinite, Unsigned, ReadValue, Utf8;
    if Canonical(a) == Canonical(b) {
      Utf8Injective(Print(a), Print(b));
      PrintReads(a, []);
      PrintReads(b, []);
    }
    if Unsigned(a) == Unsigned(b) {
      PrintUnsigned(a);
      PrintUnsigned(b);
    }
  }
}
