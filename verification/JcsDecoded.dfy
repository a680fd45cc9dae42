/** The tree appendJCS is given: JSON decoded with its number literals kept as text, each of which is
    checked before it is printed. */
module JcsDecoded {
  import opened Basics
  import opened Unicode
  import opened JcsText
  import opened Jcs

  /** A decoded JSON value; a number is a literal, or a double where a caller built the tree. */
  datatype Decoded =
    | DNull
    | DBool(b: bool)
    | DNumber(lit: Text)
    | DFloat(f: Float)
    | DStr(s: Text)
    | DArr(items: seq<Decoded>)
    | DObj(fields: map<Text, Decoded>)

  /** The library's literal parser and the exact value of a double. */
  datatype Numbers = Numbers(parse: Text -> Option<Float>, exact: Float -> Option<real>)

  function Check(c: Numbers, lit: Text): Result<Float, NumberError> {
    CheckedNumber(c.parse, c.exact, lit)
  }

  /** The tree with every literal replaced by its double; a refused one counts as not finite. */
  ghost function Checked(c: Numbers, d: Decoded): Json {
    match d
    case DNull => Null
    case DBool(b) => Bool(b)
    case DNumber(lit) => Num(if Check(c, lit).Ok? then Check(c, lit).value else NonFinite)
    case DFloat(f) => Num(f)
    case DStr(s) => Str(s)
    case DArr(items) => Arr(CheckedAll(c, items))
    case DObj(fields) => Obj(map k | k in fields :: Checked(c, fields[k]))
  }

  ghost function CheckedAll(c: Numbers, ds: seq<Decoded>): (r: seq<Json>)
    ensures |r| == |ds|
    ensures forall i :: 0 <= i < |ds| ==> r[i] == Checked(c, ds[i])
  {
    if ds == [] then [] else [Checked(c, ds[0])] + CheckedAll(c, ds[1..])
  }

  ghost predicate Has(d: Decoded, ks: seq<Text>) {
    d.DObj? && forall i :: 0 <= i < |ks| ==> ks[i] in d.fields
  }

  /** The error of the first number that is refused, in the order of printing. */
  ghost function Refusal(c: Numbers, d: Decoded): Option<NumberError>
    decreases d, 1, 0
  {
    match d
    case DNumber(lit) => if Check(c, lit).Err? then Some(Check(c, lit).error) else None
    case DFloat(f) => if f.NonFinite? then Some(NonFiniteNumber) else None
    case DArr(items) => ItemsRefusal(c, items)
    case DObj(fields) =>
      SortedKeysComplete(fields.Keys);
      MembersRefusal(c, d, SortedKeys(fields.Keys))
    case _ => None
  }

  ghost function ItemsRefusal(c: Numbers, ds: seq<Decoded>): Option<NumberError>
    decreases ds, 0, 0
  {
    if ds == [] then None
    else
      var first := Refusal(c, ds[0]);
      if first.Some? then first else ItemsRefusal(c, ds[1..])
  }

  ghost function MembersRefusal(c: Numbers, d: Decoded, ks: seq<Text>): Option<NumberError>
    requires Has(d, ks)
    decreases d, 0, |ks|
  {
    if ks == [] then None
    else
      var first := Refusal(c, d.fields[ks[0]]);
      if first.Some? then first else MembersRefusal(c, d, ks[1..])
  }

  /** Nothing is refused exactly when the checked tree can be printed. */
  lemma {:induction false} RefusedExactly(c: Numbers, d: Decoded)
    ensures Refusal(c, d).None? <==> AllFinite(Checked(c, d))
    decreases d, 1, 0
  {
    hide SortedKeys, CheckedNumber;
    match d
    case DNumber(lit) => CheckedIsFinite(c, lit);
    case DArr(items) =>
      ItemsRefusedExactly(c, items);
      AllItems(c, items);
    case DObj(fields) =>
      SortedKeysComplete(fields.Keys);
      var ks := SortedKeys(fields.Keys);
      MembersRefusedExactly(c, d, ks);
      AllMembers(c, d, ks);
    case _ =>
  }

  lemma AllItems(c: Numbers, ds: seq<Decoded>)
    ensures AllFinite(Arr(CheckedAll(c, ds))) <==> forall i :: 0 <= i < |ds| ==> AllFinite(Checked(c, ds[i]))
  {
    hide Checked, CheckedAll;
    var js := CheckedAll(c, ds);
    assert forall i :: 0 <= i < |ds| ==> js[i] == Checked(c, ds[i]);
    assert AllFinite(Arr(js)) <==> forall i :: 0 <= i < |js| ==> AllFinite(js[i]);
  }

  lemma CheckedIsFinite(c: Numbers, lit: Text)
    ensures Check(c, lit).Ok? ==> !Check(c, lit).value.NonFinite?
  {
    hide IntegerLiteral, IntegerValue;
  }

  lemma {:induction false} ItemsRefusedExactly(c: Numbers, ds: seq<Decoded>)
    ensures ItemsRefusal(c, ds).None? <==> forall i :: 0 <= i < |ds| ==> AllFinite(Checked(c, ds[i]))
    decreases ds, 0, 0
  {
    hide Refusal, Checked, AllFinite;
    if ds != [] {
      RefusedExactly(c, ds[0]);
      ItemsRefusedExactly(c, ds[1..]);
      assert forall i :: 0 < i < |ds| ==> ds[i] == ds[1..][i - 1];
      assert forall i :: 0 <= i < |ds[1..]| ==> ds[1..][i] == ds[i + 1];
    }
  }

  lemma {:induction false} MembersRefusedExactly(c: Numbers, d: Decoded, ks: seq<Text>)
    requires Has(d, ks)
    ensures MembersRefusal(c, d, ks).None? <==> forall i :: 0 <= i < |ks| ==> AllFinite(Checked(c, d.fields[ks[i]]))
    decreases d, 0, |ks|
  {
    hide Refusal, Checked, AllFinite;
    if ks != [] {
      RefusedExactly(c, d.fields[ks[0]]);
      MembersRefusedExactly(c, d, ks[1..]);
      assert forall i :: 0 < i < |ks| ==> ks[i] == ks[1..][i - 1];
      assert forall i :: 0 <= i < |ks[1..]| ==> ks[1..][i] == ks[i + 1];
    }
  }

  lemma AllMembers(c: Numbers, d: Decoded, ks: seq<Text>)
    requires d.DObj? && Has(d, ks) && forall k :: k in d.fields ==> k in ks
    ensures AllFinite(Checked(c, d)) <==> forall i :: 0 <= i < |ks| ==> AllFinite(Checked(c, d.fields[ks[i]]))
  {
    var j := Checked(c, d);
    assert forall k :: k in d.fields ==> j.fields[k] == Checked(c, d.fields[k]);
    if forall i :: 0 <= i < |ks| ==> AllFinite(Checked(c, d.fields[ks[i]])) {
      forall k | k in j.fields
        ensures AllFinite(j.fields[k])
      {
        var i :| 0 <= i < |ks| && ks[i] == k;
      }
    }
  }

  // ---------------------------------------------------------------- canonical bytes of decoded trees

  /** Two trees that pass have the same canonical bytes exactly when their checked trees are equal up to
      signed zero. */
  lemma DecodedCanonicalExactly(c: Numbers, a: Decoded, b: Decoded)
    requires Refusal(c, a).None? && Refusal(c, b).None?
    ensures AllFinite(Checked(c, a)) && AllFinite(Checked(c, b))
    ensures Canonical(Checked(c, a)) == Canonical(Checked(c, b)) <==> Unsigned(Checked(c, a)) == Unsigned(Checked(c, b))
  {
    hide Refusal, Checked, AllFinite, Canonical, Unsigned;
    RefusedExactly(c, a);
    RefusedExactly(c, b);
    CanonicalExactly(Checked(c, a), Checked(c, b));
  }

  /** The trees have one shape, and integer literals in the same place are the same integer. */
  ghost predicate IntegersAgree(a: Decoded, b: Decoded) {
    if a.DNumber? && b.DNumber? then
      IntegerLiteral(a.lit) && IntegerLiteral(b.lit) ==> IntegerValue(a.lit) == IntegerValue(b.lit)
    else if a.DArr? && b.DArr? then
      |a.items| == |b.items| && forall i :: 0 <= i < |a.items| ==> IntegersAgree(a.items[i], b.items[i])
    else if a.DObj? && b.DObj? then
      a.fields.Keys == b.fields.Keys && forall k :: k in a.fields ==> IntegersAgree(a.fields[k], b.fields[k])
    else !a.DArr? && !b.DArr? && !a.DObj? && !b.DObj?
  }

  lemma SameNumber(c: Numbers, a: Text, b: Text)
    requires c.exact(Zero(true)) == c.exact(Zero(false))
    requires Check(c, a).Ok? && Check(c, b).Ok?
    requires Unsigned(Num(Check(c, a).value)) == Unsigned(Num(Check(c, b).value))
    ensures IntegersAgree(DNumber(a), DNumber(b))
  {
    hide IntegerLiteral, IntegerValue, NumberText;
    var f, g := Check(c, a).value, Check(c, b).value;
    CheckedIsFinite(c, a);
    CheckedIsFinite(c, b);
    if f.Zero? { ZeroText(f); }
    if g.Zero? { ZeroText(g); }
    if IntegerLiteral(a) && IntegerLiteral(b) {
      IntegersDoNotCollapse(c.parse, c.exact, a, b);
    }
  }

  lemma {:induction false} SameTreesAgree(c: Numbers, a: Decoded, b: Decoded)
    requires c.exact(Zero(true)) == c.exact(Zero(false))
    requires AllFinite(Checked(c, a)) && AllFinite(Checked(c, b))
    requires Unsigned(Checked(c, a)) == Unsigned(Checked(c, b))
    ensures IntegersAgree(a, b)
    decreases a
  {
    hide Check, IntegerLiteral, IntegerValue;
    var x, y := Checked(c, a), Checked(c, b);
    if a.DNumber? && b.DNumber? {
      SameNumber(c, a.lit, b.lit);
    } else if a.DArr? && b.DArr? {
      var xs, ys := UnsignedAll(x.items), UnsignedAll(y.items);
      assert xs == ys && |xs| == |a.items| && |ys| == |b.items|;
      forall i | 0 <= i < |a.items|
        ensures IntegersAgree(a.items[i], b.items[i])
      {
        assert xs[i] == ys[i];
        SameTreesAgree(c, a.items[i], b.items[i]);
      }
    } else if a.DObj? && b.DObj? {
      assert a.fields.Keys == Unsigned(x).fields.Keys && b.fields.Keys == Unsigned(y).fields.Keys;
      forall k | k in a.fields
        ensures IntegersAgree(a.fields[k], b.fields[k])
      {
        assert Unsigned(x).fields[k] == Unsigned(y).fields[k];
        SameTreesAgree(c, a.fields[k], b.fields[k]);
      }
    }
  }

  /** Equal canonical bytes never hide a difference between two integers. */
  lemma NoIntegerCollapses(c: Numbers, a: Decoded, b: Decoded)
    requires c.exact(Zero(true)) == c.exact(Zero(false))
    requires AllFinite(Checked(c, a)) && AllFinite(Checked(c, b))
    requires Canonical(Checked(c, a)) == Canonical(Checked(c, b))
    ensures IntegersAgree(a, b)
  {
    hide Checked, AllFinite, Canonical, Unsigned, IntegersAgree;
    CanonicalExactly(Checked(c, a), Checked(c, b));
    SameTreesAgree(c, a, b);
  }
}
