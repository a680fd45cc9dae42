/** Authorities and claims: authority/authority.go, authority/canonical.go, claim/claim.go. */
module Authorities {
  import opened Basics

  type Time = int

  datatype Capability = Capability(namespace: string, name: string)
  datatype TimeWindow = TimeWindow(start: Time, end: Time)
  datatype Quantity = Quantity(unit: string, limit: int)
  datatype Monetary = Monetary(currency: string, limit: real)

  datatype Scope = Scope(
    resources: seq<string>, subjects: seq<string>, actions: seq<string>,
    organizations: seq<string>, geography: seq<string>, channels: seq<string>,
    timeWindow: Option<TimeWindow>, quantity: Option<Quantity>, monetary: Option<Monetary>)

  datatype Validity = Validity(notBefore: Time, notAfter: Time)
  datatype Proof = Proof(algorithm: int, keyID: string, signature: Bytes)

  const STATUS_ACTIVE := 1
  const STATUS_REVOKED := 2
  const STATUS_SUPERSEDED := 3
  const STATUS_EXPIRED := 4

  /** parent is the hex canonical hash of the delegating authority; None marks a root. */
  datatype Authority = Authority(
    subject: string, parent: Option<string>, capabilities: seq<Capability>, scope: Scope,
    validity: Validity, maxDepth: Option<int>, status: int, proof: Proof)

  /** The authority with its proof signature cleared: what CanonicalHash digests. */
  function Unsigned(a: Authority): Authority {
    a.(proof := a.proof.(signature := []))
  }

  /** The canonical digest of an unsigned authority; None when it has no canonical encoding. */
  type Canon = Authority -> Option<Digest>

  const HEX_DIGITS := "0123456789abcdef"

  function Hex(b: Bytes): string {
    if b == [] then "" else Hex(b[..|b| - 1]) + HexPair(b[|b| - 1])
  }

  function HexPair(x: byte): (r: string)
    ensures |r| == 2
  {
    [HEX_DIGITS[x / 16], HEX_DIGITS[x % 16]]
  }

  lemma HexPairInjective(x: byte, y: byte)
    requires HexPair(x) == HexPair(y)
    ensures x == y
  {
    assert HexPair(x)[0] == HexPair(y)[0] && HexPair(x)[1] == HexPair(y)[1];
    HexDigitInjective(x / 16, y / 16);
    HexDigitInjective(x % 16, y % 16);
  }

  lemma {:induction false} HexInjective(a: Bytes, b: Bytes)
    requires Hex(a) == Hex(b)
    ensures a == b
  {
    hide HexPair;
    HexLength(a);
    HexLength(b);
    if a != [] {
      var i := |a| - 1;
      HexLength(a[..i]);
      HexLength(b[..i]);
      assert Hex(a)[..2 * i] == Hex(a[..i]) && Hex(b)[..2 * i] == Hex(b[..i]);
      assert Hex(a)[2 * i..] == HexPair(a[i]) && Hex(b)[2 * i..] == HexPair(b[i]);
      HexInjective(a[..i], b[..i]);
      HexPairInjective(a[i], b[i]);
      assert a == a[..i] + [a[i]] && b == b[..i] + [b[i]];
    }
  }

  lemma HexDigitInjective(x: nat, y: nat)
    requires x < 16 && y < 16 && HEX_DIGITS[x] == HEX_DIGITS[y]
    ensures x == y
  {
    assert forall i: nat {:trigger HEX_DIGITS[i]} :: i < 10 ==> HEX_DIGITS[i] as int == '0' as int + i;
    assert forall i: nat {:trigger HEX_DIGITS[i]} :: 10 <= i < 16 ==> HEX_DIGITS[i] as int == 'a' as int + i - 10;
  }

  lemma {:induction false} HexLength(b: Bytes)
    ensures |Hex(b)| == 2 * |b|
  {
    if b != [] {
      HexLength(b[..|b| - 1]);
    }
  }

  /** The reference by which a child names its parent. */
  function Ref(canon: Canon, a: Authority): Option<string> {
    match canon(Unsigned(a))
    case None => None
    case Some(h) => Some(Hex(h))
  }

  /** Two authorities that differ in more than their proof signature, under one digest. */
  predicate CanonCollision(canon: Canon, a: Authority, b: Authority) {
    Unsigned(a) != Unsigned(b) && canon(Unsigned(a)).Some? && canon(Unsigned(a)) == canon(Unsigned(b))
  }

  /** One reference names one authority, up to its proof signature, or two authorities collide. */
  lemma RefBinds(canon: Canon, a: Authority, b: Authority)
    requires Ref(canon, a).Some? && Ref(canon, a) == Ref(canon, b)
    ensures Unsigned(a) == Unsigned(b) || CanonCollision(canon, a, b)
  {
    HexInjective(canon(Unsigned(a)).value, canon(Unsigned(b)).value);
  }
}
