/** Proof Key for Code Exchange: auth/oauth/pkce.go (sections 4.1, 4.2 and 4.6 of RFC 7636). */
module Pkce {
  import opened Basics

  // ---------------------------------------------------------------- base64url without padding

  type Sextet = x: int | 0 <= x < 64

  /** The URL-safe alphabet of section 5 of RFC 4648. */
  function Symbol(x: Sextet): byte {
    if x < 26 then 'A' as int + x
    else if x < 52 then 'a' as int + x - 26
    else if x < 62 then '0' as int + x - 52
    else if x == 62 then '-' as int else '_' as int
  }

  function SymbolValue(c: byte): Option<Sextet> {
    if 'A' as int <= c <= 'Z' as int then Some(c - 'A' as int)
    else if 'a' as int <= c <= 'z' as int then Some(c - 'a' as int + 26)
    else if '0' as int <= c <= '9' as int then Some(c - '0' as int + 52)
    else if c == '-' as int then Some(62)
    else if c == '_' as int then Some(63)
    else None
  }

  /** RawURLEncoding: three bytes in four symbols, the rest in two or three. */
  function Base64(b: Bytes): Bytes {
    if b == [] then []
    else if |b| == 1 then [Symbol(b[0] / 4), Symbol(b[0] % 4 * 16)]
    else if |b| == 2 then [Symbol(b[0] / 4), Symbol(b[0] % 4 * 16 + b[1] / 16), Symbol(b[1] % 16 * 4)]
    else [Symbol(b[0] / 4), Symbol(b[0] % 4 * 16 + b[1] / 16), Symbol(b[1] % 16 * 4 + b[2] / 64), Symbol(b[2] % 64)] + Base64(b[3..])
  }

  /** The text read back, symbol by symbol. */
  function Unbase64(t: Bytes): Option<Bytes> {
    if t == [] then Some([])
    else if |t| == 1 then None
    else
      var a, b := SymbolValue(t[0]), SymbolValue(t[1]);
      if a.None? || b.None? then None
      else if |t| == 2 then Some([a.value * 4 + b.value / 16])
      else
        var c := SymbolValue(t[2]);
        if c.None? then None
        else if |t| == 3 then Some([a.value * 4 + b.value / 16, b.value % 16 * 16 + c.value / 4])
        else
          var d := SymbolValue(t[3]);
          var rest := Unbase64(t[4..]);
          if d.None? || rest.None? then None
          else Some([a.value * 4 + b.value / 16, b.value % 16 * 16 + c.value / 4, c.value % 4 * 64 + d.value] + rest.value)
  }

  lemma SymbolReads(x: Sextet)
    ensures SymbolValue(Symbol(x)) == Some(x) && Unreserved(Symbol(x))
  {
  }

  lemma Regrouped(x: byte, y: byte, z: byte)
    ensures x % 4 * 16 / 16 == x % 4 && x / 4 * 4 + x % 4 == x
    ensures var s := x % 4 * 16 + y / 16; s < 64 && s / 16 == x % 4 && s % 16 == y / 16 && y / 16 * 16 + y % 16 == y
    ensures var s := y % 16 * 4 + z / 64; s < 64 && s / 4 == y % 16 && s % 4 == z / 64 && z / 64 * 64 + z % 64 == z
    ensures y % 16 * 4 / 4 == y % 16
  {
  }

  lemma OneReads(x: byte)
    ensures Unbase64([Symbol(x / 4), Symbol(x % 4 * 16)]) == Some([x])
  {
    hide Symbol, SymbolValue, Unreserved;
    Regrouped(x, 0, 0);
    SymbolReads(x / 4);
    SymbolReads(x % 4 * 16);
  }

  lemma TwoRead(x: byte, y: byte)
    ensures Unbase64([Symbol(x / 4), Symbol(x % 4 * 16 + y / 16), Symbol(y % 16 * 4)]) == Some([x, y])
  {
    hide Symbol, SymbolValue, Unreserved;
    Regrouped(x, y, 0);
    SymbolReads(x / 4);
    SymbolReads(x % 4 * 16 + y / 16);
    SymbolReads(y % 16 * 4);
    var t := [Symbol(x / 4), Symbol(x % 4 * 16 + y / 16), Symbol(y % 16 * 4)];
    assert |t| == 3 && t[0] == Symbol(x / 4) && t[1] == Symbol(x % 4 * 16 + y / 16) && t[2] == Symbol(y % 16 * 4);
  }

  lemma FourSymbols(t: Bytes, p: Sextet, q: Sextet, r: Sextet, s: Sextet)
    requires |t| >= 4 && Unbase64(t[4..]).Some?
    requires t[0] == Symbol(p) && t[1] == Symbol(q) && t[2] == Symbol(r) && t[3] == Symbol(s)
    ensures Unbase64(t) == Some([p * 4 + q / 16, q % 16 * 16 + r / 4, r % 4 * 64 + s] + Unbase64(t[4..]).value)
  {
    hide Symbol, SymbolValue, Unreserved;
    SymbolReads(p);
    SymbolReads(q);
    SymbolReads(r);
    SymbolReads(s);
  }

  lemma ThreeRead(x: byte, y: byte, z: byte, t: Bytes)
    requires |t| >= 4 && Unbase64(t[4..]).Some?
    requires t[..4] == [Symbol(x / 4), Symbol(x % 4 * 16 + y / 16), Symbol(y % 16 * 4 + z / 64), Symbol(z % 64)]
    ensures Unbase64(t) == Some([x, y, z] + Unbase64(t[4..]).value)
  {
    hide Symbol, Unbase64;
    Regrouped(x, y, z);
    assert t[0] == t[..4][0] && t[1] == t[..4][1] && t[2] == t[..4][2] && t[3] == t[..4][3];
    FourSymbols(t, x / 4, x % 4 * 16 + y / 16, y % 16 * 4 + z / 64, z % 64);
  }

  /** Base64 loses nothing and needs a fixed number of symbols: 43 for a 32-byte digest. */
  lemma {:induction false} Base64Reads(b: Bytes)
    ensures Unbase64(Base64(b)) == Some(b) && |Base64(b)| == (4 * |b| + 2) / 3
  {
    hide Symbol, Unbase64;
    if b == [] {
      NothingReads();
    } else if |b| == 1 {
      OneReads(b[0]);
      assert b == [b[0]];
    } else if |b| == 2 {
      TwoRead(b[0], b[1]);
      assert b == [b[0], b[1]];
    } else {
      Base64Reads(b[3..]);
      assert Base64(b)[4..] == Base64(b[3..]);
      ThreeRead(b[0], b[1], b[2], Base64(b));
      assert b == [b[0], b[1], b[2]] + b[3..];
    }
  }

  lemma NothingReads()
    ensures Unbase64([]) == Some([])
  {
  }

  lemma {:induction false} Base64Unreserved(b: Bytes)
    ensures forall i :: 0 <= i < |Base64(b)| ==> Unreserved(Base64(b)[i])
  {
    hide Symbol, Unreserved;
    forall x: Sextet
      ensures Unreserved(Symbol(x))
    {
      SymbolReads(x);
    }
    if |b| > 2 {
      Base64Unreserved(b[3..]);
    }
  }

  // ---------------------------------------------------------------- the check

  /** The unreserved characters of section 2.3 of RFC 3986. */
  predicate Unreserved(c: byte) {
    || 'A' as int <= c <= 'Z' as int || 'a' as int <= c <= 'z' as int || '0' as int <= c <= '9' as int
    || c == '-' as int || c == '.' as int || c == '_' as int || c == '~' as int
  }

  predicate Grammar(s: Bytes) {
    43 <= |s| <= 128 && forall i :: 0 <= i < |s| ==> Unreserved(s[i])
  }

  method ValidPKCEGrammar(s: Bytes) returns (ok: bool)
    ensures ok == Grammar(s)
  {
    if |s| < 43 || |s| > 128 {
      return false;
    }
    for i := 0 to |s|
      invariant forall k :: 0 <= k < i ==> Unreserved(s[k])
    {
      if !Unreserved(s[i]) {
        return false;
      }
    }
    return true;
  }

  /** VerifyPKCE, over an arbitrary hash. */
  function VerifyPKCE(H: Hash, verifier: Bytes, challenge: Bytes, method_: string): bool {
    if method_ == "plain" then false
    else if method_ != "S256" then false
    else if !Grammar(verifier) || !Grammar(challenge) then false
    else Base64(H(verifier)) == challenge
  }

  /** A verifier passes exactly under method S256, with 43 to 128 unreserved characters, and when the
      challenge reads back as its digest: the grammar of the challenge then holds by itself. */
  lemma VerifiesExactly(H: Hash, verifier: Bytes, challenge: Bytes, method_: string)
    ensures VerifyPKCE(H, verifier, challenge, method_) <==>
            && method_ == "S256"
            && 43 <= |verifier| <= 128 && (forall c :: c in verifier ==> Unreserved(c))
            && challenge == Base64(H(verifier))
    ensures VerifyPKCE(H, verifier, challenge, method_) ==> |challenge| == 43 && Unbase64(challenge) == Some(H(verifier))
  {
    hide Base64, Unbase64, Unreserved;
    Base64Reads(H(verifier));
    Base64Unreserved(H(verifier));
    if Grammar(verifier) {
      forall c | c in verifier
        ensures Unreserved(c)
      {
        var i :| 0 <= i < |verifier| && verifier[i] == c;
      }
    }
  }

  /** A challenge binds its verifier: two verifiers that pass are one, or they collide. */
  lemma ChallengeBinds(H: Hash, v: Bytes, w: Bytes, challenge: Bytes, method_: string)
    requires VerifyPKCE(H, v, challenge, method_) && VerifyPKCE(H, w, challenge, method_)
    ensures v == w || Collides(H, (v, w))
  {
    hide Base64, Unbase64, Grammar;
    Base64Reads(H(v));
    Base64Reads(H(w));
  }
}
