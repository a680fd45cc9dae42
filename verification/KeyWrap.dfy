/** AES key wrap of crypto/envelope/aes_kw.go (sections 2.2.1 and 2.2.2 of RFC 3394), over an
    arbitrary 128-bit block cipher. */
module KeyWrap {
  import opened Basics
  import Numbers

  type Octets = seq<bv8>
  type Semiblock = s: Octets | |s| == 8 witness [0, 0, 0, 0, 0, 0, 0, 0]
  type Block = s: Octets | |s| == 16 witness [0, 0, 0, 0, 0, 0, 0, 0, 0, 0, 0, 0, 0, 0, 0, 0]

  datatype BlockCipher = BlockCipher(encrypt: (Octets, Block) -> Block, decrypt: (Octets, Block) -> Block)

  datatype Error = InvalidKEK | InvalidKey | InvalidWrapped | ICVMismatch

  const ICV: Semiblock := [0xA6, 0xA6, 0xA6, 0xA6, 0xA6, 0xA6, 0xA6, 0xA6]

  /** Under this key, encryption and decryption undo each other. */
  ghost predicate Permutation(cipher: BlockCipher, kek: Octets) {
    && (forall b: Block :: cipher.decrypt(kek, cipher.encrypt(kek, b)) == b)
    && (forall b: Block :: cipher.encrypt(kek, cipher.decrypt(kek, b)) == b)
  }

  predicate KEKOk(kek: Octets) { |kek| == 16 || |kek| == 24 || |kek| == 32 }

  predicate KeyOk(key: Octets) { |key| >= 16 && |key| % 8 == 0 }

  predicate WrappedOk(w: Octets) { |w| >= 24 && |w| % 8 == 0 }

  // ---------------------------------------------------------------- one step and its inverse

  /** The integrity register A and the semiblocks R. */
  datatype State = State(a: Semiblock, r: seq<Semiblock>)

  /** Byte k of t as a big-endian 64-bit integer. */
  function CounterByte(t: nat, k: nat): bv8
    requires k < 8
  {
    (t / Numbers.Pow256(7 - k) % 256) as bv8
  }

  function XorCounter(s: Semiblock, t: nat): Semiblock {
    seq(8, k requires 0 <= k < 8 => s[k] ^ CounterByte(t, k))
  }

  lemma XorTwice(s: Semiblock, t: nat)
    ensures XorCounter(XorCounter(s, t), t) == s
  {
    forall k | 0 <= k < 8
      ensures XorCounter(XorCounter(s, t), t)[k] == s[k]
    {
      XorByteTwice(s[k], CounterByte(t, k));
    }
  }

  lemma XorByteTwice(x: bv8, y: bv8)
    ensures (x ^ y) ^ y == x
  {
  }

  function WrapStep(cipher: BlockCipher, kek: Octets, st: State, i: nat, t: nat): (r: State)
    requires i < |st.r|
    ensures |r.r| == |st.r|
  {
    var out := cipher.encrypt(kek, st.a + st.r[i]);
    State(XorCounter(out[..8], t), st.r[i := out[8..]])
  }

  function UnwrapStep(cipher: BlockCipher, kek: Octets, st: State, i: nat, t: nat): (r: State)
    requires i < |st.r|
    ensures |r.r| == |st.r|
  {
    var out := cipher.decrypt(kek, XorCounter(st.a, t) + st.r[i]);
    State(out[..8], st.r[i := out[8..]])
  }

  /** With the same index and counter, the two steps undo each other. */
  lemma StepsInvert(cipher: BlockCipher, kek: Octets, st: State, i: nat, t: nat)
    requires Permutation(cipher, kek) && i < |st.r|
    ensures UnwrapStep(cipher, kek, WrapStep(cipher, kek, st, i, t), i, t) == st
    ensures WrapStep(cipher, kek, UnwrapStep(cipher, kek, st, i, t), i, t) == st
  {
    hide XorCounter;
    var block := st.a + st.r[i];
    var out := cipher.encrypt(kek, block);
    XorTwice(out[..8], t);
    assert out[..8] + out[8..] == out;
    assert block[..8] == st.a && block[8..] == st.r[i];
    var masked := XorCounter(st.a, t) + st.r[i];
    var plain := cipher.decrypt(kek, masked);
    XorTwice(st.a, t);
    assert plain[..8] + plain[8..] == plain;
    assert masked[..8] == XorCounter(st.a, t) && masked[8..] == st.r[i];
    assert st.r[i := out[8..]][i := st.r[i]] == st.r;
    assert st.r[i := plain[8..]][i := st.r[i]] == st.r;
  }

  // ---------------------------------------------------------------- six passes

  /** The first i steps of a pass whose counters start after base. */
  function Pass(cipher: BlockCipher, kek: Octets, st: State, base: nat, i: nat): (r: State)
    requires i <= |st.r|
    ensures |r.r| == |st.r|
  {
    if i == 0 then st else WrapStep(cipher, kek, Pass(cipher, kek, st, base, i - 1), i - 1, base + i)
  }

  /** The same steps undone, last first. */
  function Unpass(cipher: BlockCipher, kek: Octets, st: State, base: nat, i: nat): (r: State)
    requires i <= |st.r|
    ensures |r.r| == |st.r|
    decreases i
  {
    if i == 0 then st else Unpass(cipher, kek, UnwrapStep(cipher, kek, st, i - 1, base + i), base, i - 1)
  }

  function Passes(cipher: BlockCipher, kek: Octets, st: State, j: nat): (r: State)
    ensures |r.r| == |st.r|
  {
    if j == 0 then st else Pass(cipher, kek, Passes(cipher, kek, st, j - 1), (j - 1) * |st.r|, |st.r|)
  }

  function Unpasses(cipher: BlockCipher, kek: Octets, st: State, j: nat): (r: State)
    ensures |r.r| == |st.r|
    decreases j
  {
    if j == 0 then st else Unpasses(cipher, kek, Unpass(cipher, kek, st, (j - 1) * |st.r|, |st.r|), j - 1)
  }

  lemma {:induction false} PassInverts(cipher: BlockCipher, kek: Octets, st: State, base: nat, i: nat)
    requires Permutation(cipher, kek) && i <= |st.r|
    ensures Unpass(cipher, kek, Pass(cipher, kek, st, base, i), base, i) == st
    ensures Pass(cipher, kek, Unpass(cipher, kek, st, base, i), base, i) == st
    decreases i
  {
    hide WrapStep, UnwrapStep;
    if i > 0 {
      PassInverts(cipher, kek, st, base, i - 1);
      StepsInvert(cipher, kek, Pass(cipher, kek, st, base, i - 1), i - 1, base + i);
      PassInverts(cipher, kek, UnwrapStep(cipher, kek, st, i - 1, base + i), base, i - 1);
      StepsInvert(cipher, kek, st, i - 1, base + i);
    }
  }

  lemma {:induction false} PassesInvert(cipher: BlockCipher, kek: Octets, st: State, j: nat)
    requires Permutation(cipher, kek)
    ensures Unpasses(cipher, kek, Passes(cipher, kek, st, j), j) == st
    ensures Passes(cipher, kek, Unpasses(cipher, kek, st, j), j) == st
    decreases j
  {
    hide Pass, Unpass;
    if j > 0 {
      var base, n := (j - 1) * |st.r|, |st.r|;
      PassesInvert(cipher, kek, st, j - 1);
      PassInverts(cipher, kek, Passes(cipher, kek, st, j - 1), base, n);
      PassesInvert(cipher, kek, Unpass(cipher, kek, st, base, n), j - 1);
      PassInverts(cipher, kek, st, base, n);
    }
  }

  // ---------------------------------------------------------------- semiblocks

  function Blocks(s: Octets): seq<Semiblock>
    requires |s| % 8 == 0
  {
    if s == [] then [] else Blocks(s[..|s| - 8]) + [s[|s| - 8..]]
  }

  function Join(r: seq<Semiblock>): Octets {
    if r == [] then [] else Join(r[..|r| - 1]) + r[|r| - 1]
  }

  lemma {:induction false} JoinBlocks(s: Octets)
    requires |s| % 8 == 0
    ensures Join(Blocks(s)) == s && 8 * |Blocks(s)| == |s|
  {
    if s != [] {
      JoinBlocks(s[..|s| - 8]);
      assert Blocks(s)[..|Blocks(s)| - 1] == Blocks(s[..|s| - 8]);
      assert s == s[..|s| - 8] + s[|s| - 8..];
    }
  }

  lemma {:induction false} BlocksJoin(r: seq<Semiblock>)
    ensures |Join(r)| == 8 * |r| && Blocks(Join(r)) == r
  {
    if r != [] {
      var n := |r| - 1;
      BlocksJoin(r[..n]);
      assert Join(r)[..|Join(r)| - 8] == Join(r[..n]);
      assert Join(r)[|Join(r)| - 8..] == r[n];
      assert r == r[..n] + [r[n]];
    }
  }

  // ---------------------------------------------------------------- wrap and unwrap

  function WrapResult(cipher: BlockCipher, kek: Octets, key: Octets): Result<Octets, Error> {
    if !KEKOk(kek) then Err(InvalidKEK)
    else if !KeyOk(key) then Err(InvalidKey)
    else
      var st := Passes(cipher, kek, State(ICV, Blocks(key)), 6);
      Ok(st.a + Join(st.r))
  }

  function UnwrapResult(cipher: BlockCipher, kek: Octets, w: Octets): Result<Octets, Error> {
    if !KEKOk(kek) then Err(InvalidKEK)
    else if !WrappedOk(w) then Err(InvalidWrapped)
    else
      var st := Unpasses(cipher, kek, State(w[..8], Blocks(w[8..])), 6);
      if st.a != ICV then Err(ICVMismatch) else Ok(Join(st.r))
  }

  /** Unwrap returns a key exactly when wrapping that key gives the wrapped text: each function is
      the other's inverse, for every key length and every block permutation. */
  lemma WrapExact(cipher: BlockCipher, kek: Octets, key: Octets, w: Octets)
    requires Permutation(cipher, kek)
    ensures WrapResult(cipher, kek, key) == Ok(w) <==> UnwrapResult(cipher, kek, w) == Ok(key)
  {
    if WrapResult(cipher, kek, key) == Ok(w) {
      WrapThenUnwrap(cipher, kek, key, w);
    }
    if UnwrapResult(cipher, kek, w) == Ok(key) {
      UnwrapThenWrap(cipher, kek, key, w);
    }
  }

  lemma WrapThenUnwrap(cipher: BlockCipher, kek: Octets, key: Octets, w: Octets)
    requires Permutation(cipher, kek) && WrapResult(cipher, kek, key) == Ok(w)
    ensures UnwrapResult(cipher, kek, w) == Ok(key)
  {
    hide Passes, Unpasses, Join, Blocks;
    var start := State(ICV, Blocks(key));
    var st := Passes(cipher, kek, start, 6);
    PassesInvert(cipher, kek, start, 6);
    BlocksJoin(st.r);
    JoinBlocks(key);
    assert w[..8] == st.a && w[8..] == Join(st.r);
  }

  lemma UnwrapThenWrap(cipher: BlockCipher, kek: Octets, key: Octets, w: Octets)
    requires Permutation(cipher, kek) && UnwrapResult(cipher, kek, w) == Ok(key)
    ensures WrapResult(cipher, kek, key) == Ok(w)
  {
    hide Passes, Unpasses, Join, Blocks;
    var start := State(w[..8], Blocks(w[8..]));
    var st := Unpasses(cipher, kek, start, 6);
    PassesInvert(cipher, kek, start, 6);
    BlocksJoin(st.r);
    JoinBlocks(w[8..]);
    assert w == w[..8] + w[8..];
  }

  // ---------------------------------------------------------------- the loops

  /** xorUint64: the counter's bytes into the register, lowest byte last. */
  method XorUint64(b: array<bv8>, t: nat)
    requires b.Length == 8
    modifies b
    ensures b[..] == XorCounter(old(b[..]), t)
  {
    for i := 0 to 8
      invariant forall k :: 0 <= k < 8 - i ==> b[k] == old(b[k])
      invariant forall k :: 8 - i <= k < 8 ==> b[k] == old(b[k]) ^ CounterByte(t, k)
    {
      b[7 - i] := b[7 - i] ^ CounterByte(t, 7 - i);
    }
  }

  method CopyOctets(dst: array<bv8>, src: Octets)
    requires dst.Length == |src|
    modifies dst
    ensures dst[..] == src
  {
    forall k | 0 <= k < |src| {
      dst[k] := src[k];
    }
  }

  lemma BlocksSnoc(s: Octets, i: nat)
    requires 8 * i + 8 <= |s|
    ensures Blocks(s[..8 * i + 8]) == Blocks(s[..8 * i]) + [s[8 * i..8 * i + 8]]
  {
    var t := s[..8 * i + 8];
    assert t[..|t| - 8] == s[..8 * i];
    assert t[|t| - 8..] == s[8 * i..8 * i + 8];
  }

  method Split(s: Octets) returns (r: array<Semiblock>)
    requires |s| % 8 == 0
    ensures fresh(r) && r[..] == Blocks(s)
  {
    hide Blocks;
    JoinBlocks(s);
    var n := |s| / 8;
    r := new Semiblock[n](i => ICV);
    assert s[..0] == [] && Blocks(s[..0]) == [] by { BlocksNil(); }
    for i := 0 to n
      invariant r[..i] == Blocks(s[..8 * i])
    {
      BlocksSnoc(s, i);
      r[i] := s[8 * i..8 * i + 8];
      assert r[..i + 1] == r[..i] + [r[i]];
    }
    assert s[..8 * n] == s && r[..n] == r[..];
  }

  lemma BlocksNil()
    ensures Blocks([]) == []
  {
  }

  method Concat(r: array<Semiblock>) returns (s: Octets)
    ensures s == Join(r[..])
  {
    s := [];
    for i := 0 to r.Length
      invariant s == Join(r[..i])
    {
      assert r[..i + 1][..i] == r[..i];
      s := s + r[i];
    }
    assert r[..r.Length] == r[..];
  }

  /** One forward step in place. */
  method Forward(cipher: BlockCipher, kek: Octets, a: array<bv8>, r: array<Semiblock>, i: nat, t: nat)
    requires a.Length == 8 && i < r.Length && a as object != r as object
    modifies a, r
    ensures State(a[..], r[..]) == WrapStep(cipher, kek, State(old(a[..]), old(r[..])), i, t)
  {
    hide XorCounter;
    var out := cipher.encrypt(kek, a[..] + r[i]);
    CopyOctets(a, out[..8]);
    XorUint64(a, t);
    r[i] := out[8..];
    assert r[..] == old(r[..])[i := out[8..]];
  }

  /** One backward step in place. */
  method Backward(cipher: BlockCipher, kek: Octets, a: array<bv8>, r: array<Semiblock>, i: nat, t: nat)
    requires a.Length == 8 && i < r.Length && a as object != r as object
    modifies a, r
    ensures State(a[..], r[..]) == UnwrapStep(cipher, kek, State(old(a[..]), old(r[..])), i, t)
  {
    hide XorCounter;
    XorUint64(a, t);
    var out := cipher.decrypt(kek, a[..] + r[i]);
    CopyOctets(a, out[..8]);
    r[i] := out[8..];
    assert r[..] == old(r[..])[i := out[8..]];
  }

  method Wrap(cipher: BlockCipher, kek: Octets, plaintextKey: Octets) returns (result: Result<Octets, Error>)
    ensures result == WrapResult(cipher, kek, plaintextKey)
  {
    hide WrapStep, Blocks, Join;
    if !KEKOk(kek) {
      return Err(InvalidKEK);
    }
    if !KeyOk(plaintextKey) {
      return Err(InvalidKey);
    }
    var n := |plaintextKey| / 8;
    var a := new bv8[8](i => 0);
    CopyOctets(a, ICV);
    var r := Split(plaintextKey);
    JoinBlocks(plaintextKey);
    ghost var start := State(ICV, Blocks(plaintextKey));
    for j := 0 to 6
      invariant r.Length == n && fresh(a) && fresh(r) && a.Length == 8 && |a[..]| == 8
      invariant State(a[..], r[..]) == Passes(cipher, kek, start, j)
    {
      for i := 0 to n
        invariant r.Length == n && a.Length == 8
        invariant State(a[..], r[..]) == Pass(cipher, kek, Passes(cipher, kek, start, j), j * n, i)
      {
        Forward(cipher, kek, a, r, i, j * n + i + 1);
      }
    }
    var tail := Concat(r);
    return Ok(a[..] + tail);
  }

  method Unwrap(cipher: BlockCipher, kek: Octets, wrappedKey: Octets) returns (result: Result<Octets, Error>)
    ensures result == UnwrapResult(cipher, kek, wrappedKey)
  {
    hide UnwrapStep, Blocks, Join;
    if !KEKOk(kek) {
      return Err(InvalidKEK);
    }
    if !WrappedOk(wrappedKey) {
      return Err(InvalidWrapped);
    }
    var n := |wrappedKey| / 8 - 1;
    var a := new bv8[8](i => 0);
    CopyOctets(a, wrappedKey[..8]);
    var r := Split(wrappedKey[8..]);
    JoinBlocks(wrappedKey[8..]);
    ghost var goal := Unpasses(cipher, kek, State(wrappedKey[..8], Blocks(wrappedKey[8..])), 6);
    for j := 6 downto 0
      invariant r.Length == n && fresh(a) && fresh(r) && a.Length == 8
      invariant Unpasses(cipher, kek, State(a[..], r[..]), j) == goal
    {
      for i := n downto 0
        invariant r.Length == n && a.Length == 8
        invariant Unpasses(cipher, kek, Unpass(cipher, kek, State(a[..], r[..]), j * n, i), j) == goal
      {
        Backward(cipher, kek, a, r, i, j * n + i + 1);
      }
    }
    if a[..] != ICV {
      return Err(ICVMismatch);
    }
    var key := Concat(r);
    return Ok(key);
  }
}
