/** Key wrap in the shift-register form of section 2.2.1 of RFC 3394, written on its own, and its
    agreement with the indexed form that crypto/envelope/aes_kw.go runs. */
module KeyWrapRegister {
  import opened Basics
  import opened KeyWrap
  import Numbers

  /** A semiblock xor the 64-bit big-endian form of t. */
  function XorBE(s: Semiblock, t: nat): Semiblock {
    seq(8, k requires 0 <= k < 8 => s[k] ^ (Numbers.FixedBE(t, 8)[k] as bv8))
  }

  /** B = AES(K, A | R[1]); A = MSB(64, B) ^ t; the R shift left and LSB(64, B) enters at the end. */
  function ShiftStep(cipher: BlockCipher, kek: Octets, st: State, t: nat): (r: State)
    requires st.r != []
    ensures |r.r| == |st.r|
  {
    var b := cipher.encrypt(kek, st.a + st.r[0]);
    State(XorBE(b[..8], t), st.r[1..] + [b[8..]])
  }

  /** The registers after steps 1 to t. */
  function Shift(cipher: BlockCipher, kek: Octets, st: State, t: nat): (r: State)
    requires st.r != []
    ensures |r.r| == |st.r|
  {
    if t == 0 then st else ShiftStep(cipher, kek, Shift(cipher, kek, st, t - 1), t)
  }

  // ---------------------------------------------------------------- the counter

  /** The bytes xored in are the counter's big-endian form, which reads back as the counter. */
  lemma CounterIsBigEndian(s: Semiblock, t: nat)
    ensures XorCounter(s, t) == XorBE(s, t)
    ensures t < 0x1_0000_0000_0000_0000 ==> Numbers.FromBE(Numbers.FixedBE(t, 8)) == t
  {
    forall k | 0 <= k < 8
      ensures XorCounter(s, t)[k] == XorBE(s, t)[k]
    {
      Numbers.FixedBEAt(t, 8, k);
    }
    Numbers.Pow256Values();
    if t < 0x1_0000_0000_0000_0000 {
      Numbers.FromFixedBE(t, 8);
    }
  }

  // ---------------------------------------------------------------- the registers

  /** The registers seen from index i on, wrapping around. */
  function Rotate(st: State, i: nat): State
    requires i <= |st.r|
  {
    State(st.a, st.r[i..] + st.r[..i])
  }

  lemma StepRotates(cipher: BlockCipher, kek: Octets, st: State, i: nat, t: nat)
    requires i < |st.r|
    ensures ShiftStep(cipher, kek, Rotate(st, i), t) == Rotate(WrapStep(cipher, kek, st, i, t), i + 1)
  {
    hide XorCounter, XorBE;
    var turned, next := Rotate(st, i), WrapStep(cipher, kek, st, i, t);
    var b := cipher.encrypt(kek, st.a + st.r[i]);
    assert turned.r[0] == st.r[i];
    CounterIsBigEndian(b[..8], t);
    assert turned.r[1..] == st.r[i + 1..] + st.r[..i];
    assert next.r[i + 1..] == st.r[i + 1..] && next.r[..i + 1] == st.r[..i] + [b[8..]];
  }

  lemma {:induction false} PassRotates(cipher: BlockCipher, kek: Octets, start: State, st: State, base: nat, i: nat)
    requires start.r != [] && i <= |st.r| && st == Shift(cipher, kek, start, base)
    ensures Shift(cipher, kek, start, base + i) == Rotate(Pass(cipher, kek, st, base, i), i)
  {
    hide ShiftStep, WrapStep;
    if i == 0 {
      assert st.r[0..] + st.r[..0] == st.r;
    } else {
      PassRotates(cipher, kek, start, st, base, i - 1);
      StepRotates(cipher, kek, Pass(cipher, kek, st, base, i - 1), i - 1, base + i);
    }
  }

  lemma {:induction false} PassesShift(cipher: BlockCipher, kek: Octets, start: State, j: nat)
    requires start.r != []
    ensures Passes(cipher, kek, start, j) == Shift(cipher, kek, start, j * |start.r|)
  {
    hide Pass, Shift;
    var n := |start.r|;
    if j == 0 {
      ShiftNone(cipher, kek, start);
    } else {
      var st, base := Passes(cipher, kek, start, j - 1), (j - 1) * n;
      PassesShift(cipher, kek, start, j - 1);
      PassRotates(cipher, kek, start, st, base, n);
      var end := Pass(cipher, kek, st, base, n);
      assert end.r[n..] + end.r[..n] == end.r;
      assert base + n == j * n;
    }
  }

  lemma ShiftNone(cipher: BlockCipher, kek: Octets, start: State)
    requires start.r != []
    ensures Shift(cipher, kek, start, 0) == start
  {
  }

  // ---------------------------------------------------------------- the two forms agree

  lemma {:induction false} BlocksAt(s: Octets, i: nat)
    requires |s| % 8 == 0 && 8 * i < |s|
    ensures |Blocks(s)| == |s| / 8 && Blocks(s)[i] == s[8 * i..8 * i + 8]
  {
    JoinBlocks(s);
    JoinBlocks(s[..|s| - 8]);
    if 8 * i + 8 < |s| {
      BlocksAt(s[..|s| - 8], i);
    }
  }

  lemma {:induction false} JoinAt(r: seq<Semiblock>, i: nat)
    requires i < |r|
    ensures |Join(r)| == 8 * |r| && Join(r)[8 * i..8 * i + 8] == r[i]
  {
    BlocksJoin(r);
    BlocksJoin(r[..|r| - 1]);
    if i < |r| - 1 {
      JoinAt(r[..|r| - 1], i);
    }
  }

  /** The key as 64-bit registers under the initial value of section 2.2.3.1 of RFC 3394. */
  function Registers(key: Octets): State
    requires |key| % 8 == 0
  {
    State([0xA6, 0xA6, 0xA6, 0xA6, 0xA6, 0xA6, 0xA6, 0xA6],
          seq(|key| / 8, i requires 0 <= i < |key| / 8 => key[8 * i..8 * i + 8]))
  }

  /** w is the registers written out, A first. */
  ghost predicate Written(st: State, w: Octets) {
    && |w| == 8 * |st.r| + 8 && w[..8] == st.a
    && forall i :: 0 <= i < |st.r| ==> w[8 * i + 8..8 * i + 16] == st.r[i]
  }

  lemma RegistersAreBlocks(key: Octets)
    requires |key| % 8 == 0
    ensures Registers(key) == State(ICV, Blocks(key))
  {
    hide Blocks;
    JoinBlocks(key);
    forall i | 0 <= i < |key| / 8
      ensures Registers(key).r[i] == Blocks(key)[i]
    {
      BlocksAt(key, i);
    }
  }

  lemma WrittenOut(st: State)
    ensures Written(st, st.a + Join(st.r))
  {
    hide Join;
    var w := st.a + Join(st.r);
    BlocksJoin(st.r);
    forall i | 0 <= i < |st.r|
      ensures w[8 * i + 8..8 * i + 16] == st.r[i]
    {
      JoinAt(st.r, i);
      assert w[8 * i + 8..8 * i + 16] == Join(st.r)[8 * i..8 * i + 8];
    }
  }

  /** Wrap is RFC 3394: a 128-, 192- or 256-bit key-encryption key and at least two whole semiblocks
      of key, 6n steps of the shift register from the initial value, and A before the R. */
  lemma WrapIsShiftRegister(cipher: BlockCipher, kek: Octets, key: Octets)
    ensures var w := WrapResult(cipher, kek, key);
            if |kek| != 16 && |kek| != 24 && |kek| != 32 then w == Err(InvalidKEK)
            else if |key| < 16 || |key| % 8 != 0 then w == Err(InvalidKey)
            else w.Ok? && Written(Shift(cipher, kek, Registers(key), 6 * (|key| / 8)), w.value)
  {
    hide Passes, Shift, Written, Blocks, Join;
    if |key| >= 16 && |key| % 8 == 0 {
      RegistersAreBlocks(key);
      PassesShift(cipher, kek, Registers(key), 6);
      WrittenOut(Passes(cipher, kek, Registers(key), 6));
    }
  }

  /** Unwrap refuses exactly the wrong lengths and, as an integrity failure, exactly the texts that
      are no key's wrapping. */
  lemma UnwrapRefusesExactly(cipher: BlockCipher, kek: Octets, w: Octets)
    requires Permutation(cipher, kek)
    ensures var key := UnwrapResult(cipher, kek, w);
            if |kek| != 16 && |kek| != 24 && |kek| != 32 then key == Err(InvalidKEK)
            else if |w| < 24 || |w| % 8 != 0 then key == Err(InvalidWrapped)
            else if exists k :: WrapResult(cipher, kek, k) == Ok(w) then key.Ok?
            else key == Err(ICVMismatch)
  {
    hide WrapResult, Unpasses, Blocks, Join;
    if k :| WrapResult(cipher, kek, k) == Ok(w) {
      WrapExact(cipher, kek, k, w);
    }
    var key := UnwrapResult(cipher, kek, w);
    if key.Ok? {
      WrapExact(cipher, kek, key.value, w);
    }
  }
}
