/** Big-endian integers: minimal form (big.Int.Bytes, RLP lengths) and fixed-width form (ABI words). */
module Numbers {
  import opened Basics

  function FromBE(b: Bytes): nat {
    if b == [] then 0 else FromBE(b[..|b| - 1]) * 256 + b[|b| - 1]
  }

  /** Minimal big-endian bytes; zero is the empty string. */
  function ToBE(n: nat): Bytes {
    if n == 0 then [] else ToBE(n / 256) + [n % 256]
  }

  function Pow256(k: nat): (r: nat)
    ensures r >= 1
  {
    if k == 0 then 1 else Pow256(k - 1) * 256
  }

  predicate Minimal(b: Bytes) { b == [] || b[0] != 0 }

  lemma {:induction false} FromToBE(n: nat)
    ensures FromBE(ToBE(n)) == n && Minimal(ToBE(n))
    ensures ToBE(n) == [] <==> n == 0
  {
    if n > 0 {
      FromToBE(n / 256);
      assert ToBE(n)[..|ToBE(n)| - 1] == ToBE(n / 256);
    }
  }

  lemma {:induction false} FromBEPositive(b: Bytes)
    requires b != [] && b[0] != 0
    ensures FromBE(b) > 0
  {
    if |b| > 1 {
      FromBEPositive(b[..|b| - 1]);
    }
  }

  lemma {:induction false} ToFromBE(b: Bytes)
    requires Minimal(b)
    ensures ToBE(FromBE(b)) == b
  {
    if b != [] {
      var init, last := b[..|b| - 1], b[|b| - 1];
      ToFromBE(init);
      FromBEPositive(b);
      assert FromBE(b) / 256 == FromBE(init) && FromBE(b) % 256 == last;
      assert b == init + [last];
    }
  }

  lemma {:induction false} FromBEBound(b: Bytes)
    ensures FromBE(b) < Pow256(|b|)
  {
    if b != [] {
      FromBEBound(b[..|b| - 1]);
    }
  }

  lemma {:induction false} ToBELength(n: nat, k: nat)
    ensures |ToBE(n)| <= k <==> n < Pow256(k)
  {
    if n > 0 && k > 0 {
      ToBELength(n / 256, k - 1);
    }
  }

  /** Exactly k bytes, high bytes dropped: binary.BigEndian.PutUint64 at k = 8. */
  function FixedBE(n: nat, k: nat): (r: Bytes)
    ensures |r| == k
  {
    if k == 0 then [] else FixedBE(n / 256, k - 1) + [n % 256]
  }

  lemma {:induction false} FromFixedBE(n: nat, k: nat)
    requires n < Pow256(k)
    ensures FromBE(FixedBE(n, k)) == n
  {
    if k > 0 {
      FromFixedBE(n / 256, k - 1);
      assert FixedBE(n, k)[..k - 1] == FixedBE(n / 256, k - 1);
    }
  }

  /** Byte k of a big-endian word of width w, counted from the left. */
  lemma {:induction false} FixedBEAt(n: nat, w: nat, k: nat)
    requires k < w
    ensures FixedBE(n, w)[k] == n / Pow256(w - 1 - k) % 256
  {
    if k < w - 1 {
      FixedBEAt(n / 256, w - 1, k);
      DivDiv(n, Pow256(w - 2 - k));
    }
  }

  lemma DivDiv(n: nat, d: nat)
    requires d > 0
    ensures n / 256 / d == n / (d * 256)
  {
    var q, r := n / 256 / d, (n / 256) % d * 256 + n % 256;
    assert n == (n / 256) * 256 + n % 256;
    assert n / 256 == q * d + (n / 256) % d;
    assert q * d * 256 == q * (d * 256);
    QuotientUnique(n, d * 256, q, r);
  }

  lemma QuotientUnique(n: nat, d: nat, q: nat, r: nat)
    requires d > 0 && n == q * d + r && r < d
    ensures n / d == q
  {
    Remainders(n / d, q, d, n % d, r);
  }

  lemma Remainders(p: int, q: int, d: nat, r: nat, s: nat)
    requires p * d + r == q * d + s && r < d && s < d
    ensures p == q
  {
    assert (p - q) * d == s - r && (q - p) * d == r - s;
    if p > q {
      AtLeast(p - q, d);
    } else if p < q {
      AtLeast(q - p, d);
    }
  }

  lemma AtLeast(x: int, d: nat)
    requires x >= 1
    ensures x * d >= d
  {
  }

  lemma {:induction false} FixedFromBE(b: Bytes)
    ensures FixedBE(FromBE(b), |b|) == b
  {
    if b != [] {
      FixedFromBE(b[..|b| - 1]);
      assert b == b[..|b| - 1] + [b[|b| - 1]];
    }
  }

  /** A fixed-width word is the minimal form under zero padding on the left. */
  lemma {:induction false} FixedIsPadded(n: nat, k: nat)
    requires n < Pow256(k)
    ensures |ToBE(n)| <= k
    ensures FixedBE(n, k) == seq(k - |ToBE(n)|, i => 0) + ToBE(n)
  {
    ToBELength(n, k);
    if k > 0 {
      FixedIsPadded(n / 256, k - 1);
      if n == 0 {
        assert seq(k, i => 0) == seq(k - 1, i => 0) + [0];
      }
    }
  }

  lemma Pow256Values()
    ensures Pow256(1) == 0x100 && Pow256(2) == 0x1_0000 && Pow256(4) == 0x1_0000_0000
    ensures Pow256(7) == 0x100_0000_0000_0000 && Pow256(8) == TWO_TO_64
  {
    assert Pow256(0) == 1;
    assert Pow256(1) == 0x100;
    assert Pow256(2) == 0x1_0000;
    assert Pow256(3) == 0x100_0000;
    assert Pow256(4) == 0x1_0000_0000;
    assert Pow256(5) == 0x100_0000_0000;
    assert Pow256(6) == 0x1_0000_0000_0000;
    assert Pow256(7) == 0x100_0000_0000_0000;
  }

  /** uintToBytes: write eight bytes, then skip leading zeros but for the last byte. */
  method UintToBytes(n: uint64) returns (r: Bytes)
    ensures r == ToBE(n)
  {
    if n == 0 {
      return [];
    }
    var buf := FixedBE(n, 8);
    Pow256Values();
    FixedIsPadded(n, 8);
    FromToBE(n);
    ghost var pad := 8 - |ToBE(n)|;
    assert buf[pad] == ToBE(n)[0] && forall k :: 0 <= k < pad ==> buf[k] == 0;
    var i := 0;
    while i < 7 && buf[i] == 0
      invariant 0 <= i <= 7 && i <= pad
    {
      i := i + 1;
    }
    r := buf[i..];
    assert r == ToBE(n);
  }

  /** The accumulating loop of decodeLength and asUint64: n = n << 8 | c. */
  method AccumulateBE(b: Bytes) returns (n: uint64)
    requires |b| <= 8
    ensures n == FromBE(b)
  {
    n := 0;
    Pow256Values();
    for i := 0 to |b|
      invariant n == FromBE(b[..i])
    {
      assert b[..i + 1][..i] == b[..i];
      FromBEBound(b[..i + 1]);
      Pow256Monotone(i + 1, 8);
      n := n * 256 + b[i];
    }
    assert b[..|b|] == b;
  }

  lemma {:induction false} Pow256Monotone(i: nat, j: nat)
    requires i <= j
    ensures Pow256(i) <= Pow256(j)
    decreases j
  {
    if i < j {
      Pow256Monotone(i, j - 1);
    }
  }
}
