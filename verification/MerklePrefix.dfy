/** Consistency proofs whose stated sizes are not those of the trees: the verifier compares the sizes with
    nothing, and what it accepts still shows a prefix. */
module MerklePrefix {
  import opened Basics
  import opened MerkleSpec

  /** What a recomputation over ANY sizes m and n that reaches MTH(D) yields: how many of D's leaves
      the old hash covers, or a collision. */
  function PrefixWitness(H: Hash, m: nat, n: nat, D: seq<Bytes>, b: bool, prior: Digest, s: seq<ProofStep>): (r: Result<nat, (Bytes, Bytes)>)
    requires 0 < m <= n && |D| > 0 && |s| == SubproofLength(m, n, b)
    ensures r.Ok? ==> 0 < r.value <= |D|
    decreases n
  {
    if m == n then Ok(|D|)
    else
      var k := Split(n);
      var rest, last := s[..|s| - 1], s[|s| - 1].hash;
      var input := if m <= k then NodeInput(Recompute(H, m, k, b, prior, rest).0, last)
                   else NodeInput(last, Recompute(H, m - k, n - k, false, prior, rest).0);
      if |D| == 1 then Err((input, LeafInput(D[0])))
      else
        var j := Split(|D|);
        var honest := NodeInput(MTH(H, D[..j]), MTH(H, D[j..]));
        if input != honest then Err((input, honest))
        else if m <= k then PrefixWitness(H, m, k, D[..j], b, prior, rest)
        else Shifted(j, PrefixWitness(H, m - k, n - k, D[j..], false, prior, rest))
  }

  function Shifted(j: nat, w: Result<nat, (Bytes, Bytes)>): Result<nat, (Bytes, Bytes)> {
    if w.Ok? then Ok(j + w.value) else w
  }

  lemma RestLength(m: nat, n: nat, b: bool, k: nat)
    requires 0 < m < n && k == Split(n)
    ensures SubproofLength(m, n, b) == 1 + if m <= k then SubproofLength(m, k, b) else SubproofLength(m - k, n - k, false)
  {
    hide Split;
  }

  /** A recomputation from the left that reaches MTH(D) reaches the left half of D, or the witness is
      a collision. */
  lemma WitnessLeft(H: Hash, m: nat, n: nat, D: seq<Bytes>, b: bool, prior: Digest, rest: seq<ProofStep>, last: ProofStep, k: nat, j: nat)
    requires 0 < m < n && k == Split(n) && m <= k && |D| > 1 && j == Split(|D|)
    requires |rest| == SubproofLength(m, k, b) && |rest| + 1 == SubproofLength(m, n, b)
    requires Recompute(H, m, n, b, prior, rest + [last]).0 == MTH(H, D)
    ensures var w, l := PrefixWitness(H, m, n, D, b, prior, rest + [last]), Recompute(H, m, k, b, prior, rest).0;
            || (w.Err? && Collides(H, w.error))
            || (l == MTH(H, D[..j]) && w == PrefixWitness(H, m, k, D[..j], b, prior, rest))
    ensures Recompute(H, m, n, b, prior, rest + [last]).1 == Recompute(H, m, k, b, prior, rest).1
  {
    hide Split, MTH, NodeInput, Recompute, SubproofLength;
    var s := rest + [last];
    assert s[..|s| - 1] == rest && s[|s| - 1] == last;
    UnfoldRecompute(H, m, n, b, prior, rest, last, k);
    UnfoldMTH(H, D, j);
    InputsSeparate(Recompute(H, m, k, b, prior, rest).0, last.hash, MTH(H, D[..j]), MTH(H, D[j..]), []);
  }

  lemma WitnessRight(H: Hash, m: nat, n: nat, D: seq<Bytes>, b: bool, prior: Digest, rest: seq<ProofStep>, last: ProofStep, k: nat, j: nat)
    requires 0 < m < n && k == Split(n) && m > k && |D| > 1 && j == Split(|D|)
    requires |rest| == SubproofLength(m - k, n - k, false) && |rest| + 1 == SubproofLength(m, n, b)
    requires Recompute(H, m, n, b, prior, rest + [last]).0 == MTH(H, D)
    ensures var w, r := PrefixWitness(H, m, n, D, b, prior, rest + [last]), Recompute(H, m - k, n - k, false, prior, rest).0;
            || (w.Err? && Collides(H, w.error))
            || (&& |D[j..]| > 0 && r == MTH(H, D[j..]) && last.hash == MTH(H, D[..j])
                && w == Shifted(j, PrefixWitness(H, m - k, n - k, D[j..], false, prior, rest)))
    ensures Recompute(H, m, n, b, prior, rest + [last]).1
         == NodeHash(H, last.hash, Recompute(H, m - k, n - k, false, prior, rest).1)
  {
    hide Split, MTH, NodeInput, Recompute, SubproofLength;
    var s := rest + [last];
    assert s[..|s| - 1] == rest && s[|s| - 1] == last;
    UnfoldRecompute(H, m, n, b, prior, rest, last, k);
    UnfoldMTH(H, D, j);
    InputsSeparate(last.hash, Recompute(H, m - k, n - k, false, prior, rest).0, MTH(H, D[..j]), MTH(H, D[j..]), []);
  }

  /** A node over something is never the hash of a single leaf. */
  lemma WitnessAtLeaf(H: Hash, m: nat, n: nat, D: seq<Bytes>, b: bool, prior: Digest, rest: seq<ProofStep>, last: ProofStep, k: nat)
    requires 0 < m < n && k == Split(n) && |D| == 1 && |rest| + 1 == SubproofLength(m, n, b)
    requires Recompute(H, m, n, b, prior, rest + [last]).0 == MTH(H, D)
    ensures var w := PrefixWitness(H, m, n, D, b, prior, rest + [last]);
            w.Err? && Collides(H, w.error)
  {
    hide Split, NodeInput, LeafInput, Recompute;
    var s := rest + [last];
    assert s[..|s| - 1] == rest && s[|s| - 1] == last;
    UnfoldRecompute(H, m, n, b, prior, rest, last, k);
    var below := if m <= k then Recompute(H, m, k, b, prior, rest).0 else Recompute(H, m - k, n - k, false, prior, rest).0;
    InputsSeparate(below, last.hash, last.hash, below, D[0]);
    InputsSeparate(last.hash, below, below, last.hash, D[0]);
    OneLeafInput(H, D);
  }

  /** Consistency soundness whatever sizes the proof states: a recomputation that reaches MTH(D)
      recomputes the hash of some prefix of D, unless it exhibits a collision. */
  lemma {:induction false} PrefixSound(H: Hash, m: nat, n: nat, D: seq<Bytes>, b: bool, prior: Digest, s: seq<ProofStep>)
    requires 0 < m <= n && |D| > 0 && |s| == SubproofLength(m, n, b)
    requires Recompute(H, m, n, b, prior, s).0 == MTH(H, D)
    ensures var w := PrefixWitness(H, m, n, D, b, prior, s);
            if w.Ok? then Recompute(H, m, n, b, prior, s).1 == MTH(H, D[..w.value]) else Collides(H, w.error)
    decreases n
  {
    hide Split, MTH, NodeHash, Recompute, SubproofLength, PrefixWitness;
    if m == n {
      WitnessOfAll(H, n, D, b, prior, s);
    } else {
      var k := Split(n);
      RestLength(m, n, b, k);
      var rest, last := s[..|s| - 1], s[|s| - 1];
      assert s == rest + [last];
      if |D| == 1 {
        WitnessAtLeaf(H, m, n, D, b, prior, rest, last, k);
      } else if m <= k {
        var j := Split(|D|);
        WitnessLeft(H, m, n, D, b, prior, rest, last, k, j);
        if Recompute(H, m, k, b, prior, rest).0 == MTH(H, D[..j]) {
          PrefixSound(H, m, k, D[..j], b, prior, rest);
          PrefixOfPrefix(D, j);
        }
      } else {
        var j := Split(|D|);
        WitnessRight(H, m, n, D, b, prior, rest, last, k, j);
        if Recompute(H, m - k, n - k, false, prior, rest).0 == MTH(H, D[j..]) {
          PrefixSound(H, m - k, n - k, D[j..], false, prior, rest);
          PrefixSplits(H, D, j);
        }
      }
    }
  }

  lemma WitnessOfAll(H: Hash, n: nat, D: seq<Bytes>, b: bool, prior: Digest, s: seq<ProofStep>)
    requires 0 < n && |D| > 0 && |s| == SubproofLength(n, n, b)
    ensures PrefixWitness(H, n, n, D, b, prior, s) == Ok(|D|) && D[..|D|] == D
    ensures Recompute(H, n, n, b, prior, s).0 == Recompute(H, n, n, b, prior, s).1
  {
    hide Split, MTH;
  }

  lemma OneLeafInput(H: Hash, D: seq<Bytes>)
    requires |D| == 1
    ensures MTH(H, D) == H(LeafInput(D[0]))
  {
  }

  lemma PrefixOfPrefix(D: seq<Bytes>, j: nat)
    requires j <= |D|
    ensures forall i :: 0 <= i <= j ==> D[..j][..i] == D[..i]
  {
  }

  lemma PrefixSplits(H: Hash, D: seq<Bytes>, j: nat)
    requires |D| > 1 && j == Split(|D|)
    ensures forall i :: 0 < i <= |D| - j ==>
              MTH(H, D[..j + i]) == NodeHash(H, MTH(H, D[..j]), MTH(H, D[j..][..i]))
  {
    hide Split, MTH, NodeHash;
    forall i | 0 < i <= |D| - j
      ensures MTH(H, D[..j + i]) == NodeHash(H, MTH(H, D[..j]), MTH(H, D[j..][..i]))
    {
      PrefixSplit(H, j + i, D);
    }
  }
}
