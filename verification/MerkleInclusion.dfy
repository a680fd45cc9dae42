/** Index-bound inclusion verification of merkle/tree.go: serialized proof elements, the side
    sequence recomputed from (index, size), and VerifyInclusion. */
module MerkleInclusion {
  import opened Basics
  import opened MerkleSpec
  import opened Merkle

  const PROOF_ELEM_LEN := 33
  const SIDE_LEFT: byte := 0x00
  const SIDE_RIGHT: byte := 0x01
  const MAX_UINT64: uint64 := TWO_TO_64 - 1

  // ---------------------------------------------------------------- proof elements

  function EncodeStep(step: ProofStep): Bytes {
    [if step.isRight then SIDE_RIGHT else SIDE_LEFT] + step.hash
  }

  function EncodeSteps(path: seq<ProofStep>): (r: seq<Bytes>)
    ensures |r| == |path|
  {
    seq(|path|, i requires 0 <= i < |path| => EncodeStep(path[i]))
  }

  predicate ElementOk(elem: Bytes) {
    |elem| == PROOF_ELEM_LEN && (elem[0] == SIDE_LEFT || elem[0] == SIDE_RIGHT)
  }

  function DecodeElement(elem: Bytes): ProofStep
    requires ElementOk(elem)
  {
    ProofStep(elem[1..], elem[0] == SIDE_RIGHT)
  }

  predicate ProofOk(proof: seq<Bytes>) {
    forall i :: 0 <= i < |proof| ==> ElementOk(proof[i])
  }

  function DecodeSteps(proof: seq<Bytes>): (r: seq<ProofStep>)
    requires ProofOk(proof)
    ensures |r| == |proof|
  {
    seq(|proof|, i requires 0 <= i < |proof| => DecodeElement(proof[i]))
  }

  /** The 33-byte elements carry exactly one path: decoding and encoding undo each other. */
  lemma ElementsRoundTrip(path: seq<ProofStep>, proof: seq<Bytes>)
    ensures ProofOk(EncodeSteps(path)) && DecodeSteps(EncodeSteps(path)) == path
    ensures forall i :: 0 <= i < |path| ==> EncodeSteps(path)[i] == [if path[i].isRight then 1 else 0] + path[i].hash
    ensures ProofOk(proof) ==> EncodeSteps(DecodeSteps(proof)) == proof
  {
    var elems := EncodeSteps(path);
    forall i | 0 <= i < |path|
      ensures ElementOk(elems[i]) && DecodeElement(elems[i]) == path[i]
    {
      assert elems[i][1..] == path[i].hash;
    }
    if ProofOk(proof) {
      forall i | 0 <= i < |proof|
        ensures EncodeStep(DecodeElement(proof[i])) == proof[i]
      {
      }
    }
  }

  method DecodeProof(proof: seq<Bytes>) returns (r: Result<seq<ProofStep>, Error>)
    ensures r == if ProofOk(proof) then Ok(DecodeSteps(proof)) else Err(TamperedLeaf)
  {
    var steps: seq<ProofStep> := [];
    for i := 0 to |proof|
      invariant |steps| == i
      invariant forall j :: 0 <= j < i ==> ElementOk(proof[j]) && steps[j] == DecodeElement(proof[j])
    {
      var elem := proof[i];
      if |elem| != PROOF_ELEM_LEN {
        return Err(TamperedLeaf);
      }
      var isRight := false;
      if elem[0] == SIDE_LEFT {
        isRight := false;
      } else if elem[0] == SIDE_RIGHT {
        isRight := true;
      } else {
        return Err(TamperedLeaf);
      }
      steps := steps + [ProofStep(elem[1..], isRight)];
    }
    assert steps == DecodeSteps(proof);
    r := Ok(steps);
  }

  // ---------------------------------------------------------------- the side sequence

  /** What proofSideSequence returns: the RFC sides, except at the one size where count + 1 wraps
      to zero and the loop stops after the first level. */
  ghost function SideSequence(index: uint64, treeSize: uint64): seq<bool>
    requires index < treeSize
  {
    if treeSize == MAX_UINT64 then (if index % 2 == 1 || index + 1 < treeSize then [index % 2 == 0] else [])
    else Sides(index, treeSize)
  }

  lemma Pow2Quarter(j: nat) returns (q: nat)
    ensures Pow2(j) <= 2 || Pow2(j) == 4 * q
  {
    q := if j >= 2 then Pow2(j - 2) else 0;
  }

  /** The shape binding holds exactly below the largest 64-bit size. */
  lemma SideSequenceExact(index: uint64, treeSize: uint64)
    requires index < treeSize
    ensures SideSequence(index, treeSize) == Sides(index, treeSize) <==> treeSize != MAX_UINT64
  {
    if treeSize == MAX_UINT64 {
      var k := Split(treeSize);
      var j := SplitIsPow2(treeSize);
      var q := Pow2Quarter(j);
      if index < k {
        assert |Sides(index, k)| > 0;
      } else {
        assert |Sides(index - k, treeSize - k)| > 0;
      }
    }
  }

  /** At that size there is one side, and none for the last leaf. */
  lemma SideSequenceWraps(index: uint64)
    requires index < 0xFFFF_FFFF_FFFF_FFFF
    ensures SideSequence(index, 0xFFFF_FFFF_FFFF_FFFF) == if index == 0xFFFF_FFFF_FFFF_FFFE then [] else [index % 2 == 0]
  {
    hide Sides;
  }

  /** The loop state stands for node idx of level j, which has count nodes. */
  ghost predicate AtLevel(n: nat, j: nat, idx: nat, count: nat, i: nat, sides: seq<bool>) {
    && 0 < count && Lo(j, count - 1) < n <= Lo(j, count)
    && idx < count && Lo(j, idx) <= i < Hi(j, idx, n)
    && sides == SidesAt(n, j, idx, i)
  }

  /** One loop turn: halving the index and the count moves up one level. */
  lemma HalveUp(n: nat, j: nat, idx: nat, count: nat, i: nat, sides: seq<bool>)
    requires count > 1 && AtLevel(n, j, idx, count, i, sides)
    ensures AtLevel(n, j + 1, idx / 2, (count + 1) / 2, i,
                    sides + if idx % 2 == 1 || idx + 1 < count then [idx % 2 == 0] else [])
    ensures idx < count && idx / 2 < (count + 1) / 2
  {
    hide Sides, Pow2;
    var c := (count + 1) / 2;
    LoMonotone(j, 2 * (c - 1), count - 1);
    LoMonotone(j, count, 2 * c);
    SidesUp(n, j, idx / 2, idx, i);
    if idx % 2 == 0 {
      LoMonotone(j, idx + 1, count - 1);
      LoMonotone(j, count, idx + 1);
    }
  }

  lemma LevelZero(n: nat, i: nat)
    requires i < n
    ensures AtLevel(n, 0, i, n, i, [])
  {
  }

  lemma LevelTop(n: nat, j: nat, idx: nat, i: nat, sides: seq<bool>)
    requires AtLevel(n, j, idx, 1, i, sides)
    ensures sides == Sides(i, n)
  {
    hide Sides, Pow2, Lo;
    LoIsMultiple(j, 0);
  }

  method ProofSideSequence(index: uint64, treeSize: uint64) returns (sides: seq<bool>)
    requires index < treeSize
    ensures sides == SideSequence(index, treeSize)
  {
    hide Sides, AtLevel;
    sides := [];
    var idx: uint64, count: uint64 := index, treeSize;
    ghost var j := 0;
    LevelZero(treeSize, index);
    while count > 1
      invariant count <= treeSize
      invariant treeSize != MAX_UINT64 ==> 0 < count && AtLevel(treeSize, j, idx, count, index, sides)
      invariant treeSize == MAX_UINT64 ==>
                  || (count == treeSize && idx == index && sides == [])
                  || (count == 0 && sides == SideSequence(index, treeSize))
      decreases count
    {
      ghost var above := sides + if idx % 2 == 1 || idx + 1 < count then [idx % 2 == 0] else [];
      if treeSize != MAX_UINT64 {
        HalveUp(treeSize, j, idx, count, index, sides);
      }
      if idx % 2 == 1 || (idx + 1) % TWO_TO_64 < count {
        sides := sides + [idx % 2 == 0];
      }
      assert sides == above;
      idx := idx / 2;
      count := (count + 1) % TWO_TO_64 / 2;
      j := j + 1;
    }
    if treeSize != MAX_UINT64 {
      LevelTop(treeSize, j, idx, index, sides);
    }
  }

  // ---------------------------------------------------------------- VerifyInclusion

  /** What VerifyInclusion accepts. */
  ghost predicate InclusionAccepted(H: Hash, root: Digest, index: uint64, treeSize: uint64, leaf: Digest, proof: seq<Bytes>) {
    && index < treeSize
    && ProofOk(proof)
    && SidesOf(DecodeSteps(proof)) == SideSequence(index, treeSize)
    && RootFrom(H, LeafHash(H, leaf), DecodeSteps(proof)) == root
  }

  method VerifyInclusion(H: Hash, root: Digest, index: uint64, treeSize: uint64, leaf: Digest, proof: seq<Bytes>)
      returns (err: Option<Error>)
    ensures err.None? <==> InclusionAccepted(H, root, index, treeSize, leaf, proof)
    ensures err.Some? ==> err.value == if index >= treeSize then IndexOutOfRange else TamperedLeaf
  {
    if index >= treeSize {
      return Some(IndexOutOfRange);
    }
    var path := DecodeProof(proof);
    if path.Err? {
      return Some(TamperedLeaf);
    }
    var sides := ProofSideSequence(index, treeSize);
    if |path.value| != |sides| {
      return Some(TamperedLeaf);
    }
    for i := 0 to |path.value|
      invariant forall j :: 0 <= j < i ==> SidesOf(path.value)[j] == sides[j]
    {
      if path.value[i].isRight != sides[i] {
        assert SidesOf(path.value)[i] != sides[i];
        return Some(TamperedLeaf);
      }
    }
    assert SidesOf(path.value) == sides;
    var ok := Verify(H, root, leaf, path.value);
    if !ok {
      return Some(TamperedLeaf);
    }
    return None;
  }

  /** Inclusion completeness: every leaf's honest path is accepted at its own index. */
  lemma InclusionComplete(H: Hash, D: seq<Bytes>, i: nat)
    requires i < |D| < MAX_UINT64 && |D[i]| == 32
    ensures InclusionAccepted(H, MTH(H, D), i, |D|, D[i], EncodeSteps(AuditPath(H, D, i)))
  {
    hide MTH, AuditPath;
    AuditPathComplete(H, D, i);
    AuditPathSides(H, D, i);
    ElementsRoundTrip(AuditPath(H, D, i), []);
  }

  /** A path of at most one step reaches no leaf of the largest tree. */
  lemma ShortPathMissesLeaves(H: Hash, D: seq<Bytes>, leaf: Bytes, path: seq<ProofStep>)
    requires |D| == MAX_UINT64 && |path| <= 1
    ensures MembershipWitness(H, D, leaf, path).Err?
  {
    hide MTH, Split, RootFrom, NodeInput, LeafInput;
    if |path| == 1 {
      var k := Split(|D|);
      assert path[..0] == [];
      HalvesAreLarge(|D|);
      EmptyPathMisses(H, D[..k], leaf);
      EmptyPathMisses(H, D[k..], leaf);
    }
  }

  lemma EmptyPathMisses(H: Hash, D: seq<Bytes>, leaf: Bytes)
    requires |D| > 1
    ensures MembershipWitness(H, D, leaf, []).Err?
  {
  }

  lemma HalvesAreLarge(n: nat)
    requires n == MAX_UINT64
    ensures 1 < Split(n) < n - 1
  {
    hide Split;
    var j := SplitIsPow2(n);
    var q := Pow2Quarter(j);
  }

  /** The collision in an accepted proof that is not the honest one; at the one size where the sides
      wrap, the path is too short to reach a leaf and is itself the evidence. */
  function AcceptedCollision(H: Hash, D: seq<Bytes>, i: nat, leaf: Digest, path: seq<ProofStep>): (Bytes, Bytes)
    requires i < |D|
    requires |D| != MAX_UINT64 ==> SidesOf(path) == Sides(i, |D|)
  {
    if |D| != MAX_UINT64 then InclusionCollision(H, D, i, leaf, path)
    else
      match MembershipWitness(H, D, leaf, path)
      case Ok(_) => ([], [])
      case Err(c) => c
  }

  /** Inclusion soundness: a proof accepted for index i against MTH(D) is byte for byte the honest
      proof of D[i], or exposes a collision. */
  lemma InclusionAcceptedSound(H: Hash, D: seq<Bytes>, i: nat, leaf: Digest, proof: seq<Bytes>)
    requires 0 < |D| < TWO_TO_64 && i < TWO_TO_64
    requires InclusionAccepted(H, MTH(H, D), i, |D|, leaf, proof)
    ensures (leaf == D[i] && proof == EncodeSteps(AuditPath(H, D, i)))
         || Collides(H, AcceptedCollision(H, D, i, leaf, DecodeSteps(proof)))
  {
    hide MTH, AuditPath, Sides, RootFrom, MembershipWitness;
    var path := DecodeSteps(proof);
    if |D| == MAX_UINT64 {
      assert |path| == |SidesOf(path)| <= 1;
      ShortPathMissesLeaves(H, D, leaf, path);
      MembershipSound(H, D, leaf, path);
    } else {
      InclusionSound(H, D, i, leaf, path);
      ElementsRoundTrip([], proof);
    }
  }
}
