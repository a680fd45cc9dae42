/** The level-by-level tree of merkle/tree.go and its verifiers, proved against the recursive
    definitions of RFC 6962. */
module Merkle {
  import opened Basics
  import opened MerkleSpec

  datatype Error = EmptyTree | IndexOutOfRange | InvalidRange | TreeCorrupt | TamperedLeaf

  /** levels[0] holds the leaf hashes; each next level pairs neighbours and promotes an odd last node. */
  datatype Tree = Tree(levels: seq<seq<Digest>>, size: nat)

  // ---------------------------------------------------------------- node geometry

  /** Node p of level j covers the leaves [Lo, Hi) of an n-leaf tree. */
  function Lo(j: nat, p: nat): nat {
    if j == 0 then p else Lo(j - 1, 2 * p)
  }

  function Hi(j: nat, p: nat, n: nat): nat {
    if Lo(j, p + 1) < n then Lo(j, p + 1) else n
  }

  lemma {:induction false} LoStep(j: nat, p: nat)
    ensures Lo(j, p + 1) == Lo(j, p) + Pow2(j)
  {
    if j > 0 {
      LoStep(j - 1, 2 * p);
      LoStep(j - 1, 2 * p + 1);
    }
  }

  lemma {:induction false} LoIsMultiple(j: nat, p: nat)
    ensures Lo(j, p) == p * Pow2(j)
  {
    if j > 0 {
      LoIsMultiple(j - 1, 2 * p);
    }
  }

  lemma {:induction false} LoMonotone(j: nat, p: nat, q: nat)
    ensures p <= q ==> Lo(j, p) <= Lo(j, q)
    ensures p < q ==> Lo(j, p) + Pow2(j) <= Lo(j, q)
    decreases q
  {
    if p < q {
      LoMonotone(j, p, q - 1);
      LoStep(j, q - 1);
    }
  }

  function Leaves(D: seq<Bytes>, j: nat, p: nat): (r: seq<Bytes>)
    requires Lo(j, p) < |D|
    ensures 0 < |r| <= Pow2(j)
  {
    LoStep(j, p);
    D[Lo(j, p)..Hi(j, p, |D|)]
  }

  ghost predicate NodeAt(j: nat, p: nat, lo: int, hi: int, n: nat) {
    lo == Lo(j, p) && hi == Hi(j, p, n)
  }

  /** The leaf range [lo, hi) is exactly what one node covers. */
  ghost predicate IsNode(lo: int, hi: int, n: nat) {
    0 <= lo < hi <= n && exists j: nat, p: nat :: NodeAt(j, p, lo, hi, n)
  }

  lemma Geometry(j: nat, p: nat, n: nat)
    ensures Lo(j + 1, p) == Lo(j, 2 * p)
    ensures Lo(j, 2 * p + 1) == Lo(j, 2 * p) + Pow2(j)
    ensures Lo(j, 2 * p + 2) == Lo(j, 2 * p) + 2 * Pow2(j)
    ensures Hi(j + 1, p, n) == Hi(j, 2 * p + 1, n)
    ensures Lo(j, 2 * p + 1) >= n ==> Hi(j + 1, p, n) == Hi(j, 2 * p, n)
    ensures Lo(j, 2 * p + 1) < n ==> Hi(j, 2 * p, n) == Lo(j, 2 * p + 1)
  {
    LoStep(j, 2 * p);
    LoStep(j, 2 * p + 1);
  }

  /** A node with two children splits exactly where RFC 6962 splits. */
  lemma TwoChildren(D: seq<Bytes>, j: nat, p: nat)
    requires Lo(j, 2 * p + 1) < |D|
    ensures Lo(j, 2 * p) == Lo(j + 1, p) < |D|
    ensures var parent := Leaves(D, j + 1, p);
            && |parent| > 1 && Split(|parent|) == Pow2(j)
            && parent[..Pow2(j)] == Leaves(D, j, 2 * p)
            && parent[Pow2(j)..] == Leaves(D, j, 2 * p + 1)
  {
    Geometry(j, p, |D|);
    SplitUnique(|Leaves(D, j + 1, p)|, j);
  }

  /** A promoted node covers the same leaves as its only child. */
  lemma OneChild(D: seq<Bytes>, j: nat, p: nat)
    requires Lo(j, 2 * p) < |D| <= Lo(j, 2 * p + 1)
    ensures Lo(j + 1, p) < |D| && Leaves(D, j + 1, p) == Leaves(D, j, 2 * p)
  {
    Geometry(j, p, |D|);
  }

  // ---------------------------------------------------------------- going up one level

  ghost function PathAt(H: Hash, D: seq<Bytes>, j: nat, p: nat, i: nat): seq<ProofStep>
    requires Lo(j, p) <= i < Hi(j, p, |D|)
  {
    AuditPath(H, Leaves(D, j, p), i - Lo(j, p))
  }

  lemma PathUpRight(H: Hash, D: seq<Bytes>, j: nat, p: nat, i: nat)
    requires Lo(j, 2 * p + 1) <= i < Hi(j, 2 * p + 1, |D|)
    ensures Lo(j + 1, p) <= i < Hi(j + 1, p, |D|)
    ensures Lo(j, 2 * p) < |D|
    ensures PathAt(H, D, j + 1, p, i)
         == PathAt(H, D, j, 2 * p + 1, i) + [ProofStep(MTH(H, Leaves(D, j, 2 * p)), false)]
  {
    Geometry(j, p, |D|);
    TwoChildren(D, j, p);
  }

  lemma PathUpLeft(H: Hash, D: seq<Bytes>, j: nat, p: nat, i: nat)
    requires Lo(j, 2 * p) <= i < Hi(j, 2 * p, |D|)
    requires Lo(j, 2 * p + 1) < |D|
    ensures Lo(j + 1, p) <= i < Hi(j + 1, p, |D|)
    ensures PathAt(H, D, j + 1, p, i)
         == PathAt(H, D, j, 2 * p, i) + [ProofStep(MTH(H, Leaves(D, j, 2 * p + 1)), true)]
  {
    Geometry(j, p, |D|);
    TwoChildren(D, j, p);
  }

  lemma PathUpPromoted(H: Hash, D: seq<Bytes>, j: nat, p: nat, i: nat)
    requires Lo(j, 2 * p) <= i < Hi(j, 2 * p, |D|)
    requires Lo(j, 2 * p + 1) >= |D|
    ensures Lo(j + 1, p) <= i < Hi(j + 1, p, |D|)
    ensures PathAt(H, D, j + 1, p, i) == PathAt(H, D, j, 2 * p, i)
  {
    Geometry(j, p, |D|);
    OneChild(D, j, p);
  }

  ghost function SidesAt(n: nat, j: nat, p: nat, i: nat): seq<bool>
    requires Lo(j, p) <= i < Hi(j, p, n)
  {
    Sides(i - Lo(j, p), Hi(j, p, n) - Lo(j, p))
  }

  lemma SidesUp(n: nat, j: nat, p: nat, idx: nat, i: nat)
    requires idx == 2 * p || idx == 2 * p + 1
    requires Lo(j, idx) <= i < Hi(j, idx, n)
    ensures Lo(j + 1, p) <= i < Hi(j + 1, p, n)
    ensures SidesAt(n, j + 1, p, i)
         == SidesAt(n, j, idx, i) + if idx == 2 * p + 1 || Lo(j, 2 * p + 1) < n then [idx == 2 * p] else []
  {
    hide Split;
    Geometry(j, p, n);
    if Lo(j, 2 * p + 1) < n {
      SplitUnique(Hi(j + 1, p, n) - Lo(j + 1, p), j);
    }
  }

  // ---------------------------------------------------------------- construction

  /** level[p] is the tree hash of the leaves that node p of level j covers. */
  ghost predicate NodeOk(H: Hash, D: seq<Bytes>, j: nat, level: seq<Digest>, p: nat)
    requires p < |level|
  {
    Lo(j, p) < |D| && level[p] == MTH(H, Leaves(D, j, p))
  }

  ghost predicate LevelOk(H: Hash, D: seq<Bytes>, j: nat, level: seq<Digest>) {
    && 0 < |level|
    && Lo(j, |level| - 1) < |D| <= Lo(j, |level|)
    && forall p: nat :: p < |level| ==> NodeOk(H, D, j, level, p)
  }

  ghost predicate Halved(levels: seq<seq<Digest>>, j: nat)
    requires j + 1 < |levels|
  {
    |levels[j + 1]| == (|levels[j]| + 1) / 2
  }

  ghost predicate Represents(H: Hash, t: Tree, D: seq<Bytes>) {
    && t.size == |D| > 0
    && |t.levels| > 0
    && (forall j: nat {:trigger LevelOk(H, D, j, t.levels[j])} :: j < |t.levels| ==> LevelOk(H, D, j, t.levels[j]))
    && (forall j: nat {:trigger Halved(t.levels, j)} :: j + 1 < |t.levels| ==> Halved(t.levels, j))
    && |t.levels[|t.levels| - 1]| == 1
  }

  /** Node p of the level above: the pair's hash, or the promoted odd node. */
  function ParentOf(H: Hash, level: seq<Digest>, p: nat): Digest
    requires 2 * p < |level|
  {
    if 2 * p + 1 < |level| then NodeHash(H, level[2 * p], level[2 * p + 1]) else level[2 * p]
  }

  lemma ParentOk(H: Hash, D: seq<Bytes>, j: nat, level: seq<Digest>, next: seq<Digest>, p: nat)
    requires LevelOk(H, D, j, level)
    requires 2 * p < |level| && p < |next| && next[p] == ParentOf(H, level, p)
    ensures NodeOk(H, D, j + 1, next, p)
  {
    hide Split, Pow2;
    assert NodeOk(H, D, j, level, 2 * p);
    if 2 * p + 1 < |level| {
      assert NodeOk(H, D, j, level, 2 * p + 1);
      TwoChildren(D, j, p);
    } else {
      assert 2 * p + 1 == |level|;
      OneChild(D, j, p);
    }
  }

  lemma ParentsOk(H: Hash, D: seq<Bytes>, j: nat, level: seq<Digest>, next: seq<Digest>)
    requires LevelOk(H, D, j, level)
    requires |next| == (|level| + 1) / 2
    requires forall p: nat :: p < |next| ==> next[p] == ParentOf(H, level, p)
    ensures LevelOk(H, D, j + 1, next)
  {
    hide MTH, Pow2;
    var up := j + 1;
    forall p: nat | p < |next|
      ensures NodeOk(H, D, up, next, p)
    {
      ParentOk(H, D, j, level, next, p);
    }
    LoMonotone(j, |level|, 2 * |next|);
    assert NodeOk(H, D, up, next, |next| - 1);
  }

  method NextLevel(H: Hash, level: seq<Digest>) returns (next: seq<Digest>)
    ensures |next| == (|level| + 1) / 2
    ensures forall p: nat :: p < |next| ==> next[p] == ParentOf(H, level, p)
  {
    next := [];
    var i := 0;
    while i < |level|
      invariant i == 2 * |next| && i <= |level| + 1
      invariant forall p: nat :: p < |next| ==> next[p] == ParentOf(H, level, p)
    {
      if i + 1 < |level| {
        next := next + [NodeHash(H, level[i], level[i + 1])];
      } else {
        next := next + [level[i]];
      }
      i := i + 2;
    }
  }

  /** New: the paired levels hold the tree hash of every node's leaves; only the empty list fails. */
  method New(H: Hash, leaves: seq<Bytes>) returns (r: Result<Tree, Error>)
    ensures r.Err? <==> leaves == []
    ensures r.Err? ==> r.error == EmptyTree
    ensures r.Ok? ==> Represents(H, r.value, leaves)
  {
    if |leaves| == 0 {
      return Err(EmptyTree);
    }
    var level: seq<Digest> := [];
    for i := 0 to |leaves|
      invariant |level| == i
      invariant forall p: nat :: p < i ==> level[p] == LeafHash(H, leaves[p])
    {
      level := level + [LeafHash(H, leaves[i])];
    }
    BaseLevel(H, leaves, level);
    var levels := [level];
    while |level| > 1
      invariant |levels| > 0 && level == levels[|levels| - 1]
      invariant forall j: nat {:trigger LevelOk(H, leaves, j, levels[j])} :: j < |levels| ==> LevelOk(H, leaves, j, levels[j])
      invariant forall j: nat {:trigger Halved(levels, j)} :: j + 1 < |levels| ==> Halved(levels, j)
      decreases |level|
    {
      assert LevelOk(H, leaves, |levels| - 1, level);
      var next := NextLevel(H, level);
      ParentsOk(H, leaves, |levels| - 1, level, next);
      forall j: nat | j + 1 < |levels + [next]| ensures Halved(levels + [next], j) {
        assert j + 1 < |levels| ==> Halved(levels, j);
      }
      levels := levels + [next];
      level := next;
    }
    assert LevelOk(H, leaves, |levels| - 1, level);
    r := Ok(Tree(levels, |leaves|));
  }

  lemma BaseLevel(H: Hash, D: seq<Bytes>, level: seq<Digest>)
    requires |D| > 0 && |level| == |D|
    requires forall p: nat :: p < |D| ==> level[p] == LeafHash(H, D[p])
    ensures LevelOk(H, D, 0, level)
  {
    forall p: nat | p < |level|
      ensures NodeOk(H, D, 0, level, p)
    {
      assert Leaves(D, 0, p) == [D[p]];
    }
  }

  /** The top level is the single node that covers every leaf. */
  lemma TopLevel(H: Hash, t: Tree, D: seq<Bytes>, j: nat)
    requires Represents(H, t, D) && j + 1 == |t.levels|
    ensures |t.levels[j]| == 1 && t.levels[j][0] == MTH(H, D)
    ensures Lo(j, 0) == 0 && |D| <= Lo(j, 1) && Hi(j, 0, |D|) == |D| && Leaves(D, j, 0) == D
  {
    var top := t.levels[j];
    assert LevelOk(H, D, j, top);
    LoIsMultiple(j, 0);
    assert Leaves(D, j, 0) == D;
    assert NodeOk(H, D, j, top, 0);
  }

  /** Root is the Merkle Tree Hash of section 2.1. */
  method Root(t: Tree, ghost H: Hash, ghost D: seq<Bytes>) returns (root: Bytes)
    requires Represents(H, t, D)
    ensures root == MTH(H, D)
  {
    TopLevel(H, t, D, |t.levels| - 1);
    root := t.levels[|t.levels| - 1][0];
  }

  // ---------------------------------------------------------------- audit paths

  /** The step the walk emits for node idx of a level. */
  function EmittedStep(level: seq<Digest>, idx: nat): seq<ProofStep>
    requires idx < |level|
  {
    if idx % 2 == 1 then [ProofStep(level[idx - 1], false)]
    else if idx + 1 < |level| then [ProofStep(level[idx + 1], true)]
    else []
  }

  lemma PathUp(H: Hash, D: seq<Bytes>, j: nat, level: seq<Digest>, idx: nat, i: nat)
    requires LevelOk(H, D, j, level)
    requires idx < |level| && Lo(j, idx) <= i < Hi(j, idx, |D|)
    ensures Lo(j + 1, idx / 2) <= i < Hi(j + 1, idx / 2, |D|)
    ensures PathAt(H, D, j + 1, idx / 2, i) == PathAt(H, D, j, idx, i) + EmittedStep(level, idx)
  {
    hide Split, Pow2, Lo, MTH;
    var p := idx / 2;
    if idx % 2 == 1 {
      assert NodeOk(H, D, j, level, idx - 1);
      PathUpRight(H, D, j, p, i);
    } else {
      SiblingExists(H, D, j, level, idx);
      if idx + 1 < |level| {
        assert NodeOk(H, D, j, level, idx + 1);
        PathUpLeft(H, D, j, p, i);
      } else {
        PathUpPromoted(H, D, j, p, i);
      }
    }
  }

  /** The steps the walk emits from a level on. */
  function WalkUp(levels: seq<seq<Digest>>, level: nat, idx: nat): seq<ProofStep>
    requires level < |levels| && idx < |levels[level]|
    requires forall j: nat {:trigger Halved(levels, j)} :: j + 1 < |levels| ==> Halved(levels, j)
    decreases |levels| - level
  {
    if level + 1 == |levels| then []
    else
      assert Halved(levels, level);
      EmittedStep(levels[level], idx) + WalkUp(levels, level + 1, idx / 2)
  }

  lemma {:induction false} WalkUpIsAuditPath(H: Hash, t: Tree, D: seq<Bytes>, level: nat, idx: nat, i: nat)
    requires Represents(H, t, D)
    requires level < |t.levels| && idx < |t.levels[level]|
    requires Lo(level, idx) <= i < Hi(level, idx, |D|)
    ensures PathAt(H, D, level, idx, i) + WalkUp(t.levels, level, idx) == AuditPath(H, D, i)
    decreases |t.levels| - level
  {
    hide Split, Pow2, Lo, MTH, AuditPath;
    if level + 1 == |t.levels| {
      TopLevel(H, t, D, level);
    } else {
      assert LevelOk(H, D, level, t.levels[level]) && Halved(t.levels, level);
      PathUp(H, D, level, t.levels[level], idx, i);
      WalkUpIsAuditPath(H, t, D, level + 1, idx / 2, i);
      Regroup(PathAt(H, D, level, idx, i), EmittedStep(t.levels[level], idx), WalkUp(t.levels, level + 1, idx / 2));
    }
  }

  /** Proof: the bottom-up walk emits exactly PATH of section 2.1.1. */
  method Proof(t: Tree, index: int, ghost H: Hash, ghost D: seq<Bytes>) returns (r: Result<seq<ProofStep>, Error>)
    requires Represents(H, t, D)
    ensures r.Err? <==> !(0 <= index < t.size)
    ensures r.Err? ==> r.error == IndexOutOfRange
    ensures r.Ok? ==> r.value == AuditPath(H, D, index)
  {
    if index < 0 || index >= t.size {
      return Err(IndexOutOfRange);
    }
    var steps: seq<ProofStep> := [];
    var idx: nat := index;
    var level := 0;
    assert LevelOk(H, D, 0, t.levels[0]);
    assert Leaves(D, 0, idx) == [D[idx]];
    WalkUpIsAuditPath(H, t, D, 0, idx, index);
    while level + 1 < |t.levels|
      invariant 0 <= level < |t.levels| && idx < |t.levels[level]|
      invariant steps + WalkUp(t.levels, level, idx) == AuditPath(H, D, index)
    {
      assert Halved(t.levels, level);
      ghost var before, emitted := steps, EmittedStep(t.levels[level], idx);
      Regroup(before, emitted, WalkUp(t.levels, level + 1, idx / 2));
      var count := |t.levels[level]|;
      if idx % 2 == 1 || idx + 1 < count {
        var sibling := if idx % 2 == 1 then idx - 1 else idx + 1;
        steps := steps + [ProofStep(t.levels[level][sibling], idx % 2 == 0)];
      }
      assert steps == before + emitted;
      idx := idx / 2;
      level := level + 1;
    }
    r := Ok(steps);
  }

  lemma SiblingExists(H: Hash, D: seq<Bytes>, j: nat, level: seq<Digest>, idx: nat)
    requires LevelOk(H, D, j, level)
    requires Lo(j, idx) < |D|
    ensures idx < |level|
    ensures Lo(j, idx + 1) < |D| <==> idx + 1 < |level|
  {
    LoMonotone(j, |level|, idx);
    LoMonotone(j, |level|, idx + 1);
    LoMonotone(j, idx + 1, |level| - 1);
  }

  /** Verify accepts exactly the paths that recompute the root. */
  method Verify(H: Hash, root: Bytes, leaf: Bytes, path: seq<ProofStep>) returns (ok: bool)
    ensures ok <==> RootFrom(H, LeafHash(H, leaf), path) == root
  {
    if |root| != 32 {
      return false;
    }
    var h := LeafHash(H, leaf);
    for i := 0 to |path|
      invariant h == RootFrom(H, LeafHash(H, leaf), path[..i])
    {
      assert path[..i + 1][..i] == path[..i];
      if path[i].isRight {
        h := NodeHash(H, h, path[i].hash);
      } else {
        h := NodeHash(H, path[i].hash, h);
      }
    }
    assert path[..|path|] == path;
    ok := h == root;
  }
}
