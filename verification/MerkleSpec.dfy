/** The Merkle Tree Hash of section 2.1 of RFC 6962, its audit paths (2.1.1) and consistency
    proofs (2.1.2), stated recursively over the leaf list, for an arbitrary hash function. */
module MerkleSpec {
  import opened Basics

  datatype ProofStep = ProofStep(hash: Digest, isRight: bool)

  function LeafInput(data: Bytes): Bytes { [0x00] + data }

  function NodeInput(left: Digest, right: Digest): Bytes { [0x01] + left + right }

  function LeafHash(H: Hash, data: Bytes): Digest { H(LeafInput(data)) }

  function NodeHash(H: Hash, left: Digest, right: Digest): Digest { H(NodeInput(left, right)) }

  /** A leaf preimage is a zero byte and the data, a node preimage a one byte and the two children, left
      first; so node preimages determine their children and are never leaf preimages. */
  lemma InputsSeparate(l: Digest, r: Digest, l': Digest, r': Digest, data: Bytes)
    ensures LeafInput(data)[0] == 0 && LeafInput(data)[1..] == data
    ensures |NodeInput(l, r)| == 65 && NodeInput(l, r)[0] == 1 && NodeInput(l, r)[1..33] == l && NodeInput(l, r)[33..] == r
    ensures NodeInput(l, r) == NodeInput(l', r') ==> l == l' && r == r'
    ensures NodeInput(l, r) != LeafInput(data)
  {
    assert NodeInput(l, r)[0] == 0x01 && LeafInput(data)[0] == 0x00;
    assert NodeInput(l, r)[1..33] == l && NodeInput(l', r')[1..33] == l';
    assert NodeInput(l, r)[33..] == r && NodeInput(l', r')[33..] == r';
  }

  /** The largest power of two below n. */
  function Split(n: nat): (k: nat)
    requires n > 1
    ensures 0 < k < n <= 2 * k
  {
    if n == 2 then 1 else 2 * Split((n + 1) / 2)
  }

  lemma {:induction false} SplitIsPow2(n: nat) returns (j: nat)
    requires n > 1
    ensures Split(n) == Pow2(j)
  {
    if n == 2 {
      j := 0;
    } else {
      var i := SplitIsPow2((n + 1) / 2);
      j := i + 1;
    }
  }

  /** Split is the only power of two k with k < n <= 2k. */
  lemma SplitUnique(n: nat, j: nat)
    requires Pow2(j) < n <= 2 * Pow2(j)
    ensures Split(n) == Pow2(j)
  {
    var i := SplitIsPow2(n);
    if i < j {
      Pow2Monotone(i, j);
    } else if j < i {
      Pow2Monotone(j, i);
    }
  }

  /** MTH of section 2.1. */
  function MTH(H: Hash, D: seq<Bytes>): Digest
    requires |D| > 0
    decreases |D|
  {
    if |D| == 1 then LeafHash(H, D[0])
    else NodeHash(H, MTH(H, D[..Split(|D|)]), MTH(H, D[Split(|D|)..]))
  }

  /** Where two different leaf lists with one tree hash collide. */
  function RootCollision(H: Hash, D: seq<Bytes>, E: seq<Bytes>): (Bytes, Bytes)
    requires |D| > 0 && |E| > 0
    decreases |D|
  {
    var d := TopInput(H, D);
    var e := TopInput(H, E);
    if d != e || |D| == 1 || |E| == 1 then (d, e)
    else
      var k, l := Split(|D|), Split(|E|);
      if D[..k] != E[..l] then RootCollision(H, D[..k], E[..l]) else RootCollision(H, D[k..], E[l..])
  }

  /** The preimage hashed last when computing MTH(D). */
  function TopInput(H: Hash, D: seq<Bytes>): (r: Bytes)
    requires |D| > 0
    ensures MTH(H, D) == H(r)
  {
    if |D| == 1 then LeafInput(D[0]) else NodeInput(MTH(H, D[..Split(|D|)]), MTH(H, D[Split(|D|)..]))
  }

  /** Equal top preimages come from equally shaped tops: one leaf each, or two subtrees each. */
  lemma SameTop(H: Hash, D: seq<Bytes>, E: seq<Bytes>)
    requires |D| > 0 && |E| > 0 && TopInput(H, D) == TopInput(H, E)
    ensures |D| == 1 <==> |E| == 1
    ensures |D| == 1 ==> D == E
    ensures |D| > 1 ==>
              && MTH(H, D[..Split(|D|)]) == MTH(H, E[..Split(|E|)])
              && MTH(H, D[Split(|D|)..]) == MTH(H, E[Split(|E|)..])
  {
    hide Split, MTH;
    var d, e := TopInput(H, D), TopInput(H, E);
    assert d[0] == (if |D| == 1 then 0x00 else 0x01) && e[0] == (if |E| == 1 then 0x00 else 0x01);
    if |D| == 1 {
      assert d[1..] == D[0] && e[1..] == E[0];
      assert D == [D[0]] && E == [E[0]];
    } else {
      var k, l := Split(|D|), Split(|E|);
      InputsSeparate(MTH(H, D[..k]), MTH(H, D[k..]), MTH(H, E[..l]), MTH(H, E[l..]), []);
    }
  }

  /** The tree hash binds the whole leaf list, its length included, or exposes a collision. */
  lemma {:induction false} RootBinding(H: Hash, D: seq<Bytes>, E: seq<Bytes>)
    requires |D| > 0 && |E| > 0 && MTH(H, D) == MTH(H, E)
    ensures D == E || Collides(H, RootCollision(H, D, E))
    decreases |D|
  {
    hide Split, MTH, TopInput;
    if TopInput(H, D) == TopInput(H, E) {
      SameTop(H, D, E);
      if |D| > 1 {
        var k, l := Split(|D|), Split(|E|);
        if D[..k] != E[..l] {
          RootBinding(H, D[..k], E[..l]);
        } else {
          RootBinding(H, D[k..], E[l..]);
          assert D == D[..k] + D[k..] && E == E[..l] + E[l..];
        }
      }
    }
  }

  // ---------------------------------------------------------------- audit paths

  /** PATH of section 2.1.1, with the side of every sibling. */
  function AuditPath(H: Hash, D: seq<Bytes>, i: nat): seq<ProofStep>
    requires i < |D|
    decreases |D|
  {
    if |D| == 1 then []
    else
      var k := Split(|D|);
      if i < k then AuditPath(H, D[..k], i) + [ProofStep(MTH(H, D[k..]), true)]
      else AuditPath(H, D[k..], i - k) + [ProofStep(MTH(H, D[..k]), false)]
  }

  /** The side markers section 2.1.1 fixes for leaf i of n. */
  function Sides(i: nat, n: nat): seq<bool>
    requires i < n
    decreases n
  {
    if n == 1 then []
    else
      var k := Split(n);
      if i < k then Sides(i, k) + [true] else Sides(i - k, n - k) + [false]
  }

  function SidesOf(path: seq<ProofStep>): (r: seq<bool>)
    ensures |r| == |path|
  {
    seq(|path|, i requires 0 <= i < |path| => path[i].isRight)
  }

  function StepNode(H: Hash, h: Digest, step: ProofStep): Digest {
    if step.isRight then NodeHash(H, h, step.hash) else NodeHash(H, step.hash, h)
  }

  /** The root recomputed from a leaf-level digest and a path. */
  function RootFrom(H: Hash, h: Digest, path: seq<ProofStep>): Digest {
    if path == [] then h
    else StepNode(H, RootFrom(H, h, path[..|path| - 1]), path[|path| - 1])
  }

  lemma {:induction false} AuditPathSides(H: Hash, D: seq<Bytes>, i: nat)
    requires i < |D|
    ensures SidesOf(AuditPath(H, D, i)) == Sides(i, |D|)
    decreases |D|
  {
    if |D| > 1 {
      var k := Split(|D|);
      if i < k { AuditPathSides(H, D[..k], i); } else { AuditPathSides(H, D[k..], i - k); }
    }
  }

  /** Inclusion completeness: the honest path recomputes the tree hash. */
  lemma {:induction false} AuditPathComplete(H: Hash, D: seq<Bytes>, i: nat)
    requires i < |D|
    ensures RootFrom(H, LeafHash(H, D[i]), AuditPath(H, D, i)) == MTH(H, D)
    decreases |D|
  {
    if |D| > 1 {
      var k := Split(|D|);
      var path := AuditPath(H, D, i);
      if i < k {
        AuditPathComplete(H, D[..k], i);
        assert path[..|path| - 1] == AuditPath(H, D[..k], i);
      } else {
        AuditPathComplete(H, D[k..], i - k);
        assert path[..|path| - 1] == AuditPath(H, D[k..], i - k);
      }
    }
  }

  lemma PeelSides(path: seq<ProofStep>, i: nat, n: nat)
    requires i < n && n > 1 && SidesOf(path) == Sides(i, n)
    ensures |path| > 0 && path[|path| - 1].isRight == (i < Split(n))
    ensures SidesOf(path[..|path| - 1]) == if i < Split(n) then Sides(i, Split(n)) else Sides(i - Split(n), n - Split(n))
  {
    assert path[|path| - 1].isRight == SidesOf(path)[|path| - 1];
    assert SidesOf(path[..|path| - 1]) == SidesOf(path)[..|path| - 1];
  }

  /** The collision hidden in an accepted path that is not the honest one: walk both preimages
      down from the root until they differ. */
  function InclusionCollision(H: Hash, D: seq<Bytes>, i: nat, leaf: Bytes, path: seq<ProofStep>): (Bytes, Bytes)
    requires i < |D|
    requires SidesOf(path) == Sides(i, |D|)
    decreases |D|
  {
    if |D| == 1 then (LeafInput(leaf), LeafInput(D[0]))
    else
      PeelSides(path, i, |D|);
      var k := Split(|D|);
      var rest, last := path[..|path| - 1], path[|path| - 1];
      var below := RootFrom(H, LeafHash(H, leaf), rest);
      var left, right := MTH(H, D[..k]), MTH(H, D[k..]);
      if i < k then
        if NodeInput(below, last.hash) != NodeInput(left, right)
        then (NodeInput(below, last.hash), NodeInput(left, right))
        else InclusionCollision(H, D[..k], i, leaf, rest)
      else
        if NodeInput(last.hash, below) != NodeInput(left, right)
        then (NodeInput(last.hash, below), NodeInput(left, right))
        else InclusionCollision(H, D[k..], i - k, leaf, rest)
  }

  lemma UnfoldAuditPath(H: Hash, D: seq<Bytes>, i: nat, k: nat)
    requires i < |D| && |D| > 1 && k == Split(|D|)
    ensures AuditPath(H, D, i)
         == if i < k then AuditPath(H, D[..k], i) + [ProofStep(MTH(H, D[k..]), true)]
            else AuditPath(H, D[k..], i - k) + [ProofStep(MTH(H, D[..k]), false)]
  {
    hide Split, MTH;
  }

  /** Reaching MTH(D) without a collision at the root reaches the subtree the path comes from, and
      the last step is the honest sibling. */
  lemma ClimbLeft(H: Hash, D: seq<Bytes>, i: nat, leaf: Bytes, path: seq<ProofStep>, k: nat)
    requires i < |D| && |D| > 1 && k == Split(|D|) && i < k
    requires SidesOf(path) == Sides(i, |D|)
    requires RootFrom(H, LeafHash(H, leaf), path) == MTH(H, D)
    requires !Collides(H, InclusionCollision(H, D, i, leaf, path))
    ensures |path| > 0 && path[|path| - 1] == ProofStep(MTH(H, D[k..]), true)
    ensures var rest := path[..|path| - 1];
            && SidesOf(rest) == Sides(i, k)
            && RootFrom(H, LeafHash(H, leaf), rest) == MTH(H, D[..k])
            && InclusionCollision(H, D, i, leaf, path) == InclusionCollision(H, D[..k], i, leaf, rest)
  {
    hide Split, MTH, SidesOf, Sides, LeafInput, NodeInput;
    PeelSides(path, i, |D|);
    UnfoldMTH(H, D, k);
    var last, below := path[|path| - 1], RootFrom(H, LeafHash(H, leaf), path[..|path| - 1]);
    InputsSeparate(below, last.hash, MTH(H, D[..k]), MTH(H, D[k..]), leaf);
  }

  lemma ClimbRight(H: Hash, D: seq<Bytes>, i: nat, leaf: Bytes, path: seq<ProofStep>, k: nat)
    requires i < |D| && |D| > 1 && k == Split(|D|) && i >= k
    requires SidesOf(path) == Sides(i, |D|)
    requires RootFrom(H, LeafHash(H, leaf), path) == MTH(H, D)
    requires !Collides(H, InclusionCollision(H, D, i, leaf, path))
    ensures |path| > 0 && path[|path| - 1] == ProofStep(MTH(H, D[..k]), false)
    ensures var rest := path[..|path| - 1];
            && SidesOf(rest) == Sides(i - k, |D| - k)
            && RootFrom(H, LeafHash(H, leaf), rest) == MTH(H, D[k..])
            && InclusionCollision(H, D, i, leaf, path) == InclusionCollision(H, D[k..], i - k, leaf, rest)
  {
    hide Split, MTH, SidesOf, Sides, LeafInput, NodeInput;
    PeelSides(path, i, |D|);
    UnfoldMTH(H, D, k);
    var last, below := path[|path| - 1], RootFrom(H, LeafHash(H, leaf), path[..|path| - 1]);
    InputsSeparate(last.hash, below, MTH(H, D[..k]), MTH(H, D[k..]), leaf);
  }

  lemma OneLeaf(H: Hash, D: seq<Bytes>, leaf: Bytes, path: seq<ProofStep>)
    requires |D| == 1 && SidesOf(path) == Sides(0, 1)
    requires RootFrom(H, LeafHash(H, leaf), path) == MTH(H, D)
    ensures (leaf == D[0] && path == AuditPath(H, D, 0)) || Collides(H, InclusionCollision(H, D, 0, leaf, path))
  {
    hide Split, NodeInput, NodeHash;
    assert path == [];
    assert LeafInput(leaf)[1..] == leaf && LeafInput(D[0])[1..] == D[0];
  }

  /** Inclusion soundness: a path of the right shape that recomputes MTH(D) is the honest path of
      the honest leaf, unless it exhibits a collision. */
  lemma {:induction false} InclusionSound(H: Hash, D: seq<Bytes>, i: nat, leaf: Bytes, path: seq<ProofStep>)
    requires i < |D|
    requires SidesOf(path) == Sides(i, |D|)
    requires RootFrom(H, LeafHash(H, leaf), path) == MTH(H, D)
    ensures (leaf == D[i] && path == AuditPath(H, D, i))
         || Collides(H, InclusionCollision(H, D, i, leaf, path))
    decreases |D|
  {
    hide Split, MTH, AuditPath, SidesOf, Sides, LeafHash, RootFrom, InclusionCollision;
    if |D| == 1 {
      OneLeaf(H, D, leaf, path);
    } else if !Collides(H, InclusionCollision(H, D, i, leaf, path)) {
      var k := Split(|D|);
      UnfoldAuditPath(H, D, i, k);
      if i < k {
        ClimbLeft(H, D, i, leaf, path, k);
        InclusionSound(H, D[..k], i, leaf, path[..|path| - 1]);
      } else {
        ClimbRight(H, D, i, leaf, path, k);
        InclusionSound(H, D[k..], i - k, leaf, path[..|path| - 1]);
      }
      assert path == path[..|path| - 1] + [path[|path| - 1]];
    }
  }

  /** What an accepted path of ANY shape yields: the leaf's position in D, or a collision. */
  function MembershipWitness(H: Hash, D: seq<Bytes>, leaf: Bytes, path: seq<ProofStep>): Result<nat, (Bytes, Bytes)>
    requires |D| > 0
    decreases |D|
  {
    if path == [] && |D| == 1 then
      if leaf == D[0] then Ok(0) else Err((LeafInput(leaf), LeafInput(D[0])))
    else if path == [] then
      Err((LeafInput(leaf), NodeInput(MTH(H, D[..Split(|D|)]), MTH(H, D[Split(|D|)..]))))
    else
      var rest, last := path[..|path| - 1], path[|path| - 1];
      var below := RootFrom(H, LeafHash(H, leaf), rest);
      var input := if last.isRight then NodeInput(below, last.hash) else NodeInput(last.hash, below);
      if |D| == 1 then Err((input, LeafInput(D[0])))
      else
        var k := Split(|D|);
        var honest := NodeInput(MTH(H, D[..k]), MTH(H, D[k..]));
        if input != honest then Err((input, honest))
        else if last.isRight then MembershipWitness(H, D[..k], leaf, rest)
        else
          match MembershipWitness(H, D[k..], leaf, rest)
          case Ok(j) => Ok(k + j)
          case Err(c) => Err(c)
  }

  /** Domain separation at work: even with no index bound to the path, an accepted path proves
      that the leaf is one of D's, unless it exhibits a collision. */
  lemma {:induction false} MembershipSound(H: Hash, D: seq<Bytes>, leaf: Bytes, path: seq<ProofStep>)
    requires |D| > 0
    requires RootFrom(H, LeafHash(H, leaf), path) == MTH(H, D)
    ensures var w := MembershipWitness(H, D, leaf, path);
            if w.Ok? then w.value < |D| && D[w.value] == leaf else Collides(H, w.error)
    decreases |D|
  {
    if path == [] && |D| == 1 {
      assert LeafInput(leaf)[1..] == leaf && LeafInput(D[0])[1..] == D[0];
    } else if path == [] {
      var l, r := MTH(H, D[..Split(|D|)]), MTH(H, D[Split(|D|)..]);
      InputsSeparate(l, r, l, r, leaf);
    } else {
      var rest, last := path[..|path| - 1], path[|path| - 1];
      var below := RootFrom(H, LeafHash(H, leaf), rest);
      if |D| == 1 {
        InputsSeparate(below, last.hash, below, last.hash, D[0]);
        InputsSeparate(last.hash, below, below, last.hash, D[0]);
      } else {
        var k := Split(|D|);
        var left, right := MTH(H, D[..k]), MTH(H, D[k..]);
        if last.isRight {
          InputsSeparate(below, last.hash, left, right, leaf);
          if NodeInput(below, last.hash) == NodeInput(left, right) {
            MembershipSound(H, D[..k], leaf, rest);
          }
        } else {
          InputsSeparate(last.hash, below, left, right, leaf);
          if NodeInput(last.hash, below) == NodeInput(left, right) {
            MembershipSound(H, D[k..], leaf, rest);
          }
        }
      }
    }
  }

  // ---------------------------------------------------------------- consistency proofs

  /** The number of nodes SUBPROOF emits for m old leaves out of n. */
  function SubproofLength(m: nat, n: nat, b: bool): nat
    requires 0 < m <= n
    decreases n
  {
    if m == n then (if b then 0 else 1)
    else
      var k := Split(n);
      1 + if m <= k then SubproofLength(m, k, b) else SubproofLength(m - k, n - k, false)
  }

  /** SUBPROOF of section 2.1.2, with isRight set on nodes that commit to a right subtree. */
  function Subproof(H: Hash, m: nat, D: seq<Bytes>, b: bool): (r: seq<ProofStep>)
    requires 0 < m <= |D|
    ensures |r| == SubproofLength(m, |D|, b)
    decreases |D|
  {
    if m == |D| then (if b then [] else [ProofStep(MTH(H, D), false)])
    else
      var k := Split(|D|);
      if m <= k then Subproof(H, m, D[..k], b) + [ProofStep(MTH(H, D[k..]), true)]
      else Subproof(H, m - k, D[k..], false) + [ProofStep(MTH(H, D[..k]), false)]
  }

  /** The pair (n-leaf hash, m-leaf hash) a verifier recomputes from a proof of the right length. */
  function Recompute(H: Hash, m: nat, n: nat, b: bool, prior: Digest, s: seq<ProofStep>): (Digest, Digest)
    requires 0 < m <= n
    requires |s| == SubproofLength(m, n, b)
    decreases n
  {
    if m == n then (if b then (prior, prior) else (s[0].hash, s[0].hash))
    else
      var k := Split(n);
      var rest, last := s[..|s| - 1], s[|s| - 1].hash;
      if m <= k then
        var (l, o) := Recompute(H, m, k, b, prior, rest);
        (NodeHash(H, l, last), o)
      else
        var (r, o) := Recompute(H, m - k, n - k, false, prior, rest);
        (NodeHash(H, last, r), NodeHash(H, last, o))
  }

  lemma UnfoldMTH(H: Hash, D: seq<Bytes>, k: nat)
    requires |D| > 1 && k == Split(|D|)
    ensures MTH(H, D) == NodeHash(H, MTH(H, D[..k]), MTH(H, D[k..]))
  {
    hide Split, NodeHash;
  }

  lemma JoinMTH(H: Hash, left: seq<Bytes>, right: seq<Bytes>)
    requires 0 < |right| && 0 < |left| == Split(|left| + |right|)
    ensures MTH(H, left + right) == NodeHash(H, MTH(H, left), MTH(H, right))
  {
    hide Split, MTH, NodeHash;
    var D := left + right;
    assert D[..|left|] == left && D[|left|..] == right;
    UnfoldMTH(H, D, |left|);
  }

  /** A prefix that reaches past the split shares the split: its tree hash is built on the same
      left subtree. */
  lemma PrefixSplit(H: Hash, m: nat, D: seq<Bytes>)
    requires 1 < |D| && Split(|D|) < m <= |D|
    ensures MTH(H, D[..m])
         == NodeHash(H, MTH(H, D[..Split(|D|)]), MTH(H, D[Split(|D|)..][..m - Split(|D|)]))
  {
    hide Split, Pow2, MTH;
    var k := Split(|D|);
    var j := SplitIsPow2(|D|);
    SplitUnique(m, j);
    assert D[..m] == D[..k] + D[k..][..m - k];
    JoinMTH(H, D[..k], D[k..][..m - k]);
  }

  /** One step of the recomputation, over a proof that ends in the given node. */
  lemma UnfoldRecompute(H: Hash, m: nat, n: nat, b: bool, prior: Digest, rest: seq<ProofStep>, last: ProofStep, k: nat)
    requires 0 < m < n && k == Split(n) && |rest| + 1 == SubproofLength(m, n, b)
    ensures Recompute(H, m, n, b, prior, rest + [last])
         == if m <= k then
              var (l, o) := Recompute(H, m, k, b, prior, rest);
              (NodeHash(H, l, last.hash), o)
            else
              var (r, o) := Recompute(H, m - k, n - k, false, prior, rest);
              (NodeHash(H, last.hash, r), NodeHash(H, last.hash, o))
  {
    hide Split, NodeHash;
    var s := rest + [last];
    assert s[..|s| - 1] == rest && s[|s| - 1] == last;
  }

  lemma UnfoldSubproof(H: Hash, m: nat, D: seq<Bytes>, b: bool, k: nat)
    requires 0 < m < |D| && k == Split(|D|)
    ensures Subproof(H, m, D, b)
         == if m <= k then Subproof(H, m, D[..k], b) + [ProofStep(MTH(H, D[k..]), true)]
            else Subproof(H, m - k, D[k..], false) + [ProofStep(MTH(H, D[..k]), false)]
  {
    hide Split, MTH;
  }

  lemma SubproofOfAll(H: Hash, D: seq<Bytes>, b: bool, prior: Digest)
    requires 0 < |D| && (b ==> prior == MTH(H, D[..|D|]))
    ensures Recompute(H, |D|, |D|, b, prior, Subproof(H, |D|, D, b)) == (MTH(H, D), MTH(H, D[..|D|]))
  {
    hide Split, MTH;
    assert D[..|D|] == D;
  }

  /** Consistency completeness on the specification: the honest proof recomputes both roots. */
  lemma {:induction false} SubproofComplete(H: Hash, m: nat, D: seq<Bytes>, b: bool, prior: Digest)
    requires 0 < m <= |D|
    requires b ==> prior == MTH(H, D[..m])
    ensures Recompute(H, m, |D|, b, prior, Subproof(H, m, D, b)) == (MTH(H, D), MTH(H, D[..m]))
    decreases |D|
  {
    hide Split, MTH, NodeHash, Recompute, Subproof, SubproofLength;
    if m == |D| {
      SubproofOfAll(H, D, b, prior);
    } else {
      var k := Split(|D|);
      UnfoldSubproof(H, m, D, b, k);
      UnfoldMTH(H, D, k);
      if m <= k {
        var last := ProofStep(MTH(H, D[k..]), true);
        assert D[..k][..m] == D[..m];
        SubproofComplete(H, m, D[..k], b, prior);
        UnfoldRecompute(H, m, |D|, b, prior, Subproof(H, m, D[..k], b), last, k);
      } else {
        var last := ProofStep(MTH(H, D[..k]), false);
        SubproofComplete(H, m - k, D[k..], false, prior);
        UnfoldRecompute(H, m, |D|, b, prior, Subproof(H, m - k, D[k..], false), last, k);
        PrefixSplit(H, m, D);
      }
    }
  }

  function HashesOf(s: seq<ProofStep>): (r: seq<Digest>)
    ensures |r| == |s|
  {
    seq(|s|, i requires 0 <= i < |s| => s[i].hash)
  }

  lemma HashesOfSnoc(s: seq<ProofStep>, x: ProofStep)
    ensures HashesOf(s + [x]) == HashesOf(s) + [x.hash]
  {
  }

  /** The collision hidden in an accepted consistency proof that is not the honest one. */
  function ConsistencyCollision(H: Hash, m: nat, D: seq<Bytes>, b: bool, prior: Digest, s: seq<ProofStep>): (Bytes, Bytes)
    requires 0 < m <= |D|
    requires |s| == SubproofLength(m, |D|, b)
    decreases |D|
  {
    if m == |D| then ([], [])
    else
      var k := Split(|D|);
      var rest, last := s[..|s| - 1], s[|s| - 1].hash;
      var honest := NodeInput(MTH(H, D[..k]), MTH(H, D[k..]));
      if m <= k then
        var l := Recompute(H, m, k, b, prior, rest).0;
        if NodeInput(l, last) != honest then (NodeInput(l, last), honest)
        else ConsistencyCollision(H, m, D[..k], b, prior, rest)
      else
        var r := Recompute(H, m - k, |D| - k, false, prior, rest).0;
        if NodeInput(last, r) != honest then (NodeInput(last, r), honest)
        else ConsistencyCollision(H, m - k, D[k..], false, prior, rest)
  }

  /** A verifier that hits MTH(D) without exposing a collision at the root hits the tree hash of
      the subtree it descends into, and holds the honest sibling. */
  lemma DescendLeft(H: Hash, m: nat, D: seq<Bytes>, b: bool, prior: Digest, s: seq<ProofStep>, k: nat, rest: seq<ProofStep>)
    requires 1 < |D| && k == Split(|D|) && 0 < m <= k
    requires |s| == SubproofLength(m, |D|, b) && rest == s[..|s| - 1]
    requires Recompute(H, m, |D|, b, prior, s).0 == MTH(H, D)
    requires !Collides(H, ConsistencyCollision(H, m, D, b, prior, s))
    ensures s[|s| - 1].hash == MTH(H, D[k..])
    ensures Recompute(H, m, k, b, prior, rest).0 == MTH(H, D[..k])
    ensures Recompute(H, m, |D|, b, prior, s).1 == Recompute(H, m, k, b, prior, rest).1
    ensures ConsistencyCollision(H, m, D, b, prior, s) == ConsistencyCollision(H, m, D[..k], b, prior, rest)
  {
    InputsSeparate(Recompute(H, m, k, b, prior, rest).0, s[|s| - 1].hash, MTH(H, D[..k]), MTH(H, D[k..]), []);
  }

  lemma DescendRight(H: Hash, m: nat, D: seq<Bytes>, b: bool, prior: Digest, s: seq<ProofStep>, k: nat, rest: seq<ProofStep>, R: seq<Bytes>)
    requires 1 < |D| && k == Split(|D|) && k < m < |D| && R == D[k..]
    requires |s| == SubproofLength(m, |D|, b) && rest == s[..|s| - 1]
    requires Recompute(H, m, |D|, b, prior, s).0 == MTH(H, D)
    requires !Collides(H, ConsistencyCollision(H, m, D, b, prior, s))
    ensures |rest| == SubproofLength(m - k, |R|, false)
    ensures s[|s| - 1].hash == MTH(H, D[..k])
    ensures Recompute(H, m - k, |R|, false, prior, rest).0 == MTH(H, R)
    ensures Recompute(H, m, |D|, b, prior, s).1
         == NodeHash(H, MTH(H, D[..k]), Recompute(H, m - k, |R|, false, prior, rest).1)
    ensures ConsistencyCollision(H, m, D, b, prior, s) == ConsistencyCollision(H, m - k, R, false, prior, rest)
  {
    InputsSeparate(s[|s| - 1].hash, Recompute(H, m - k, |R|, false, prior, rest).0, MTH(H, D[..k]), MTH(H, R), []);
  }

  /** Consistency soundness: a proof that recomputes MTH(D) recomputes the hash of D's first m
      leaves and carries exactly the honest node hashes, unless it exhibits a collision. */
  lemma {:induction false} ConsistencySound(H: Hash, m: nat, D: seq<Bytes>, b: bool, prior: Digest, s: seq<ProofStep>)
    requires 0 < m <= |D|
    requires |s| == SubproofLength(m, |D|, b)
    requires Recompute(H, m, |D|, b, prior, s).0 == MTH(H, D)
    ensures Collides(H, ConsistencyCollision(H, m, D, b, prior, s))
         || (&& Recompute(H, m, |D|, b, prior, s).1 == MTH(H, D[..m])
             && HashesOf(s) == HashesOf(Subproof(H, m, D, b)))
    decreases |D|
  {
    hide Split, MTH;
    if m == |D| {
      assert D[..m] == D;
    } else if !Collides(H, ConsistencyCollision(H, m, D, b, prior, s)) {
      var k := Split(|D|);
      var rest := s[..|s| - 1];
      assert s == rest + [s[|s| - 1]];
      HashesOfSnoc(rest, s[|s| - 1]);
      if m <= k {
        DescendLeft(H, m, D, b, prior, s, k, rest);
        ConsistencySound(H, m, D[..k], b, prior, rest);
        assert D[..k][..m] == D[..m];
        HashesOfSnoc(Subproof(H, m, D[..k], b), ProofStep(MTH(H, D[k..]), true));
      } else {
        var R := D[k..];
        DescendRight(H, m, D, b, prior, s, k, rest, R);
        ConsistencySound(H, m - k, R, false, prior, rest);
        PrefixSplit(H, m, D);
        HashesOfSnoc(Subproof(H, m - k, R, false), ProofStep(MTH(H, D[..k]), false));
      }
    }
  }
}
