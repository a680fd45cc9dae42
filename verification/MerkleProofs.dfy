/** Subtree lookup and consistency proofs of merkle/tree.go. */
module MerkleProofs {
  import opened Basics
  import opened MerklePrefix
  import opened MerkleSpec
  import opened Merkle

  // ---------------------------------------------------------------- subtree lookup

  lemma NodeIntro(j: nat, p: nat, n: nat)
    requires Lo(j, p) < n
    ensures IsNode(Lo(j, p), Hi(j, p, n), n)
  {
    LoStep(j, p);
    assert NodeAt(j, p, Lo(j, p), Hi(j, p, n), n);
  }

  /** Nodes nest: one inside another, but not equal to it, lies in one of its halves. */
  lemma NodeInOneHalf(lo: nat, hi: nat, n: nat, j: nat, p: nat)
    requires IsNode(lo, hi, n)
    requires Lo(j + 1, p) <= lo && hi <= Hi(j + 1, p, n)
    requires lo < Lo(j, 2 * p + 1) < hi
    ensures lo == Lo(j + 1, p) && hi == Hi(j + 1, p, n)
  {
    var i: nat, q: nat :| NodeAt(i, q, lo, hi, n);
    LoStep(i, q);
    if i <= j {
      var s := LoRefine(j, 2 * p + 1, i);
      LoMonotone(i, q, s);
      LoMonotone(i, s, q);
      assert false;
    }
    Geometry(j, p, n);
    LoStep(j + 1, p);
    LoAligned(i, q, j + 1, p);
    Pow2Monotone(j + 1, i);
  }

  /** A level-j boundary is a level-i boundary for every i below j. */
  lemma {:induction false} LoRefine(j: nat, p: nat, i: nat) returns (s: nat)
    requires i <= j
    ensures Lo(i, s) == Lo(j, p)
    decreases j
  {
    if i == j {
      s := p;
    } else {
      s := LoRefine(j - 1, 2 * p, i);
    }
  }

  /** A coarse boundary inside a finer node is that node's lower end. */
  lemma LoAligned(i: nat, q: nat, j: nat, p: nat)
    requires j <= i
    requires Lo(j, p) <= Lo(i, q) < Lo(j, p) + Pow2(j)
    ensures Lo(i, q) == Lo(j, p)
  {
    var s := LoRefine(i, q, j);
    LoMonotone(j, p, s);
    LoMonotone(j, s, p);
  }

  /** What a stored node is, and which children it has. */
  lemma StoredNode(H: Hash, t: Tree, D: seq<Bytes>, j: nat, p: nat)
    requires Represents(H, t, D)
    requires j < |t.levels| && p < |t.levels[j]|
    ensures Lo(j, p) < t.size && Lo(j, p + 1) == Lo(j, p) + Pow2(j)
    ensures t.levels[j][p] == MTH(H, D[Lo(j, p)..Hi(j, p, t.size)])
    ensures j > 0 ==> 2 * p < |t.levels[j - 1]| && Lo(j - 1, 2 * p + 1) == Lo(j, p) + Pow2(j - 1)
    ensures j > 0 ==> (2 * p + 1 < |t.levels[j - 1]| <==> Lo(j - 1, 2 * p + 1) < t.size)
  {
    var row := t.levels[j];
    assert LevelOk(H, D, j, row);
    assert NodeOk(H, D, j, row, p);
    LoStep(j, p);
    if j > 0 {
      assert LevelOk(H, D, j - 1, t.levels[j - 1]);
      SiblingExists(H, D, j - 1, t.levels[j - 1], 2 * p);
      LoStep(j - 1, 2 * p);
    }
  }

  /** The descent from node (j, p) towards the leaf range [lo, hi). */
  ghost function Locate(n: nat, j: nat, p: nat, lo: int, hi: int): Option<(nat, nat)>
    decreases j
  {
    if Lo(j, p) == lo && Hi(j, p, n) == hi then Some((j, p))
    else if j == 0 then None
    else
      var leftHi := Lo(j - 1, 2 * p + 1);
      if leftHi >= n || hi <= leftHi then Locate(n, j - 1, 2 * p, lo, hi)
      else if lo < leftHi then None
      else Locate(n, j - 1, 2 * p + 1, lo, hi)
  }

  lemma {:induction false} LocateSound(n: nat, j: nat, p: nat, lo: int, hi: int)
    ensures var r := Locate(n, j, p, lo, hi);
            r.Some? ==> NodeAt(r.value.0, r.value.1, lo, hi, n)
    decreases j
  {
    if j > 0 {
      LocateSound(n, j - 1, 2 * p, lo, hi);
      LocateSound(n, j - 1, 2 * p + 1, lo, hi);
    }
  }

  lemma {:induction false} LocateComplete(n: nat, j: nat, p: nat, lo: int, hi: int)
    requires IsNode(lo, hi, n)
    requires Lo(j, p) <= lo && hi <= Hi(j, p, n)
    ensures Locate(n, j, p, lo, hi).Some?
    decreases j
  {
    if j == 0 {
      LoStep(0, p);
    } else if !(Lo(j, p) == lo && Hi(j, p, n) == hi) {
      Geometry(j - 1, p, n);
      var leftHi := Lo(j - 1, 2 * p + 1);
      if leftHi >= n || hi <= leftHi {
        LocateComplete(n, j - 1, 2 * p, lo, hi);
      } else if lo < leftHi {
        NodeInOneHalf(lo, hi, n, j - 1, p);
      } else {
        LocateComplete(n, j - 1, 2 * p + 1, lo, hi);
      }
    }
  }

  /** subtree finds a digest exactly for the ranges that are nodes, and it is their tree hash.
      Lo is the source's p << j. */
  method Subtree(t: Tree, lo: int, hi: int, ghost H: Hash, ghost D: seq<Bytes>) returns (h: Option<Digest>)
    requires Represents(H, t, D)
    ensures h.Some? <==> IsNode(lo, hi, t.size)
    ensures h.Some? ==> h.value == MTH(H, D[lo..hi])
  {
    hide Split, MTH, Pow2;
    if lo < 0 || hi > t.size || lo >= hi {
      return None;
    }
    var j: nat := |t.levels| - 1;
    var p: nat := 0;
    TopLevel(H, t, D, j);
    ghost var found := Locate(t.size, j, p, lo, hi);
    LocateSound(t.size, j, p, lo, hi);
    if IsNode(lo, hi, t.size) {
      LocateComplete(t.size, j, p, lo, hi);
    }
    while true
      invariant j < |t.levels| && p < |t.levels[j]|
      invariant Locate(t.size, j, p, lo, hi) == found
      decreases j
    {
      StoredNode(H, t, D, j, p);
      var coverLo := Lo(j, p);
      var coverHi := coverLo + Pow2(j);
      if coverHi > t.size {
        coverHi := t.size;
      }
      if coverLo == lo && coverHi == hi {
        return Some(t.levels[j][p]);
      }
      if j == 0 {
        return None;
      }
      var left, right := 2 * p, 2 * p + 1;
      if right >= |t.levels[j - 1]| {
        p := left;
        j := j - 1;
        continue;
      }
      var leftHi := coverLo + Pow2(j - 1);
      if hi <= leftHi {
        p := left;
      } else if lo < leftHi {
        return None;
      } else {
        p := right;
      }
      j := j - 1;
    }
  }

  // ---------------------------------------------------------------- consistency proofs

  /** Both halves of a node's RFC split are nodes, so every lookup of the recursion hits. */
  lemma HalvesAreNodes(lo: nat, hi: nat, n: nat)
    requires IsNode(lo, hi, n) && hi - lo > 1
    ensures IsNode(lo, lo + Split(hi - lo), n)
    ensures IsNode(lo + Split(hi - lo), hi, n)
  {
    var j: nat, p: nat :| NodeAt(j, p, lo, hi, n);
    LoStep(j, p);
    var k := Split(hi - lo);
    var i := SplitIsPow2(hi - lo);
    if i >= j {
      Pow2Monotone(j, i);
      assert false;
    }
    var s := LoRefine(j, p, i);
    LoStep(i, s);
    LoStep(i, s + 1);
    Pow2Monotone(i, j);
    NodeIntro(i, s, n);
    assert hi == Hi(i, s + 1, n) by {
      if i + 1 < j {
        Pow2Monotone(i + 1, j);
      }
    }
    NodeIntro(i, s + 1, n);
  }

  /** The path under construction: the source's *AuditPath argument. */
  class PathBuffer {
    var steps: seq<ProofStep>

    constructor ()
      ensures steps == []
    {
      steps := [];
    }

    method Append(h: Digest, isRight: bool)
      modifies this
      ensures steps == old(steps) + [ProofStep(h, isRight)]
    {
      steps := steps + [ProofStep(h, isRight)];
    }
  }

  // ---------------------------------------------------------------- the split point in 64 bits

  /** The loop variable of largestPow2LessThan after i turns: doubling wraps. */
  ghost function Doubled(i: nat): int {
    if i == 0 then 1 else Wrap(2 * Doubled(i - 1))
  }

  /** The loop guard holds after every number of turns. */
  ghost predicate LoopsForever(n: int) {
    forall i: nat :: Wrap(2 * Doubled(i)) < n
  }

  lemma Pow2Of62()
    ensures Pow2(62) == TWO_TO_62
  {
    assert Pow2(8) == 0x100;
    assert Pow2(16) == 0x1_0000;
    assert Pow2(24) == 0x100_0000;
    assert Pow2(32) == 0x1_0000_0000;
    assert Pow2(40) == 0x100_0000_0000;
    assert Pow2(48) == 0x1_0000_0000_0000;
    assert Pow2(56) == 0x100_0000_0000_0000;
  }

  lemma WrapDoubles(x: int)
    ensures 0 <= x < TWO_TO_62 ==> Wrap(2 * x) == 2 * x
    ensures Wrap(2 * TWO_TO_62) == -2 * TWO_TO_62 && Wrap(-4 * TWO_TO_62) == 0
  {
  }

  /** Powers of two up to 2^62, then the most negative integer, then zero for ever. */
  lemma {:induction false} DoubledValue(i: nat)
    ensures Doubled(i) == if i <= 62 then Pow2(i) else if i == 63 then -2 * TWO_TO_62 else 0
  {
    hide Wrap;
    if i > 0 {
      DoubledValue(i - 1);
      hide Pow2;
      Pow2Of62();
      WrapDoubles(0);
      if i <= 62 {
        Pow2Monotone(i - 1, 62);
        WrapDoubles(Pow2(i - 1));
        PowStep(i);
      }
    }
  }

  lemma PowStep(i: nat)
    requires i > 0
    ensures Pow2(i) == 2 * Pow2(i - 1)
  {
  }

  lemma DoubledBound(i: nat)
    ensures Doubled(i) <= TWO_TO_62
    ensures Doubled(62) == TWO_TO_62
  {
    hide Doubled, Pow2;
    Pow2Of62();
    DoubledValue(i);
    DoubledValue(62);
    if i <= 62 {
      Pow2Monotone(i, 62);
    }
  }

  /** largestPow2LessThan never returns exactly above 2^62. */
  lemma LoopsForeverExactly(n: int)
    ensures LoopsForever(n) <==> n > TWO_TO_62
  {
    if n > TWO_TO_62 {
      forall i: nat
        ensures Wrap(2 * Doubled(i)) < n
      {
        DoubledBound(i + 1);
      }
    } else {
      DoubledBound(0);
      assert Wrap(2 * Doubled(61)) == Doubled(62);
    }
  }

  /** largestPow2LessThan; 1 when no power of two is below n. Zero doubles to itself, so a loop that
      reaches it is in it for ever. */
  method LargestPow2LessThan(n: int) returns (r: Outcome<nat>)
    ensures r.NeverReturns? <==> LoopsForever(n)
    ensures r.Returned? ==> n <= TWO_TO_62 && r.value == if n > 1 then Split(n) else 1
  {
    hide Split, Pow2, LoopsForever, Wrap;
    LoopsForeverExactly(n);
    var k: int := 1;
    ghost var i: nat := 0;
    while Wrap(2 * k) < n
      invariant k == Doubled(i) && i <= 64
      invariant i > 61 ==> n > TWO_TO_62
      invariant 0 < i ==> k < n
      decreases 65 - i
    {
      DoubledValue(i);
      if k == 0 {
        return NeverReturns;
      }
      if i == 61 { DoubledBound(0); }
      k := Wrap(2 * k);
      i := i + 1;
    }
    DoubledBound(i + 1);
    SplitFound(n, i);
    r := Returned(k);
  }

  /** The first turn at which the guard fails is the split point. */
  lemma SplitFound(n: int, i: nat)
    requires i <= 61 && Doubled(i + 1) >= n && (0 < i ==> Doubled(i) < n)
    ensures n <= TWO_TO_62
    ensures Doubled(i) > 0 && Doubled(i) == if n > 1 then Split(n) else 1
  {
    hide Split;
    DoubledValue(i);
    DoubledValue(i + 1);
    DoubledBound(i + 1);
    if n > 1 {
      SplitUnique(n, i);
    }
  }

  method AppendSubtree(t: Tree, lo: int, hi: int, isRight: bool, path: PathBuffer, ghost H: Hash, ghost D: seq<Bytes>)
      returns (ok: bool)
    requires Represents(H, t, D)
    modifies path
    ensures ok <==> IsNode(lo, hi, t.size)
    ensures ok ==> path.steps == old(path.steps) + [ProofStep(MTH(H, D[lo..hi]), isRight)]
  {
    var h := Subtree(t, lo, hi, H, D);
    if h.None? {
      return false;
    }
    path.Append(h.value, isRight);
    return true;
  }

  /** SUBPROOF over a leaf range of D. */
  ghost function SubproofAt(H: Hash, m: nat, D: seq<Bytes>, lo: nat, hi: nat, b: bool): seq<ProofStep>
    requires lo < hi <= |D| && 0 < m <= hi - lo
    decreases hi - lo
  {
    if m == hi - lo then (if b then [] else [ProofStep(MTH(H, D[lo..hi]), false)])
    else
      var mid := lo + Split(hi - lo);
      if m <= mid - lo then SubproofAt(H, m, D, lo, mid, b) + [ProofStep(MTH(H, D[mid..hi]), true)]
      else SubproofAt(H, m - (mid - lo), D, mid, hi, false) + [ProofStep(MTH(H, D[lo..mid]), false)]
  }

  lemma SubproofUnfold(H: Hash, m: nat, left: seq<Bytes>, right: seq<Bytes>, b: bool)
    requires 0 < m < |left| + |right| && 0 < |left| == Split(|left| + |right|)
    ensures Subproof(H, m, left + right, b)
         == if m <= |left| then Subproof(H, m, left, b) + [ProofStep(MTH(H, right), true)]
            else Subproof(H, m - |left|, right, false) + [ProofStep(MTH(H, left), false)]
  {
    hide Split, MTH, SubproofLength;
    assert (left + right)[..|left|] == left;
    assert (left + right)[|left|..] == right;
  }

  lemma {:induction false} SubproofAtIsSubproof(H: Hash, m: nat, D: seq<Bytes>, lo: nat, hi: nat, b: bool)
    requires lo < hi <= |D| && 0 < m <= hi - lo
    ensures SubproofAt(H, m, D, lo, hi, b) == Subproof(H, m, D[lo..hi], b)
    decreases hi - lo
  {
    hide Split, MTH, SubproofLength;
    if m < hi - lo {
      var mid := lo + Split(hi - lo);
      assert D[lo..hi] == D[lo..mid] + D[mid..hi];
      SubproofUnfold(H, m, D[lo..mid], D[mid..hi], b);
      if m <= mid - lo {
        SubproofAtIsSubproof(H, m, D, lo, mid, b);
      } else {
        SubproofAtIsSubproof(H, m - (mid - lo), D, mid, hi, false);
      }
    }
  }

  lemma NodeRange(H: Hash, t: Tree, D: seq<Bytes>, lo: int, hi: int)
    requires Represents(H, t, D) && IsNode(lo, hi, t.size)
    ensures 0 <= lo < hi <= |D| == t.size
  {
    hide NodeAt, LevelOk, Halved;
  }

  /** consistencySubproof appends exactly SUBPROOF of section 2.1.2 and never fails; on a range it has to
      split, of more than 2^62 leaves, it does not return. */
  method ConsistencySubproof(t: Tree, m: int, lo: int, hi: int, b: bool, path: PathBuffer,
                             ghost H: Hash, ghost D: seq<Bytes>) returns (r: Outcome<bool>)
    requires Represents(H, t, D)
    requires IsNode(lo, hi, t.size) && 0 < m <= hi - lo
    modifies path
    ensures r == if m != hi - lo && hi - lo > TWO_TO_62 then NeverReturns else Returned(true)
    ensures r.Returned? ==> path.steps == old(path.steps) + SubproofAt(H, m, D, lo, hi, b)
    decreases hi - lo
  {
    hide Split, MTH, LoopsForever, Represents, IsNode;
    NodeRange(H, t, D, lo, hi);
    var ok: bool;
    if m == hi - lo {
      if !b {
        ok := AppendSubtree(t, lo, hi, false, path, H, D);
        return Returned(ok);
      }
      return Returned(true);
    }
    HalvesAreNodes(lo, hi, t.size);
    LoopsForeverExactly(hi - lo);
    var split := LargestPow2LessThan(hi - lo);
    if split.NeverReturns? {
      return NeverReturns;
    }
    var k := split.value;
    ghost var before := path.steps;
    if m <= k {
      r := ConsistencySubproof(t, m, lo, lo + k, b, path, H, D);
      if r.NeverReturns? || !r.value {
        return;
      }
      ok := AppendSubtree(t, lo + k, hi, true, path, H, D);
      Regroup(before, SubproofAt(H, m, D, lo, lo + k, b), [ProofStep(MTH(H, D[lo + k..hi]), true)]);
      return Returned(ok);
    }
    r := ConsistencySubproof(t, m - k, lo + k, hi, false, path, H, D);
    if r.NeverReturns? || !r.value {
      return;
    }
    ok := AppendSubtree(t, lo, lo + k, false, path, H, D);
    Regroup(before, SubproofAt(H, m - k, D, lo + k, hi, false), [ProofStep(MTH(H, D[lo..lo + k]), false)]);
    return Returned(ok);
  }

  /** ConsistencyProof: PROOF(m, D) for 0 < m < n = size; ErrTreeCorrupt is unreachable. */
  method ConsistencyProof(t: Tree, m: int, n: int, ghost H: Hash, ghost D: seq<Bytes>)
      returns (r: Outcome<Result<seq<ProofStep>, Error>>)
    requires Represents(H, t, D)
    ensures r == if !(0 < m < n && n == t.size) then Returned(Err(InvalidRange))
                 else if n > TWO_TO_62 then NeverReturns
                 else Returned(Ok(Subproof(H, m, D, true)))
  {
    if m <= 0 || m >= n {
      return Returned(Err(InvalidRange));
    }
    if n != t.size {
      return Returned(Err(InvalidRange));
    }
    var path := new PathBuffer();
    TopLevel(H, t, D, |t.levels| - 1);
    NodeIntro(|t.levels| - 1, 0, n);
    var sub := ConsistencySubproof(t, m, 0, n, true, path, H, D);
    if sub.NeverReturns? {
      return NeverReturns;
    }
    if !sub.value {
      return Returned(Err(TreeCorrupt));
    }
    SubproofAtIsSubproof(H, m, D, 0, n, true);
    assert D[0..n] == D;
    assert path.steps == Subproof(H, m, D, true);
    r := Returned(Ok(path.steps));
  }

  /** proofCursor: consumes proof nodes in emission order. */
  class ProofCursor {
    const steps: seq<ProofStep>
    var next: nat

    constructor (steps: seq<ProofStep>)
      ensures this.steps == steps && next == 0
    {
      this.steps := steps;
      next := 0;
    }

    method Take() returns (h: Option<Digest>)
      modifies this
      ensures h == if old(next) < |steps| then Some(steps[old(next)].hash) else None
      ensures next == if old(next) < |steps| then old(next) + 1 else old(next)
    {
      if next >= |steps| {
        return None;
      }
      h := Some(steps[next].hash);
      next := next + 1;
    }
  }

  /** The verifier's run from a cursor position: both hashes and the next position, or None when
      the proof is too short. */
  function CursorRun(H: Hash, m: nat, n: nat, b: bool, prior: Digest, steps: seq<ProofStep>, next: nat)
      : (r: Option<(Digest, Digest, nat)>)
    requires 0 < m <= n && next <= |steps|
    ensures r.Some? ==> next <= r.value.2 <= |steps|
    decreases n
  {
    if m == n then
      if b then Some((prior, prior, next))
      else if next < |steps| then Some((steps[next].hash, steps[next].hash, next + 1))
      else None
    else
      var k := Split(n);
      var sub := if m <= k then CursorRun(H, m, k, b, prior, steps, next)
                 else CursorRun(H, m - k, n - k, false, prior, steps, next);
      if sub.None? || sub.value.2 == |steps| then None
      else
        var (x, o, at) := sub.value;
        var sibling := steps[at].hash;
        Some(if m <= k then (NodeHash(H, x, sibling), o, at + 1)
             else (NodeHash(H, sibling, x), NodeHash(H, sibling, o), at + 1))
  }

  /** A run succeeds exactly when enough nodes are left, and is then Recompute on those nodes. */
  ghost predicate RunMatches(H: Hash, m: nat, n: nat, b: bool, prior: Digest, steps: seq<ProofStep>, next: nat)
    requires 0 < m <= n && next <= |steps|
  {
    var r := CursorRun(H, m, n, b, prior, steps, next);
    && (r.Some? <==> next + SubproofLength(m, n, b) <= |steps|)
    && (r.Some? ==> r.value.2 == next + SubproofLength(m, n, b)
                    && (r.value.0, r.value.1) == Recompute(H, m, n, b, prior, steps[next..r.value.2]))
  }

  lemma {:induction false} CursorRunIsRecompute(H: Hash, m: nat, n: nat, b: bool, prior: Digest, steps: seq<ProofStep>, next: nat)
    requires 0 < m <= n && next <= |steps|
    ensures RunMatches(H, m, n, b, prior, steps, next)
    decreases n
  {
    hide Split, RunMatches;
    if m == n {
      RunOfAll(H, n, b, prior, steps, next);
    } else {
      var k := Split(n);
      if m <= k {
        CursorRunIsRecompute(H, m, k, b, prior, steps, next);
      } else {
        CursorRunIsRecompute(H, m - k, n - k, false, prior, steps, next);
      }
      RunUp(H, m, n, b, prior, steps, next, k);
    }
  }

  lemma RunOfAll(H: Hash, n: nat, b: bool, prior: Digest, steps: seq<ProofStep>, next: nat)
    requires 0 < n && next <= |steps|
    ensures RunMatches(H, n, n, b, prior, steps, next)
  {
    hide Split, Recompute, NodeHash;
    RecomputeBase(H, n, b, prior, steps, next);
  }

  lemma RunUp(H: Hash, m: nat, n: nat, b: bool, prior: Digest, steps: seq<ProofStep>, next: nat, k: nat)
    requires 0 < m < n && next <= |steps| && k == Split(n)
    requires m <= k ==> RunMatches(H, m, k, b, prior, steps, next)
    requires m > k ==> RunMatches(H, m - k, n - k, false, prior, steps, next)
    ensures RunMatches(H, m, n, b, prior, steps, next)
  {
    hide Split, Recompute, NodeHash;
    RestLength(m, n, b, k);
    var end := next + SubproofLength(m, n, b);
    if end <= |steps| {
      RecomputeUnfold(H, m, n, b, prior, steps, next, end - 1);
    }
  }

  lemma RecomputeBase(H: Hash, n: nat, b: bool, prior: Digest, steps: seq<ProofStep>, next: nat)
    requires 0 < n && next <= |steps|
    ensures b ==> Recompute(H, n, n, b, prior, steps[next..next]) == (prior, prior)
    ensures !b && next < |steps| ==>
              Recompute(H, n, n, b, prior, steps[next..next + 1]) == (steps[next].hash, steps[next].hash)
  {
  }

  lemma RecomputeUnfold(H: Hash, m: nat, n: nat, b: bool, prior: Digest, steps: seq<ProofStep>, start: nat, at: nat)
    requires 0 < m < n && start <= at < |steps| && at + 1 - start == SubproofLength(m, n, b)
    ensures Recompute(H, m, n, b, prior, steps[start..at + 1])
         == var k, sibling := Split(n), steps[at].hash;
            if m <= k then
              var (l, o) := Recompute(H, m, k, b, prior, steps[start..at]);
              (NodeHash(H, l, sibling), o)
            else
              var (r, o) := Recompute(H, m - k, n - k, false, prior, steps[start..at]);
              (NodeHash(H, sibling, r), NodeHash(H, sibling, o))
  {
    hide Split;
    assert steps[start..at + 1][..at - start] == steps[start..at];
  }

  /** verifySubproof advances the shared cursor as the run says; on a range of more than 2^62 that it has
      to split, it does not return. */
  method VerifySubproof(H: Hash, m: int, n: int, b: bool, prior: Digest, cur: ProofCursor)
      returns (r: Outcome<Option<(Digest, Digest)>>)
    requires 0 < m <= n
    requires cur.next <= |cur.steps|
    modifies cur
    ensures cur.next <= |cur.steps|
    ensures r.NeverReturns? <==> m != n && n > TWO_TO_62
    ensures r.Returned? ==> RunEnds(CursorRun(H, m, n, b, prior, cur.steps, old(cur.next)), r.value, cur.next)
    decreases n
  {
    hide Split, NodeHash, LoopsForever;
    if m == n {
      if b {
        return Returned(Some((prior, prior)));
      }
      var h := cur.Take();
      if h.None? {
        return Returned(None);
      }
      return Returned(Some((h.value, h.value)));
    }
    LoopsForeverExactly(n);
    var split := LargestPow2LessThan(n);
    if split.NeverReturns? {
      return NeverReturns;
    }
    var k := split.value;
    if m <= k {
      r := VerifySubproof(H, m, k, b, prior, cur);
      if r.NeverReturns? || r.value.None? {
        return;
      }
      var (leftNew, leftOld) := r.value.value;
      var rightRoot := cur.Take();
      if rightRoot.None? {
        return Returned(None);
      }
      return Returned(Some((NodeHash(H, leftNew, rightRoot.value), leftOld)));
    }
    r := VerifySubproof(H, m - k, n - k, false, prior, cur);
    if r.NeverReturns? || r.value.None? {
      return;
    }
    var (rightNew, rightOld) := r.value.value;
    var leftRoot := cur.Take();
    if leftRoot.None? {
      return Returned(None);
    }
    return Returned(Some((NodeHash(H, leftRoot.value, rightNew), NodeHash(H, leftRoot.value, rightOld))));
  }

  /** A run's hashes are those returned, and its end is where the cursor stands. */
  predicate RunEnds(run: Option<(Digest, Digest, nat)>, r: Option<(Digest, Digest)>, next: nat) {
    if run.None? then r.None? else r == Some((run.value.0, run.value.1)) && next == run.value.2
  }

  /** What VerifyConsistency accepts. */
  predicate ConsistencyAccepted(H: Hash, oldRoot: Bytes, newRoot: Bytes, m: int, n: int, path: seq<ProofStep>) {
    && |oldRoot| == |newRoot| == 32
    && if m == n then path == [] && oldRoot == newRoot
       else
         && 0 < m < n
         && |path| == SubproofLength(m, n, true)
         && Recompute(H, m, n, true, oldRoot, path) == (newRoot, oldRoot)
  }

  /** Where VerifyConsistency does not return: sizes are taken as stated, and splitting a range of more
      than 2^62 loops for ever. */
  predicate ConsistencyStalls(oldRoot: Bytes, newRoot: Bytes, m: int, n: int) {
    |oldRoot| == |newRoot| == 32 && 0 < m < n && n > TWO_TO_62
  }

  method VerifyConsistency(H: Hash, oldRoot: Bytes, newRoot: Bytes, m: int, n: int, path: seq<ProofStep>)
      returns (r: Outcome<bool>)
    ensures r.NeverReturns? <==> ConsistencyStalls(oldRoot, newRoot, m, n)
    ensures r.Returned? ==> (r.value <==> ConsistencyAccepted(H, oldRoot, newRoot, m, n, path))
  {
    if |oldRoot| != 32 || |newRoot| != 32 {
      return Returned(false);
    }
    if m == n {
      return Returned(|path| == 0 && oldRoot == newRoot);
    }
    if m <= 0 || m > n {
      return Returned(false);
    }
    var cur := new ProofCursor(path);
    CursorRunIsRecompute(H, m, n, true, oldRoot, path, 0);
    var sub := VerifySubproof(H, m, n, true, oldRoot, cur);
    if sub.NeverReturns? {
      return NeverReturns;
    }
    if sub.value.None? || cur.next != |cur.steps| {
      return Returned(false);
    }
    assert cur.steps[0..cur.next] == path;
    return Returned(sub.value.value.1 == oldRoot && sub.value.value.0 == newRoot);
  }

  /** Both a proof RFC 6962 accepts and one it refuses stall the verifier: "reports false for any
      malformed input" holds only of sizes up to 2^62. */
  lemma StallingProofs(H: Hash, prior: Digest, x: Digest)
    ensures var n, root := TWO_TO_62 + 1, NodeHash(H, prior, x);
            && ConsistencyStalls(prior, root, n - 1, n)
            && ConsistencyAccepted(H, prior, root, n - 1, n, [ProofStep(x, true)])
            && !ConsistencyAccepted(H, prior, root, n - 1, n, [])
  {
    hide Split, NodeHash;
    var n, root := TWO_TO_62 + 1, NodeHash(H, prior, x);
    Pow2Of62();
    SplitUnique(n, 62);
    UnfoldRecompute(H, n - 1, n, true, prior, [], ProofStep(x, true), n - 1);
    assert [] + [ProofStep(x, true)] == [ProofStep(x, true)];
  }

  /** Consistency completeness: the honest proof is accepted against the true roots. */
  lemma ConsistencyComplete(H: Hash, D: seq<Bytes>, m: nat)
    requires 0 < m < |D|
    ensures ConsistencyAccepted(H, MTH(H, D[..m]), MTH(H, D), m, |D|, Subproof(H, m, D, true))
    ensures ConsistencyAccepted(H, MTH(H, D), MTH(H, D), |D|, |D|, [])
  {
    SubproofComplete(H, m, D, true, MTH(H, D[..m]));
  }

  /** Consistency soundness: a proof accepted against the true n-leaf root pins the old root to
      the hash of the first m leaves and the path to the honest hashes, or exposes a collision. */
  lemma ConsistencyAcceptedSound(H: Hash, D: seq<Bytes>, oldRoot: Bytes, m: int, path: seq<ProofStep>)
    requires 0 < |D|
    requires ConsistencyAccepted(H, oldRoot, MTH(H, D), m, |D|, path)
    ensures m == |D| ==> oldRoot == MTH(H, D) && path == []
    ensures m != |D| ==>
              || (oldRoot == MTH(H, D[..m]) && HashesOf(path) == HashesOf(Subproof(H, m, D, true)))
              || Collides(H, ConsistencyCollision(H, m, D, true, oldRoot, path))
  {
    if m != |D| {
      ConsistencySound(H, m, D, true, oldRoot, path);
    }
  }

  /** What an accepted proof of any stated sizes shows against MTH(D): the number of leaves the old
      root covers, or a collision. */
  function AcceptedPrefix(H: Hash, D: seq<Bytes>, oldRoot: Bytes, m: int, n: int, path: seq<ProofStep>): Result<nat, (Bytes, Bytes)>
    requires 0 < |D| && ConsistencyAccepted(H, oldRoot, MTH(H, D), m, n, path)
  {
    if m == n then Ok(|D|) else PrefixWitness(H, m, n, D, true, oldRoot, path)
  }

  /** The verifier compares the stated sizes with nothing, and still: a proof accepted against
      MTH(D) shows the old root to be that of a prefix of D, or exposes a collision. */
  lemma ConsistencyAcceptedPrefix(H: Hash, D: seq<Bytes>, oldRoot: Bytes, m: int, n: int, path: seq<ProofStep>)
    requires 0 < |D| && ConsistencyAccepted(H, oldRoot, MTH(H, D), m, n, path)
    ensures var w := AcceptedPrefix(H, D, oldRoot, m, n, path);
            if w.Ok? then 0 < w.value <= |D| && oldRoot == MTH(H, D[..w.value]) else Collides(H, w.error)
  {
    hide MTH, Recompute, SubproofLength, PrefixWitness;
    if m == n {
      assert D[..|D|] == D;
    } else {
      PrefixSound(H, m, n, D, true, oldRoot, path);
    }
  }
}
