/** Commitments over sets of trust objects: commitment/build.go, order.go, proof.go, consistency.go. */
module Commitments {
  import opened Basics
  import opened MerkleSpec
  import opened Sorting
  import Merkle
  import MerkleProofs
  import MerkleInclusion

  const ALGORITHM := "rfc6962-sha256"

  /** An object contributes its canonical hash, or fails to hash; a nil interface is rejected. */
  datatype TrustObject = NilObject | Object(hash: Result<Digest, string>)

  datatype Error =
    | EmptyObjects | NilObjectError | HashFailed(why: string) | DuplicateObject
    | AlgorithmMismatch | EmptyCommitment | SizeMismatch | UnsortedLeaves | DuplicateLeaf | RootMismatch
    | ObjectNotCommitted | InvalidRange | NotPrefix | MerkleError(cause: Merkle.Error) | InclusionFailed

  datatype Commitment = Commitment(root: Digest, size: int, leafHashes: seq<Digest>, algorithm: string)

  datatype Proof = Proof(index: int, treeSize: int, steps: seq<ProofStep>)

  datatype ConsistencyProof = ConsistencyProof(oldSize: int, newSize: int, steps: seq<ProofStep>)

  function LeafOf(obj: TrustObject): Result<Digest, Error> {
    match obj
    case NilObject => Err(NilObjectError)
    case Object(Ok(h)) => Ok(h)
    case Object(Err(why)) => Err(HashFailed(why))
  }

  function DigestKey(d: Digest): seq<int> { d }

  lemma DigestKeyInjective()
    ensures Injective(DigestKey)
  {
  }

  // ---------------------------------------------------------------- order

  /** sort.Slice with bytes.Compare, as an insertion sort on the slice itself. */
  method SortLeaves(leaves: array<Digest>)
    modifies leaves
    ensures leaves[..] == Sort(DigestKey, old(leaves[..]))
  {
    hide LexLess, Sort;
    var n := leaves.Length;
    ghost var was := leaves[..];
    assert was[n..] == [];
    SortNil(DigestKey);
    while n > 0
      invariant 0 <= n <= leaves.Length
      invariant leaves[..n] == was[..n]
      invariant leaves[n..] == Sort(DigestKey, was[n..])
    {
      n := n - 1;
      SortCons(DigestKey, was[n..]);
      assert was[n..][1..] == was[n + 1..] && was[n..][0] == was[n] == leaves[n];
      InsertLeaf(leaves, n);
      assert leaves[..n] == was[..n];
    }
    assert was[0..] == was && leaves[..] == leaves[0..];
  }

  /** Moves leaves[n] right past the smaller leaves that follow it. */
  method InsertLeaf(leaves: array<Digest>, n: nat)
    requires n < leaves.Length
    modifies leaves
    ensures leaves[..n] == old(leaves[..n])
    ensures leaves[n..] == Insert(DigestKey, old(leaves[n]), old(leaves[n + 1..]))
  {
    hide LexLess, Insert;
    var leaf, i := leaves[n], n;
    ghost var was := leaves[n + 1..];
    while i + 1 < leaves.Length && LexLess(leaves[i + 1], leaf)
      invariant n <= i < leaves.Length
      invariant leaves[..n] == old(leaves[..n])
      invariant leaves[n..i] == was[..i - n] && leaves[i + 1..] == was[i - n..]
      invariant forall m :: 0 <= m < i - n ==> LexLess(DigestKey(was[m]), DigestKey(leaf))
    {
      assert leaves[i + 1] == was[i - n];
      leaves[i] := leaves[i + 1];
      i := i + 1;
      assert leaves[n..i] == was[..i - n] && leaves[i + 1..] == was[i - n..];
    }
    assert i + 1 < leaves.Length ==> leaves[i + 1] == was[i - n];
    leaves[i] := leaf;
    InsertAt(DigestKey, leaf, was, i - n);
    assert leaves[n..] == was[..i - n] + [leaf] + was[i - n..];
  }

  ghost predicate AdjacentEqual(s: seq<Digest>) {
    exists i :: 0 < i < |s| && s[i - 1] == s[i]
  }

  method RejectDuplicates(leaves: array<Digest>) returns (err: Option<Error>)
    ensures err == if AdjacentEqual(leaves[..]) then Some(DuplicateObject) else None
  {
    var i := 1;
    while i < leaves.Length
      invariant 1 <= i
      invariant forall j :: 0 < j < i && j < leaves.Length ==> leaves[..][j - 1] != leaves[..][j]
    {
      if leaves[i - 1] == leaves[i] {
        assert leaves[..][i - 1] == leaves[..][i];
        return Some(DuplicateObject);
      }
      i := i + 1;
    }
    return None;
  }

  // ---------------------------------------------------------------- build

  /** The first object that does not hash decides the error. */
  function LeavesOf(objects: seq<TrustObject>): Result<seq<Digest>, Error> {
    if objects == [] then Ok([])
    else
      var init := LeavesOf(objects[..|objects| - 1]);
      if init.Err? then init
      else
        var last := LeafOf(objects[|objects| - 1]);
        if last.Err? then Err(last.error) else Ok(init.value + [last.value])
  }

  lemma {:induction false} LeavesOfMultiset(objects: seq<TrustObject>)
    ensures LeavesOf(objects).Ok? <==> forall o :: o in objects ==> LeafOf(o).Ok?
    ensures LeavesOf(objects).Ok? ==> |LeavesOf(objects).value| == |objects|
  {
    if objects != [] {
      var n := |objects| - 1;
      LeavesOfMultiset(objects[..n]);
      assert objects == objects[..n] + [objects[n]];
      assert forall o :: o in objects <==> o in objects[..n] || o == objects[n];
    }
  }

  /** What Build returns: the commitment over the sorted leaves, when they are distinct. */
  ghost function BuildResult(H: Hash, objects: seq<TrustObject>): Result<Commitment, Error> {
    if objects == [] then Err(EmptyObjects)
    else if LeavesOf(objects).Err? then Err(LeavesOf(objects).error)
    else
      var sorted := Sort(DigestKey, LeavesOf(objects).value);
      if AdjacentEqual(sorted) then Err(DuplicateObject)
      else
        LeavesOfMultiset(objects);
        SortCorrect(DigestKey, LeavesOf(objects).value);
        Ok(Commitment(MTH(H, sorted), |objects|, sorted, ALGORITHM))
  }

  lemma LeavesOfPrefix(objects: seq<TrustObject>, i: nat)
    requires i < |objects|
    ensures objects[..i + 1][..i] == objects[..i]
    ensures LeavesOf(objects[..i]).Ok? && LeafOf(objects[i]).Ok? ==>
              LeavesOf(objects[..i + 1]) == Ok(LeavesOf(objects[..i]).value + [LeafOf(objects[i]).value])
    ensures LeavesOf(objects[..i]).Ok? && LeafOf(objects[i]).Err? ==>
              LeavesOf(objects[..i + 1]) == Err(LeafOf(objects[i]).error)
  {
    assert objects[..i + 1][..i] == objects[..i];
  }

  lemma {:induction false} LeavesOfError(objects: seq<TrustObject>, i: nat)
    requires i <= |objects| && LeavesOf(objects[..i]).Err?
    ensures LeavesOf(objects) == LeavesOf(objects[..i])
    decreases |objects| - i
  {
    if i == |objects| {
      assert objects[..i] == objects;
    } else {
      LeavesOfPrefix(objects, i);
      LeavesOfError(objects, i + 1);
    }
  }

  method Build(H: Hash, objects: seq<TrustObject>) returns (r: Result<Commitment, Error>)
    ensures r == BuildResult(H, objects)
  {
    hide MTH, Sort;
    if |objects| == 0 {
      return Err(EmptyObjects);
    }
    var leaves := new Digest[|objects|](i => seq(32, k => 0));
    for i := 0 to |objects|
      invariant LeavesOf(objects[..i]) == Ok(leaves[..i])
    {
      var h := LeafOf(objects[i]);
      LeavesOfPrefix(objects, i);
      if h.Err? {
        LeavesOfError(objects, i + 1);
        return Err(h.error);
      }
      leaves[i] := h.value;
      assert leaves[..i + 1] == leaves[..i] + [h.value];
    }
    assert objects[..|objects|] == objects && leaves[..] == leaves[..|objects|];
    ghost var unsorted := leaves[..];
    SortLeaves(leaves);
    SortCorrect(DigestKey, unsorted);
    var dup := RejectDuplicates(leaves);
    if dup.Some? {
      return Err(dup.value);
    }
    var tree := Merkle.New(H, leaves[..]);
    var root := Merkle.Root(tree.value, H, leaves[..]);
    return Ok(Commitment(root, |objects|, leaves[..], ALGORITHM));
  }

  lemma {:induction false} LeavesOfPermuted(objects: seq<TrustObject>, other: seq<TrustObject>)
    requires multiset(objects) == multiset(other)
    requires LeavesOf(objects).Ok?
    ensures LeavesOf(other).Ok?
    ensures multiset(LeavesOf(objects).value) == multiset(LeavesOf(other).value)
  {
    LeavesOfMultiset(objects);
    forall o | o in other
      ensures LeafOf(o).Ok?
    {
      assert o in multiset(objects);
    }
    LeavesOfMultiset(other);
    forall d: Digest
      ensures multiset(LeavesOf(objects).value)[d] == multiset(LeavesOf(other).value)[d]
    {
      LeafCount(objects, d);
      LeafCount(other, d);
    }
  }

  lemma LastLeaf(objects: seq<TrustObject>, n: nat)
    requires LeavesOf(objects).Ok? && n + 1 == |objects|
    ensures LeavesOf(objects[..n]).Ok? && objects[n].Object? && objects[n].hash.Ok?
    ensures LeavesOf(objects).value == LeavesOf(objects[..n]).value + [objects[n].hash.value]
  {
  }

  lemma CountSnoc<T>(s: seq<T>, n: nat, x: T)
    requires n + 1 == |s|
    ensures multiset(s)[x] == multiset(s[..n])[x] + if s[n] == x then 1 else 0
  {
    assert s == s[..n] + [s[n]];
  }

  /** With every object hashing, a digest is committed as often as the object that yields it. */
  lemma {:induction false} LeafCount(objects: seq<TrustObject>, d: Digest)
    requires LeavesOf(objects).Ok?
    ensures multiset(LeavesOf(objects).value)[d] == multiset(objects)[Object(Ok(d))]
  {
    if objects != [] {
      hide LeavesOf;
      var n := |objects| - 1;
      LastLeaf(objects, n);
      LeafCount(objects[..n], d);
      CountSnoc(objects, n, Object(Ok(d)));
      var leaves := LeavesOf(objects).value;
      assert leaves[..|leaves| - 1] == LeavesOf(objects[..n]).value;
      CountSnoc(leaves, |leaves| - 1, d);
    }
  }

  /** A commitment depends only on the objects, not on their order. */
  lemma BuildPermutation(H: Hash, objects: seq<TrustObject>, other: seq<TrustObject>)
    requires multiset(objects) == multiset(other)
    ensures BuildResult(H, objects).Ok? <==> BuildResult(H, other).Ok?
    ensures BuildResult(H, objects).Ok? ==> BuildResult(H, objects) == BuildResult(H, other)
  {
    hide MTH, Sort;
    assert |objects| == |multiset(objects)| == |multiset(other)| == |other|;
    if LeavesOf(objects).Ok? {
      LeavesOfPermuted(objects, other);
      DigestKeyInjective();
      SortPermutation(DigestKey, LeavesOf(objects).value, LeavesOf(other).value);
    } else if LeavesOf(other).Ok? {
      LeavesOfPermuted(other, objects);
    }
  }

  ghost predicate Distinct<T(!new)>(s: seq<T>) {
    forall i, j :: 0 <= i < j < |s| ==> s[i] != s[j]
  }

  lemma CountTwice<T>(s: seq<T>, i: nat, j: nat)
    requires i < j < |s| && s[i] == s[j]
    ensures multiset(s)[s[i]] >= 2
  {
    assert s == s[..j] + s[j..];
    assert s[i] == s[..j][i] && s[j] == s[j..][0];
    assert s[i] in s[..j] && s[i] in s[j..];
    assert multiset(s) == multiset(s[..j]) + multiset(s[j..]);
  }

  lemma {:induction false} DistinctCount<T(!new)>(s: seq<T>, x: T)
    requires Distinct(s)
    ensures multiset(s)[x] <= 1
  {
    if s != [] {
      var n := |s| - 1;
      DistinctCount(s[..n], x);
      CountSnoc(s, n, x);
      assert forall i :: 0 <= i < n ==> s[..n][i] != s[n];
    }
  }

  /** A list has repetitions exactly when its sorted form has two equal neighbours. */
  lemma RepeatsExactly(leaves: seq<Digest>)
    ensures Distinct(leaves) <==> !AdjacentEqual(Sort(DigestKey, leaves))
  {
    hide Sort, LexLess;
    var sorted := Sort(DigestKey, leaves);
    SortCorrect(DigestKey, leaves);
    if AdjacentEqual(sorted) {
      var i :| 0 < i < |sorted| && sorted[i - 1] == sorted[i];
      CountTwice(sorted, i - 1, i);
      if Distinct(leaves) {
        DistinctCount(leaves, sorted[i]);
      }
    } else {
      DigestKeyInjective();
      AdjacentDistinctAscending(DigestKey, sorted);
      AscendingDistinct(sorted);
      forall i, j | 0 <= i < j < |leaves|
        ensures leaves[i] != leaves[j]
      {
        if leaves[i] == leaves[j] {
          CountTwice(leaves, i, j);
          DistinctCount(sorted, leaves[i]);
        }
      }
    }
  }

  lemma AscendingDistinct(s: seq<Digest>)
    requires Ascending(DigestKey, s)
    ensures Distinct(s)
  {
    forall i, j | 0 <= i < j < |s|
      ensures s[i] != s[j]
    {
      assert LexLess(DigestKey(s[i]), DigestKey(s[j]));
      NotLessSelf(s[i]);
    }
  }

  lemma {:induction false} LeafAt(objects: seq<TrustObject>, i: nat)
    requires LeavesOf(objects).Ok? && i < |objects|
    ensures |LeavesOf(objects).value| == |objects| && LeafOf(objects[i]) == Ok(LeavesOf(objects).value[i])
  {
    LeavesOfMultiset(objects);
    var n := |objects| - 1;
    LeavesOfMultiset(objects[..n]);
    if i < n {
      LeafAt(objects[..n], i);
    }
  }

  /** Build succeeds exactly on a non-empty list of objects that all hash, to pairwise different digests. */
  lemma BuildExactly(H: Hash, objects: seq<TrustObject>)
    ensures BuildResult(H, objects) == Err(EmptyObjects) <==> objects == []
    ensures var hashed := forall o :: o in objects ==> LeafOf(o).Ok?;
            var apart := forall i, j :: 0 <= i < j < |objects| ==> LeafOf(objects[i]) != LeafOf(objects[j]);
            && (BuildResult(H, objects).Ok? <==> objects != [] && hashed && apart)
            && (BuildResult(H, objects) == Err(DuplicateObject) <==> objects != [] && hashed && !apart)
  {
    hide MTH, Sort, AdjacentEqual;
    LeavesOfMultiset(objects);
    LeavesErrors(objects);
    if LeavesOf(objects).Ok? {
      var leaves := LeavesOf(objects).value;
      RepeatsExactly(leaves);
      forall i | 0 <= i < |objects|
        ensures LeafOf(objects[i]) == Ok(leaves[i])
      {
        LeafAt(objects, i);
      }
      if Distinct(leaves) {
        forall i, j | 0 <= i < j < |objects|
          ensures LeafOf(objects[i]) != LeafOf(objects[j])
        {
          assert leaves[i] != leaves[j];
        }
      } else {
        var i, j :| 0 <= i < j < |leaves| && leaves[i] == leaves[j];
        assert LeafOf(objects[i]) == LeafOf(objects[j]);
      }
    }
  }

  lemma {:induction false} LeavesErrors(objects: seq<TrustObject>)
    ensures LeavesOf(objects).Err? ==> LeavesOf(objects).error.NilObjectError? || LeavesOf(objects).error.HashFailed?
  {
    if objects != [] {
      LeavesErrors(objects[..|objects| - 1]);
    }
  }

  // ---------------------------------------------------------------- verify

  /** A well-formed commitment: strictly ascending leaves under their own Merkle root. */
  ghost predicate Valid(H: Hash, c: Commitment) {
    && c.algorithm == "rfc6962-sha256"
    && c.size == |c.leafHashes| > 0
    && Ascending(DigestKey, c.leafHashes)
    && c.root == MTH(H, c.leafHashes)
  }

  lemma {:induction false} AdjacentAscending(s: seq<Digest>, i: nat, j: nat)
    requires forall k :: 0 < k < |s| ==> LexLess(s[k - 1], s[k])
    requires i < j < |s|
    ensures LexLess(s[i], s[j])
    decreases j
  {
    if i + 1 < j {
      AdjacentAscending(s, i, j - 1);
      LexTransitive(s[i], s[j - 1], s[j]);
    } else {
      assert LexLess(s[j - 1], s[j]);
    }
  }

  ghost predicate Descends(s: seq<Digest>) {
    exists i :: 0 < i < |s| && LexLess(s[i], s[i - 1])
  }

  /** The first check that fails, in the order the source documents. */
  ghost function VerifyOutcome(H: Hash, c: Commitment): Option<Error> {
    if c.algorithm != ALGORITHM then Some(AlgorithmMismatch)
    else if c.size == 0 || c.leafHashes == [] then Some(EmptyCommitment)
    else if c.size != |c.leafHashes| then Some(SizeMismatch)
    else if Descends(c.leafHashes) then Some(UnsortedLeaves)
    else if AdjacentEqual(c.leafHashes) then Some(DuplicateLeaf)
    else if c.root != MTH(H, c.leafHashes) then Some(RootMismatch)
    else None
  }

  /** The ordered checks together accept exactly the well-formed commitments. */
  lemma VerifyOutcomeExact(H: Hash, c: Commitment)
    ensures VerifyOutcome(H, c).None? <==> Valid(H, c)
  {
    hide MTH;
    var s := c.leafHashes;
    if !Descends(s) && !AdjacentEqual(s) {
      forall k | 0 < k < |s|
        ensures LexLess(s[k - 1], s[k])
      {
        LexTotal(s[k - 1], s[k]);
      }
      forall i, j | 0 <= i < j < |s|
        ensures LexLess(DigestKey(s[i]), DigestKey(s[j]))
      {
        AdjacentAscending(s, i, j);
      }
    }
    if Ascending(DigestKey, s) {
      forall i | 0 < i < |s|
        ensures !LexLess(s[i], s[i - 1]) && s[i - 1] != s[i]
      {
        LexAsymmetric(DigestKey(s[i - 1]), DigestKey(s[i]));
      }
    }
  }

  lemma DescendsExactly(s: seq<Digest>)
    ensures Descends(s) <==> exists i :: 0 <= i < |s| - 1 && LexLess(s[i + 1], s[i])
    ensures AdjacentEqual(s) <==> exists i :: 0 <= i < |s| - 1 && s[i + 1] == s[i]
  {
    hide LexLess;
    if Descends(s) {
      var i :| 0 < i < |s| && LexLess(s[i], s[i - 1]);
      assert LexLess(s[i - 1 + 1], s[i - 1]);
    }
    if i :| 0 <= i < |s| - 1 && LexLess(s[i + 1], s[i]) {
      assert LexLess(s[i + 1], s[i + 1 - 1]);
    }
    if AdjacentEqual(s) {
      var i :| 0 < i < |s| && s[i - 1] == s[i];
      assert s[i - 1 + 1] == s[i - 1];
    }
    if i :| 0 <= i < |s| - 1 && s[i + 1] == s[i] {
      assert s[i + 1 - 1] == s[i + 1];
    }
  }

  /** Which error a refusal carries, in the order of the checks. */
  lemma CommitmentRefusedExactly(H: Hash, c: Commitment)
    ensures var e, s := VerifyOutcome(H, c), c.leafHashes;
            var named := c.algorithm == "rfc6962-sha256";
            var sized := named && c.size == |s| && c.size != 0;
            var falls := exists i :: 0 <= i < |s| - 1 && LexLess(s[i + 1], s[i]);
            var repeats := exists i :: 0 <= i < |s| - 1 && s[i + 1] == s[i];
            && (e == Some(AlgorithmMismatch) <==> !named)
            && (e == Some(EmptyCommitment) <==> named && (c.size == 0 || |s| == 0))
            && (e == Some(SizeMismatch) <==> named && c.size != 0 && |s| != 0 && c.size != |s|)
            && (e == Some(UnsortedLeaves) <==> sized && falls)
            && (e == Some(DuplicateLeaf) <==> sized && !falls && repeats)
            && (e == Some(RootMismatch) <==> sized && !falls && !repeats && c.root != MTH(H, s))
  {
    hide MTH, LexLess, Descends, AdjacentEqual;
    DescendsExactly(c.leafHashes);
  }

  method VerifyCommitment(H: Hash, c: Commitment) returns (err: Option<Error>)
    ensures err == VerifyOutcome(H, c)
  {
    hide MTH;
    if c.algorithm != ALGORITHM {
      return Some(AlgorithmMismatch);
    }
    if c.size == 0 || |c.leafHashes| == 0 {
      return Some(EmptyCommitment);
    }
    if c.size != |c.leafHashes| {
      return Some(SizeMismatch);
    }
    var s := c.leafHashes;
    for i := 1 to |s|
      invariant forall k :: 0 < k < i ==> !LexLess(s[k], s[k - 1])
    {
      if LexLess(s[i], s[i - 1]) {
        return Some(UnsortedLeaves);
      }
    }
    for i := 1 to |s|
      invariant forall k :: 0 < k < i ==> s[k - 1] != s[k]
    {
      if s[i - 1] == s[i] {
        return Some(DuplicateLeaf);
      }
    }
    var tree := Merkle.New(H, s);
    var root := Merkle.Root(tree.value, H, s);
    if root != c.root {
      return Some(RootMismatch);
    }
    return None;
  }

  function Committed(s: seq<Digest>): (r: seq<TrustObject>)
    ensures |r| == |s|
  {
    seq(|s|, i requires 0 <= i < |s| => Object(Ok(s[i])))
  }

  lemma {:induction false} LeavesOfCommitted(s: seq<Digest>)
    ensures LeavesOf(Committed(s)) == Ok(s)
  {
    if s != [] {
      LeavesOfCommitted(s[..|s| - 1]);
      assert Committed(s)[..|s| - 1] == Committed(s[..|s| - 1]);
      assert s == s[..|s| - 1] + [s[|s| - 1]];
    }
  }

  /** VerifyCommitment accepts exactly what Build can return. */
  lemma VerifiesExactlyBuilt(H: Hash, c: Commitment, objects: seq<TrustObject>)
    ensures BuildResult(H, objects) == Ok(c) ==> Valid(H, c)
    ensures Valid(H, c) ==> BuildResult(H, Committed(c.leafHashes)) == Ok(c)
  {
    hide MTH, Sort;
    DigestKeyInjective();
    if BuildResult(H, objects) == Ok(c) {
      LeavesOfMultiset(objects);
      SortCorrect(DigestKey, LeavesOf(objects).value);
      AdjacentDistinctAscending(DigestKey, c.leafHashes);
    }
    if Valid(H, c) {
      var s := c.leafHashes;
      LeavesOfCommitted(s);
      AscendingIsSorted(DigestKey, s);
      SortCorrect(DigestKey, s);
      SortedUnique(DigestKey, Sort(DigestKey, s), s);
    }
  }

  // ---------------------------------------------------------------- inclusion

  /** sort.Search over "leaf i is not below the sought one": on an ascending list, the first such index. */
  method SearchLeaf(s: seq<Digest>, leaf: Digest) returns (index: nat)
    ensures index <= |s|
    ensures Ascending(DigestKey, s) ==> forall k :: 0 <= k < |s| ==> (LexLess(s[k], leaf) <==> k < index)
  {
    var i, j := 0, |s|;
    while i < j
      invariant 0 <= i <= j <= |s|
      invariant Ascending(DigestKey, s) ==> forall k :: 0 <= k < i ==> LexLess(s[k], leaf)
      invariant Ascending(DigestKey, s) ==> forall k :: j <= k < |s| ==> !LexLess(s[k], leaf)
    {
      var h := (i + j) / 2;
      if Ascending(DigestKey, s) {
        forall k | 0 <= k < |s| && k != h
          ensures k < h && LexLess(s[h], leaf) ==> LexLess(s[k], leaf)
          ensures h < k && !LexLess(s[h], leaf) ==> !LexLess(s[k], leaf)
        {
          AcrossPivot(s, leaf, h, k);
        }
      }
      if LexLess(s[h], leaf) {
        i := h + 1;
      } else {
        j := h;
      }
    }
    index := i;
  }

  lemma AcrossPivot(s: seq<Digest>, leaf: Digest, h: nat, k: nat)
    requires Ascending(DigestKey, s) && h < |s| && k < |s|
    ensures k < h && LexLess(s[h], leaf) ==> LexLess(s[k], leaf)
    ensures h < k && !LexLess(s[h], leaf) ==> !LexLess(s[k], leaf)
  {
    if k < h && LexLess(s[h], leaf) {
      assert LexLess(DigestKey(s[k]), DigestKey(s[h]));
      LexTransitive(s[k], s[h], leaf);
    }
    if h < k && LexLess(s[k], leaf) {
      assert LexLess(DigestKey(s[h]), DigestKey(s[k]));
      LexTransitive(s[h], s[k], leaf);
    }
  }

  /** InclusionProof returns the RFC audit path of the object's leaf; over ascending leaves it
      succeeds exactly for the committed objects. */
  method InclusionProof(H: Hash, c: Commitment, obj: TrustObject) returns (r: Result<Proof, Error>)
    ensures LeafOf(obj).Err? ==> r == Err(LeafOf(obj).error)
    ensures r.Ok? ==>
              && LeafOf(obj).Ok? && 0 <= r.value.index < |c.leafHashes|
              && c.leafHashes[r.value.index] == LeafOf(obj).value
              && r.value.treeSize == c.size
              && r.value.steps == AuditPath(H, c.leafHashes, r.value.index)
    ensures LeafOf(obj).Ok? && r.Err? ==> r.error == ObjectNotCommitted
    ensures Ascending(DigestKey, c.leafHashes) && LeafOf(obj).Ok? ==>
              (r.Ok? <==> LeafOf(obj).value in c.leafHashes)
  {
    hide MTH, AuditPath;
    if obj.NilObject? {
      return Err(NilObjectError);
    }
    var leaf := LeafOf(obj);
    if leaf.Err? {
      return Err(leaf.error);
    }
    var s := c.leafHashes;
    var index := SearchLeaf(s, leaf.value);
    if index >= |s| || s[index] != leaf.value {
      if Ascending(DigestKey, s) {
        SearchMiss(s, leaf.value, index);
      }
      return Err(ObjectNotCommitted);
    }
    var tree := Merkle.New(H, s);
    var path := Merkle.Proof(tree.value, index, H, s);
    r := Ok(Proof(index, c.size, path.value));
  }

  lemma SearchMiss(s: seq<Digest>, leaf: Digest, index: nat)
    requires Ascending(DigestKey, s) && index <= |s|
    requires forall k :: 0 <= k < |s| ==> (LexLess(s[k], leaf) <==> k < index)
    requires index == |s| || s[index] != leaf
    ensures leaf !in s
  {
    NotLessSelf(leaf);
    forall k | 0 <= k < |s|
      ensures s[k] != leaf
    {
      if index < k {
        assert LexLess(DigestKey(s[index]), DigestKey(s[k]));
      }
    }
  }

  /** Go's conversion of an int to uint64. */
  function ToUint64(x: int): uint64 { x % TWO_TO_64 }

  ghost predicate ProofAccepted(H: Hash, root: Digest, p: Proof, leaf: Digest) {
    MerkleInclusion.InclusionAccepted(H, root, ToUint64(p.index), ToUint64(p.treeSize), leaf,
                                      MerkleInclusion.EncodeSteps(p.steps))
  }

  method VerifyInclusion(H: Hash, root: Digest, p: Proof, obj: TrustObject) returns (err: Option<Error>)
    ensures LeafOf(obj).Err? ==> err == Some(LeafOf(obj).error)
    ensures LeafOf(obj).Ok? ==> err == if ProofAccepted(H, root, p, LeafOf(obj).value) then None else Some(InclusionFailed)
  {
    var leaf := LeafOf(obj);
    if leaf.Err? {
      return Some(leaf.error);
    }
    var elements: seq<Bytes> := [];
    for i := 0 to |p.steps|
      invariant |elements| == i
      invariant forall k :: 0 <= k < i ==> elements[k] == MerkleInclusion.EncodeStep(p.steps[k])
    {
      var side: byte := 0x00;
      if p.steps[i].isRight {
        side := 0x01;
      }
      elements := elements + [[side] + p.steps[i].hash];
    }
    assert elements == MerkleInclusion.EncodeSteps(p.steps);
    var failed := MerkleInclusion.VerifyInclusion(H, root, ToUint64(p.index), ToUint64(p.treeSize), leaf.value, elements);
    if failed.Some? {
      return Some(InclusionFailed);
    }
    return None;
  }

  /** Every committed object's proof verifies against the commitment's root. */
  lemma CommittedProofVerifies(H: Hash, c: Commitment, i: nat)
    requires Valid(H, c) && i < |c.leafHashes| < MerkleInclusion.MAX_UINT64
    ensures ProofAccepted(H, c.root, Proof(i, c.size, AuditPath(H, c.leafHashes, i)), c.leafHashes[i])
  {
    hide MTH, AuditPath, MerkleInclusion.InclusionAccepted, MerkleInclusion.EncodeSteps, Ascending;
    MerkleInclusion.InclusionComplete(H, c.leafHashes, i);
  }

  /** A proof that verifies against a valid commitment, whatever index and size it states, is for one
      of its leaves, or exposes a collision. */
  lemma VerifiedProofIsCommitted(H: Hash, c: Commitment, p: Proof, leaf: Digest)
    requires Valid(H, c) && ProofAccepted(H, c.root, p, leaf)
    ensures var w := MembershipWitness(H, c.leafHashes, leaf, p.steps);
            if w.Ok? then w.value < |c.leafHashes| && c.leafHashes[w.value] == leaf else Collides(H, w.error)
  {
    hide MTH, RootFrom, MembershipWitness;
    MerkleInclusion.ElementsRoundTrip(p.steps, []);
    MembershipSound(H, c.leafHashes, leaf, p.steps);
  }

  /** Stating the commitment's own size, it is the honest proof of the leaf at the stated index. */
  lemma VerifiedProofIsHonest(H: Hash, c: Commitment, p: Proof, leaf: Digest)
    requires Valid(H, c) && ToUint64(p.treeSize) == |c.leafHashes| && ProofAccepted(H, c.root, p, leaf)
    ensures var i := ToUint64(p.index);
            || (i < |c.leafHashes| && leaf == c.leafHashes[i] && p.steps == AuditPath(H, c.leafHashes, i))
            || Collides(H, MerkleInclusion.AcceptedCollision(H, c.leafHashes, i, leaf, p.steps))
  {
    hide MTH, AuditPath, RootFrom, Sides, InclusionCollision, MembershipWitness;
    var proof, path := MerkleInclusion.EncodeSteps(p.steps), AuditPath(H, c.leafHashes, ToUint64(p.index));
    MerkleInclusion.ElementsRoundTrip(p.steps, []);
    MerkleInclusion.ElementsRoundTrip(path, []);
    MerkleInclusion.InclusionAcceptedSound(H, c.leafHashes, ToUint64(p.index), leaf, proof);
  }

  // ---------------------------------------------------------------- consistency

  /** The old leaves, cut at the stated size, open the new ones. */
  predicate OpensWith(prev: Commitment, next: Commitment)
    requires 0 < prev.size
  {
    && prev.size <= |prev.leafHashes| && prev.size <= |next.leafHashes|
    && prev.leafHashes[..prev.size] == next.leafHashes[..prev.size]
  }

  /** The error in source order, or the proof. */
  ghost function ProofBetween(H: Hash, prev: Commitment, next: Commitment): Result<ConsistencyProof, Error> {
    if !(0 < prev.size < next.size) then Err(InvalidRange)
    else if !OpensWith(prev, next) then Err(NotPrefix)
    else if next.size != |next.leafHashes| then Err(MerkleError(Merkle.InvalidRange))
    else Ok(ConsistencyProof(prev.size, next.size, Subproof(H, prev.size, next.leafHashes, true)))
  }

  /** Between valid commitments there is a proof exactly when the older one's leaves are a strict prefix of
      the newer one's; a newer one that is not larger is refused by size, any other by its leaves. */
  lemma ProofBetweenExactly(H: Hash, prev: Commitment, next: Commitment)
    requires Valid(H, prev) && Valid(H, next)
    ensures ProofBetween(H, prev, next).Ok? <==> prev.leafHashes < next.leafHashes
    ensures ProofBetween(H, prev, next).Ok? ==> ConsistencyVerified(H, prev.root, next.root, ProofBetween(H, prev, next).value)
    ensures ProofBetween(H, prev, next) == Err(InvalidRange) <==> |next.leafHashes| <= |prev.leafHashes|
    ensures ProofBetween(H, prev, next) == Err(NotPrefix) <==>
            |prev.leafHashes| < |next.leafHashes| && exists i :: 0 <= i < |prev.leafHashes| && prev.leafHashes[i] != next.leafHashes[i]
  {
    hide MTH, Subproof, Ascending;
    var p, n := prev.leafHashes, next.leafHashes;
    assert p[..|p|] == p;
    if p < n {
      PrefixProofVerifies(H, prev, next);
    }
    if |p| < |n| {
      if forall i :: 0 <= i < |p| ==> p[i] == n[i] {
        assert p == n[..|p|];
      } else {
        var i :| 0 <= i < |p| && p[i] != n[i];
        assert p[..|p|][i] != n[..|p|][i];
      }
    }
  }

  method ConsistencyProofBetween(H: Hash, prev: Commitment, next: Commitment) returns (r: Outcome<Result<ConsistencyProof, Error>>)
    ensures r == if ProofBetween(H, prev, next).Ok? && next.size > TWO_TO_62 then NeverReturns
                 else Returned(ProofBetween(H, prev, next))
  {
    hide MTH, Subproof;
    if prev.size <= 0 || prev.size >= next.size {
      return Returned(Err(InvalidRange));
    }
    if |prev.leafHashes| < prev.size || |next.leafHashes| < prev.size {
      return Returned(Err(NotPrefix));
    }
    for i := 0 to prev.size
      invariant prev.leafHashes[..i] == next.leafHashes[..i]
    {
      if prev.leafHashes[i] != next.leafHashes[i] {
        assert prev.leafHashes[..prev.size][i] != next.leafHashes[..prev.size][i];
        return Returned(Err(NotPrefix));
      }
    }
    var tree := Merkle.New(H, next.leafHashes);
    var path := MerkleProofs.ConsistencyProof(tree.value, prev.size, next.size, H, next.leafHashes);
    if path.NeverReturns? {
      return NeverReturns;
    }
    if path.value.Err? {
      return Returned(Err(MerkleError(path.value.error)));
    }
    r := Returned(Ok(ConsistencyProof(prev.size, next.size, path.value.value)));
  }

  ghost predicate ConsistencyVerified(H: Hash, oldRoot: Digest, newRoot: Digest, p: ConsistencyProof) {
    MerkleProofs.ConsistencyAccepted(H, oldRoot, newRoot, p.oldSize, p.newSize, p.steps)
  }

  method VerifyConsistency(H: Hash, oldRoot: Digest, newRoot: Digest, p: ConsistencyProof) returns (r: Outcome<Option<Error>>)
    ensures r == if 0 < p.oldSize < p.newSize && p.newSize > TWO_TO_62 then NeverReturns
                 else Returned(if ConsistencyVerified(H, oldRoot, newRoot, p) then None else Some(InclusionFailed))
  {
    var ok := MerkleProofs.VerifyConsistency(H, oldRoot, newRoot, p.oldSize, p.newSize, p.steps);
    if ok.NeverReturns? {
      return NeverReturns;
    }
    if !ok.value {
      return Returned(Some(InclusionFailed));
    }
    return Returned(None);
  }

  /** Between valid commitments where one's leaves are a strict prefix of the other's, the proof
      the source emits verifies against both roots. */
  lemma PrefixProofVerifies(H: Hash, prev: Commitment, next: Commitment)
    requires Valid(H, prev) && Valid(H, next) && prev.leafHashes < next.leafHashes
    ensures ConsistencyVerified(H, prev.root, next.root,
                                ConsistencyProof(prev.size, next.size, Subproof(H, prev.size, next.leafHashes, true)))
  {
    hide MTH, Subproof;
    assert next.leafHashes[..prev.size] == prev.leafHashes;
    MerkleProofs.ConsistencyComplete(H, next.leafHashes, prev.size);
  }

  /** The collision in a verified consistency proof between commitments that do not extend one
      another. */
  function ExtensionCollision(H: Hash, prev: Commitment, next: Commitment, p: ConsistencyProof): (Bytes, Bytes)
    requires |prev.leafHashes| > 0 && |next.leafHashes| > 0
    requires MerkleProofs.ConsistencyAccepted(H, prev.root, MTH(H, next.leafHashes), p.oldSize, p.newSize, p.steps)
  {
    var w := MerkleProofs.AcceptedPrefix(H, next.leafHashes, prev.root, p.oldSize, p.newSize, p.steps);
    if w.Err? then w.error
    else if 0 < w.value <= |next.leafHashes| then RootCollision(H, prev.leafHashes, next.leafHashes[..w.value])
    else ([], [])
  }

  /** Conversely, a proof that verifies between the roots of two valid commitments, whatever sizes it
      states, shows that the older one's leaves are a prefix of the newer one's, or exposes a collision. */
  lemma VerifiedConsistencyIsPrefix(H: Hash, prev: Commitment, next: Commitment, p: ConsistencyProof)
    requires Valid(H, prev) && Valid(H, next)
    requires ConsistencyVerified(H, prev.root, next.root, p)
    ensures prev.leafHashes <= next.leafHashes || Collides(H, ExtensionCollision(H, prev, next, p))
  {
    hide MTH, RootCollision, MerkleProofs.ConsistencyAccepted, MerkleProofs.AcceptedPrefix;
    var D := next.leafHashes;
    MerkleProofs.ConsistencyAcceptedPrefix(H, D, prev.root, p.oldSize, p.newSize, p.steps);
    var w := MerkleProofs.AcceptedPrefix(H, D, prev.root, p.oldSize, p.newSize, p.steps);
    if w.Ok? {
      RootBinding(H, prev.leafHashes, D[..w.value]);
    }
  }

  /** Two valid commitments with one root are the same commitment, or expose a collision. */
  lemma RootDeterminesCommitment(H: Hash, c: Commitment, d: Commitment)
    requires Valid(H, c) && Valid(H, d) && c.root == d.root
    ensures c == d || Collides(H, RootCollision(H, c.leafHashes, d.leafHashes))
  {
    hide MTH;
    RootBinding(H, c.leafHashes, d.leafHashes);
  }
}
