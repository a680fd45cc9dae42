/** Per-hop subset checking: delegation/delegation.go. */
module Delegation {
  import opened Basics
  import opened Authorities

  datatype Error = CapabilityEscalation | ScopeEscalation | ValidityEscalation | DepthEscalation | HashFailed

  /** Every capability of child is one of parent's. */
  predicate CapabilitySubset(parent: seq<Capability>, child: seq<Capability>) {
    forall i :: 0 <= i < |child| ==> child[i] in parent
  }

  /** An empty parent is unconstrained; under a non-empty one the child must be non-empty and listed. */
  predicate StringSliceSubset(parent: seq<string>, child: seq<string>) {
    parent == [] || (child != [] && forall i :: 0 <= i < |child| ==> child[i] in parent)
  }

  predicate TimeWindowSubset(parent: Option<TimeWindow>, child: Option<TimeWindow>) {
    if child.None? then parent.None?
    else parent.None? || (child.value.start >= parent.value.start && child.value.end <= parent.value.end)
  }

  predicate QuantitySubset(parent: Option<Quantity>, child: Option<Quantity>) {
    if child.None? then parent.None?
    else parent.None? || (child.value.unit == parent.value.unit && child.value.limit <= parent.value.limit)
  }

  predicate MonetarySubset(parent: Option<Monetary>, child: Option<Monetary>) {
    if child.None? then parent.None?
    else parent.None? || (child.value.currency == parent.value.currency && child.value.limit <= parent.value.limit)
  }

  predicate ScopeSubset(parent: Scope, child: Scope) {
    && StringSliceSubset(parent.resources, child.resources)
    && StringSliceSubset(parent.subjects, child.subjects)
    && StringSliceSubset(parent.actions, child.actions)
    && StringSliceSubset(parent.organizations, child.organizations)
    && StringSliceSubset(parent.geography, child.geography)
    && StringSliceSubset(parent.channels, child.channels)
    && TimeWindowSubset(parent.timeWindow, child.timeWindow)
    && QuantitySubset(parent.quantity, child.quantity)
    && MonetarySubset(parent.monetary, child.monetary)
  }

  predicate ValiditySubset(parent: Validity, child: Validity) {
    child.notBefore >= parent.notBefore && child.notAfter <= parent.notAfter
  }

  predicate DepthOK(parent: Option<int>, child: Option<int>) {
    parent.None? || (child.Some? && child.value < parent.value)
  }

  /** The first violated dimension, in source order. */
  function VerifySubset(child: Authority, parent: Authority): Option<Error> {
    if !CapabilitySubset(parent.capabilities, child.capabilities) then Some(CapabilityEscalation)
    else if !ScopeSubset(parent.scope, child.scope) then Some(ScopeEscalation)
    else if !ValiditySubset(parent.validity, child.validity) then Some(ValidityEscalation)
    else if !DepthOK(parent.maxDepth, child.maxDepth) then Some(DepthEscalation)
    else None
  }

  /** Which error a refusal carries: that of the first dimension exceeded, in this order. */
  lemma SubsetRefusedExactly(child: Authority, parent: Authority)
    ensures var e := VerifySubset(child, parent);
            var held := forall c :: c in child.capabilities ==> c in parent.capabilities;
            var scoped := held && ScopeSubset(parent.scope, child.scope);
            var timed := && scoped && parent.validity.notBefore <= child.validity.notBefore
                         && child.validity.notAfter <= parent.validity.notAfter;
            && (e == Some(CapabilityEscalation) <==> !held)
            && (e == Some(ScopeEscalation) <==> held && !scoped)
            && (e == Some(ValidityEscalation) <==> scoped && !timed)
            && (e == Some(DepthEscalation) <==>
                  timed && parent.maxDepth != None && (child.maxDepth == None || child.maxDepth.value >= parent.maxDepth.value))
  {
    hide ScopeSubset;
    if CapabilitySubset(parent.capabilities, child.capabilities) {
      forall c | c in child.capabilities
        ensures c in parent.capabilities
      {
        var i :| 0 <= i < |child.capabilities| && child.capabilities[i] == c;
      }
    }
  }

  // ---------------------------------------------------------------- what a scope permits

  /** One exercise of an authority, located in every dimension. */
  datatype Exercise = Exercise(
    capability: Capability, resource: string, subject: string, action: string, organization: string,
    region: string, channel: string, at: Time, unit: string, count: int, currency: string, amount: real)

  predicate Allows(list: seq<string>, x: string) { list == [] || x in list }

  predicate Permits(s: Scope, x: Exercise) {
    && Allows(s.resources, x.resource)
    && Allows(s.subjects, x.subject)
    && Allows(s.actions, x.action)
    && Allows(s.organizations, x.organization)
    && Allows(s.geography, x.region)
    && Allows(s.channels, x.channel)
    && (s.timeWindow.Some? ==> s.timeWindow.value.start <= x.at <= s.timeWindow.value.end)
    && (s.quantity.Some? ==> x.unit == s.quantity.value.unit && x.count <= s.quantity.value.limit)
    && (s.monetary.Some? ==> x.currency == s.monetary.value.currency && x.amount <= s.monetary.value.limit)
  }

  /** What an authority grants at a moment. */
  predicate Grants(a: Authority, x: Exercise) {
    x.capability in a.capabilities && Permits(a.scope, x) && a.validity.notBefore <= x.at <= a.validity.notAfter
  }

  /** Attenuation: a child that passes the subset check grants nothing its parent does not. */
  lemma SubsetAttenuates(child: Authority, parent: Authority, x: Exercise)
    requires VerifySubset(child, parent).None? && Grants(child, x)
    ensures Grants(parent, x)
  {
    var i :| 0 <= i < |child.capabilities| && child.capabilities[i] == x.capability;
  }

  /** A string longer than every element is not one of them. */
  lemma {:induction false} UnlistedString(list: seq<string>) returns (x: string)
    ensures x !in list && forall s :: s in list ==> |s| < |x|
  {
    if list == [] {
      x := "x";
    } else {
      var y := UnlistedString(list[1..]);
      x := if |list[0]| < |y| then y else list[0] + "x";
      assert list == [list[0]] + list[1..];
      assert forall s :: s in list ==> s == list[0] || s in list[1..];
    }
  }

  /** The list test is exact: it accepts just when the child allows nothing the parent forbids. */
  lemma StringSliceExact(parent: seq<string>, child: seq<string>)
    ensures StringSliceSubset(parent, child) <==> forall x: string :: Allows(child, x) ==> Allows(parent, x)
  {
    if parent != [] && child == [] {
      var x := UnlistedString(parent);
      assert Allows(child, x) && !Allows(parent, x);
    } else if !StringSliceSubset(parent, child) {
      var i :| 0 <= i < |child| && child[i] !in parent;
      assert Allows(child, child[i]) && !Allows(parent, child[i]);
    }
  }

  predicate WindowEmpty(s: Scope) {
    s.timeWindow.Some? && s.timeWindow.value.start > s.timeWindow.value.end
  }

  /** A string the child allows; one the parent forbids, where there is one. */
  lemma Outlier(parent: seq<string>, child: seq<string>) returns (x: string)
    ensures Allows(child, x) && (!StringSliceSubset(parent, child) ==> !Allows(parent, x))
  {
    if child == [] {
      x := UnlistedString(parent);
    } else if i :| 0 <= i < |child| && child[i] !in parent {
      x := child[i];
    } else {
      x := child[0];
    }
  }

  /** Where the parent restricts what the child leaves open, a value outside the parent's bound. */
  lemma OutlierBounds(parent: Scope, child: Scope) returns (at: Time, q: Quantity, m: Monetary)
    requires !WindowEmpty(child)
    ensures child.timeWindow.Some? ==> child.timeWindow.value.start <= at <= child.timeWindow.value.end
    ensures child.quantity.Some? ==> q == child.quantity.value
    ensures child.monetary.Some? ==> m == child.monetary.value
    ensures !TimeWindowSubset(parent.timeWindow, child.timeWindow) ==>
              !(parent.timeWindow.value.start <= at <= parent.timeWindow.value.end)
    ensures !QuantitySubset(parent.quantity, child.quantity) ==>
              !(q.unit == parent.quantity.value.unit && q.limit <= parent.quantity.value.limit)
    ensures !MonetarySubset(parent.monetary, child.monetary) ==>
              !(m.currency == parent.monetary.value.currency && m.limit <= parent.monetary.value.limit)
  {
    at := if child.timeWindow.None? then (if parent.timeWindow.Some? then parent.timeWindow.value.start - 1 else 0)
          else if parent.timeWindow.Some? && child.timeWindow.value.end > parent.timeWindow.value.end
          then child.timeWindow.value.end else child.timeWindow.value.start;
    q := if child.quantity.Some? then child.quantity.value
         else if parent.quantity.Some? then Quantity(parent.quantity.value.unit, parent.quantity.value.limit + 1) else Quantity("", 0);
    m := if child.monetary.Some? then child.monetary.value
         else if parent.monetary.Some? then Monetary(parent.monetary.value.currency, parent.monetary.value.limit + 1.0)
         else Monetary("", 0.0);
  }

  /** An exercise the child permits, and the parent does not unless the child's scope is a subset. */
  lemma OutlierExercise(parent: Scope, child: Scope) returns (x: Exercise)
    requires !WindowEmpty(child)
    ensures Permits(child, x) && (!ScopeSubset(parent, child) ==> !Permits(parent, x))
  {
    hide Allows, StringSliceSubset;
    var resource := Outlier(parent.resources, child.resources);
    var subject := Outlier(parent.subjects, child.subjects);
    var action := Outlier(parent.actions, child.actions);
    var organization := Outlier(parent.organizations, child.organizations);
    var region := Outlier(parent.geography, child.geography);
    var channel := Outlier(parent.channels, child.channels);
    var at, q, m := OutlierBounds(parent, child);
    x := Exercise(Capability("", ""), resource, subject, action, organization, region, channel,
                  at, q.unit, q.limit, m.currency, m.limit);
  }

  /** The scope test is exact: it accepts just when the child permits nothing the parent forbids. */
  lemma ScopeSubsetExact(parent: Scope, child: Scope)
    requires !WindowEmpty(child)
    ensures ScopeSubset(parent, child) <==> forall x: Exercise :: Permits(child, x) ==> Permits(parent, x)
  {
    if ScopeSubset(parent, child) {
      forall x: Exercise | Permits(child, x)
        ensures Permits(parent, x)
      {
      }
    } else {
      var x := OutlierExercise(parent, child);
    }
  }

  /** The subset check is exact in every dimension: it accepts a child (whose windows hold some
      instant) just when the child holds no other capability, permits no exercise and covers no
      instant outside the parent's, and spends a level of any depth bound. */
  lemma VerifySubsetExact(child: Authority, parent: Authority)
    requires !WindowEmpty(child.scope) && child.validity.notBefore <= child.validity.notAfter
    ensures VerifySubset(child, parent) == None <==>
            && (forall c :: c in child.capabilities ==> c in parent.capabilities)
            && (forall x: Exercise :: Permits(child.scope, x) ==> Permits(parent.scope, x))
            && (forall t: Time :: Covers(child.validity, t) ==> Covers(parent.validity, t))
            && (parent.maxDepth == None || (child.maxDepth != None && child.maxDepth.value < parent.maxDepth.value))
  {
    hide ScopeSubset, Permits;
    ScopeSubsetExact(parent.scope, child.scope);
    assert Covers(child.validity, child.validity.notBefore) && Covers(child.validity, child.validity.notAfter);
    if CapabilitySubset(parent.capabilities, child.capabilities) {
      forall c | c in child.capabilities
        ensures c in parent.capabilities
      {
        var i :| 0 <= i < |child.capabilities| && child.capabilities[i] == c;
      }
    }
  }

  /** The instants of a window, both ends included. */
  predicate Covers(v: Validity, t: Time) { v.notBefore <= t <= v.notAfter }

  // ---------------------------------------------------------------- chains

  lemma StringSliceTransitive(a: seq<string>, b: seq<string>, c: seq<string>)
    requires StringSliceSubset(a, b) && StringSliceSubset(b, c)
    ensures StringSliceSubset(a, c)
  {
  }

  lemma ScopeTransitive(a: Scope, b: Scope, c: Scope)
    requires ScopeSubset(a, b) && ScopeSubset(b, c)
    ensures ScopeSubset(a, c)
  {
    StringSliceTransitive(a.resources, b.resources, c.resources);
    StringSliceTransitive(a.subjects, b.subjects, c.subjects);
    StringSliceTransitive(a.actions, b.actions, c.actions);
    StringSliceTransitive(a.organizations, b.organizations, c.organizations);
    StringSliceTransitive(a.geography, b.geography, c.geography);
    StringSliceTransitive(a.channels, b.channels, c.channels);
  }

  lemma SubsetTransitive(a: Authority, b: Authority, c: Authority)
    requires VerifySubset(a, b).None? && VerifySubset(b, c).None?
    ensures VerifySubset(a, c).None?
  {
    hide ScopeSubset;
    ScopeTransitive(c.scope, b.scope, a.scope);
    forall i | 0 <= i < |a.capabilities|
      ensures a.capabilities[i] in c.capabilities
    {
      var j :| 0 <= j < |b.capabilities| && b.capabilities[j] == a.capabilities[i];
    }
  }

  /** Leaf first, root last: every neighbour pair passes the subset check. */
  ghost predicate Attenuating(chain: seq<Authority>) {
    forall i :: 0 <= i < |chain| - 1 ==> VerifySubset(chain[i], chain[i + 1]).None?
  }

  /** Local checks compose: any lower hop is a subset of any higher one. */
  lemma {:induction false} ChainSubset(chain: seq<Authority>, i: nat, j: nat)
    requires Attenuating(chain) && i < j < |chain|
    ensures VerifySubset(chain[i], chain[j]).None?
    decreases j
  {
    hide VerifySubset;
    assert VerifySubset(chain[j - 1], chain[j - 1 + 1]).None?;
    if i + 1 < j {
      ChainSubset(chain, i, j - 1);
      SubsetTransitive(chain[i], chain[j - 1], chain[j]);
    }
  }

  /** Each delegation spends at least one level of depth. */
  lemma {:induction false} DepthSpent(chain: seq<Authority>, i: nat, j: nat)
    requires Attenuating(chain) && i <= j < |chain| && chain[j].maxDepth.Some?
    ensures chain[i].maxDepth.Some? && chain[i].maxDepth.value <= chain[j].maxDepth.value - (j - i)
    decreases j - i
  {
    if i < j {
      DepthSpent(chain, i + 1, j);
      assert VerifySubset(chain[i], chain[i + 1]).None?;
    }
  }

  /** An attenuating chain from a leaf of bound d up to the given root. */
  ghost predicate ChainTo(root: Authority, d: int, chain: seq<Authority>) {
    Attenuating(chain) && |chain| > 0 && chain[0].maxDepth == Some(d) && chain[|chain| - 1] == root
  }

  /** k delegations under the root, each one level below the last. */
  function CountingDown(root: Authority, k: nat): (chain: seq<Authority>)
    requires root.maxDepth.Some?
    ensures |chain| == k + 1
  {
    seq(k + 1, i requires 0 <= i <= k => root.(maxDepth := Some(root.maxDepth.value - (k - i))))
  }

  /** Bounds may count down through zero: a bounded root heads chains of every length. */
  lemma CountingDownAttenuates(root: Authority, k: nat)
    requires root.maxDepth.Some?
    ensures ChainTo(root, root.maxDepth.value - k, CountingDown(root, k))
  {
    var chain, n := CountingDown(root, k), root.maxDepth.value;
    forall i | 0 <= i < |chain| - 1
      ensures VerifySubset(chain[i], chain[i + 1]).None?
    {
      assert chain[i] == root.(maxDepth := Some(n - (k - i))) && chain[i + 1] == root.(maxDepth := Some(n - (k - i - 1)));
    }
  }

  /** The bound N of a root caps the delegations below it at N exactly for leaves whose own bound is not
      negative; whatever the leaf bound d, N - d delegations is the most there are. */
  lemma DepthBoundExactly(root: Authority, d: int)
    requires root.maxDepth.Some? && d < root.maxDepth.value
    ensures (forall chain :: ChainTo(root, d, chain) ==> |chain| - 1 <= root.maxDepth.value) <==> d >= 0
    ensures forall chain :: ChainTo(root, d, chain) ==> |chain| - 1 <= root.maxDepth.value - d
    ensures exists chain :: ChainTo(root, d, chain) && |chain| - 1 == root.maxDepth.value - d
  {
    hide VerifySubset;
    var n := root.maxDepth.value;
    forall chain | ChainTo(root, d, chain)
      ensures |chain| - 1 <= n - d
    {
      DepthSpent(chain, 0, |chain| - 1);
    }
    CountingDownAttenuates(root, n - d);
    assert |CountingDown(root, n - d)| - 1 == n - d;
  }

  // ---------------------------------------------------------------- deriving a child

  datatype DelegationSpec = DelegationSpec(
    subject: string, capabilities: seq<Capability>, scope: Scope, validity: Validity, maxDepth: Option<int>)

  /** Derive: the unsigned child named after its parent, or the violated dimension. */
  function Derive(canon: Canon, parent: Authority, spec: DelegationSpec): Result<Authority, Error> {
    var child := Authority(spec.subject, None, spec.capabilities, spec.scope, spec.validity, spec.maxDepth,
                           STATUS_ACTIVE, Proof(0, "", []));
    match VerifySubset(child, parent)
    case Some(e) => Err(e)
    case None =>
      match Ref(canon, parent)
      case None => Err(HashFailed)
      case Some(ref) => Ok(child.(parent := Some(ref)))
  }

  /** A derived child links to its parent and to no other, grants no more than it, and nothing is
      clamped: every requested dimension is kept as requested. */
  lemma DeriveLinks(canon: Canon, parent: Authority, spec: DelegationSpec, other: Authority)
    requires Derive(canon, parent, spec).Ok?
    ensures var child := Derive(canon, parent, spec).value;
            && VerifySubset(child, parent).None?
            && child.parent.Some? && child.parent == Ref(canon, parent)
            && (child.parent == Ref(canon, other) ==>
                  Unsigned(other) == Unsigned(parent) || CanonCollision(canon, parent, other))
            && DelegationSpec(child.subject, child.capabilities, child.scope, child.validity, child.maxDepth) == spec
            && child.status == 1 && child.proof == Proof(0, "", [])
  {
    var child := Derive(canon, parent, spec).value;
    if child.parent == Ref(canon, other) {
      RefBinds(canon, parent, other);
    }
  }

  // ---------------------------------------------------------------- the loops

  method CapabilitySubsetLoop(parent: seq<Capability>, child: seq<Capability>) returns (ok: bool)
    ensures ok == CapabilitySubset(parent, child)
  {
    for i := 0 to |child|
      invariant forall k :: 0 <= k < i ==> child[k] in parent
    {
      if child[i] !in parent {
        return false;
      }
    }
    return true;
  }

  /** stringSliceSubset: collect the parent in a set, then look every child element up. */
  method StringSliceSubsetLoop(parent: seq<string>, child: seq<string>) returns (ok: bool)
    ensures ok == StringSliceSubset(parent, child)
  {
    if |parent| == 0 {
      return true;
    }
    if |child| == 0 {
      return false;
    }
    var parentSet: set<string> := {};
    for i := 0 to |parent|
      invariant forall s :: s in parentSet <==> s in parent[..i]
    {
      assert parent[..i + 1] == parent[..i] + [parent[i]];
      parentSet := parentSet + {parent[i]};
    }
    assert parent[..|parent|] == parent;
    for i := 0 to |child|
      invariant forall k :: 0 <= k < i ==> child[k] in parent
    {
      if child[i] !in parentSet {
        return false;
      }
    }
    return true;
  }
}
