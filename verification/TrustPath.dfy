/** What a valid verification means from the attestation up to the root authority. */
module TrustPath {
  import opened Basics
  import opened Authorities
  import opened Attestations
  import opened Verification
  import Delegation

  function AuthoritiesOf(chain: seq<Hop>): (r: seq<Authority>)
    ensures |r| == |chain|
  {
    seq(|chain|, i requires 0 <= i < |chain| => chain[i].authority)
  }

  /** Every value a claim lists is allowed by the authority's list. */
  predicate ListedAllowed(claim: seq<string>, list: seq<string>) {
    forall i :: 0 <= i < |claim| ==> Delegation.Allows(list, claim[i])
  }

  /** A claim's scope stays within an authority's in every dimension. */
  predicate ClaimWithin(claim: Scope, s: Scope) {
    && ListedAllowed(claim.resources, s.resources)
    && ListedAllowed(claim.subjects, s.subjects)
    && ListedAllowed(claim.actions, s.actions)
    && ListedAllowed(claim.organizations, s.organizations)
    && ListedAllowed(claim.geography, s.geography)
    && ListedAllowed(claim.channels, s.channels)
    && Delegation.TimeWindowSubset(s.timeWindow, claim.timeWindow)
    && Delegation.QuantitySubset(s.quantity, claim.quantity)
    && Delegation.MonetarySubset(s.monetary, claim.monetary)
  }

  lemma ListComposes(claim: seq<string>, leaf: seq<string>, hop: seq<string>)
    requires StringSliceSubset(claim, leaf) && Delegation.StringSliceSubset(hop, leaf)
    ensures ListedAllowed(claim, hop)
  {
  }

  lemma ListUnderLeaf(claim: seq<string>, leaf: seq<string>)
    requires StringSliceSubset(claim, leaf)
    ensures ListedAllowed(claim, leaf)
  {
  }

  /** The claim-side test at the leaf and the delegation-side tests above it compose. */
  lemma ScopeComposes(claim: Scope, leaf: Scope, hop: Scope)
    requires ScopeSubset(claim, leaf) && (hop == leaf || Delegation.ScopeSubset(hop, leaf))
    ensures ClaimWithin(claim, hop)
  {
    hide StringSliceSubset, Delegation.StringSliceSubset, ListedAllowed;
    if hop == leaf {
      ListUnderLeaf(claim.resources, leaf.resources);
      ListUnderLeaf(claim.subjects, leaf.subjects);
      ListUnderLeaf(claim.actions, leaf.actions);
      ListUnderLeaf(claim.organizations, leaf.organizations);
      ListUnderLeaf(claim.geography, leaf.geography);
      ListUnderLeaf(claim.channels, leaf.channels);
    } else {
      ListComposes(claim.resources, leaf.resources, hop.resources);
      ListComposes(claim.subjects, leaf.subjects, hop.subjects);
      ListComposes(claim.actions, leaf.actions, hop.actions);
      ListComposes(claim.organizations, leaf.organizations, hop.organizations);
      ListComposes(claim.geography, leaf.geography, hop.geography);
      ListComposes(claim.channels, leaf.channels, hop.channels);
    }
  }

  /** Wherever the claim leaves a list open, so does the authority. */
  predicate NoGap(claim: Scope, s: Scope) {
    && (claim.resources == [] ==> s.resources == [])
    && (claim.subjects == [] ==> s.subjects == [])
    && (claim.actions == [] ==> s.actions == [])
    && (claim.organizations == [] ==> s.organizations == [])
    && (claim.geography == [] ==> s.geography == [])
    && (claim.channels == [] ==> s.channels == [])
  }

  /** A string the claim allows; one the authority does not list, where the claim leaves the choice. */
  lemma Choose(claim: seq<string>, list: seq<string>) returns (x: string)
    ensures Delegation.Allows(claim, x) && (claim == [] && list != [] ==> !Delegation.Allows(list, x))
  {
    if claim != [] {
      x := claim[0];
    } else {
      x := Delegation.UnlistedString(list);
    }
  }

  /** An exercise the claim permits that steps into every gap. */
  lemma GapExercise(claim: Scope, s: Scope) returns (x: Delegation.Exercise)
    requires !Delegation.WindowEmpty(claim)
    ensures Delegation.Permits(claim, x)
    ensures !NoGap(claim, s) ==> !Delegation.Permits(s, x)
  {
    hide Delegation.Allows;
    var resource := Choose(claim.resources, s.resources);
    var subject := Choose(claim.subjects, s.subjects);
    var action := Choose(claim.actions, s.actions);
    var organization := Choose(claim.organizations, s.organizations);
    var region := Choose(claim.geography, s.geography);
    var channel := Choose(claim.channels, s.channels);
    var q := if claim.quantity.Some? then claim.quantity.value else Quantity("", 0);
    var m := if claim.monetary.Some? then claim.monetary.value else Monetary("", 0.0);
    var at := if claim.timeWindow.Some? then claim.timeWindow.value.start else 0;
    x := Delegation.Exercise(
      Capability("", ""), resource, subject, action, organization, region, channel,
      at, q.unit, q.limit, m.currency, m.limit);
  }

  lemma NoGapPermits(claim: Scope, s: Scope, x: Delegation.Exercise)
    requires ClaimWithin(claim, s) && NoGap(claim, s) && Delegation.Permits(claim, x)
    ensures Delegation.Permits(s, x)
  {
  }

  /** A claim whose listed values are all allowed permits nothing more than the authority exactly when
      it leaves no list open that the authority restricts (or permits nothing at all). */
  lemma ClaimPermitsExactly(claim: Scope, s: Scope)
    requires ClaimWithin(claim, s)
    ensures (forall x :: Delegation.Permits(claim, x) ==> Delegation.Permits(s, x)) <==> Delegation.WindowEmpty(claim) || NoGap(claim, s)
  {
    hide ClaimWithin, NoGap;
    if NoGap(claim, s) {
      forall x | Delegation.Permits(claim, x)
        ensures Delegation.Permits(s, x)
      {
        NoGapPermits(claim, s, x);
      }
    } else if !Delegation.WindowEmpty(claim) {
      var x := GapExercise(claim, s);
    }
  }

  lemma LinkedAttenuates(canon: Canon, chain: seq<Hop>)
    requires Linked(canon, chain)
    ensures Delegation.Attenuating(AuthoritiesOf(chain))
  {
    hide Delegation.VerifySubset;
    var a := AuthoritiesOf(chain);
    forall i | 0 <= i < |a| - 1
      ensures Delegation.VerifySubset(a[i], a[i + 1]).None?
    {
      assert LinkError(canon, chain[i].authority, chain[i + 1].authority).None?;
    }
  }

  /** End-to-end attenuation: under a valid verification, the issuer is the leaf authority's subject, and
      at every hop up to the root the exercised capability is held, everything the claim's scope names is within the hop's scope, both
      validity windows lie inside the hop's, the hop is active and proven, and it is current. */
  lemma EndToEnd(o: Outside, in_: Inputs, i: nat)
    requires Valid(o, in_) && i < |in_.chain|
    ensures var att, hop := in_.attestation.value, in_.chain[i].authority;
            && att.issuer == in_.chain[0].authority.subject
            && att.capability in hop.capabilities
            && ClaimWithin(att.claim.scope, hop.scope)
            && Delegation.ValiditySubset(hop.validity, att.claim.validity)
            && Delegation.ValiditySubset(hop.validity, att.validity)
            && hop.status == STATUS_ACTIVE && att.status == STATUS_ACTIVE
            && o.proof(hop, in_.chain[i].publicKey)
            && hop.validity.notBefore <= Now(o, in_) <= hop.validity.notAfter
            && ValidityContains(att.validity, Now(o, in_)) && ValidityContains(att.validity, o.ownClock)
  {
    hide ScopeSubset, Delegation.ScopeSubset, ClaimWithin, Linked;
    var att, leaf, hop := in_.attestation.value, in_.chain[0].authority, in_.chain[i].authority;
    assert Holds(o, in_, Authorization) && Holds(o, in_, ChainLink) && Holds(o, in_, Temporal);
    assert Holds(o, in_, Revocation) && Holds(o, in_, AuthorityProof);
    LinkedAttenuates(o.canon, in_.chain);
    if i > 0 {
      Delegation.ChainSubset(AuthoritiesOf(in_.chain), 0, i);
      var k :| 0 <= k < |leaf.capabilities| && leaf.capabilities[k] == att.capability;
    }
    ScopeComposes(att.claim.scope, leaf.scope, hop.scope);
    assert TemporalError(hop.validity, Now(o, in_)).None? && RevocationError(hop.status).None?;
  }

  /** What the claim's scope permits, every hop permits, exactly when the claim leaves no list open that
      the hop restricts: the claim-side list test lets an empty list pass. */
  lemma EndToEndPermits(o: Outside, in_: Inputs, i: nat)
    requires Valid(o, in_) && i < |in_.chain|
    ensures var claim, hop := in_.attestation.value.claim.scope, in_.chain[i].authority.scope;
            (forall x :: Delegation.Permits(claim, x) ==> Delegation.Permits(hop, x)) <==>
            Delegation.WindowEmpty(claim) || NoGap(claim, hop)
  {
    hide ClaimWithin, NoGap, Delegation.Permits;
    EndToEnd(o, in_, i);
    ClaimPermitsExactly(in_.attestation.value.claim.scope, in_.chain[i].authority.scope);
  }

  /** The chain ends in a parentless root, and every other hop names the hash of the next. */
  lemma PathEndsAtRoot(o: Outside, in_: Inputs, i: nat)
    requires Valid(o, in_) && i < |in_.chain|
    ensures in_.chain[i].authority.parent.None? <==> i == |in_.chain| - 1
    ensures i + 1 < |in_.chain| ==>
              in_.chain[i].authority.parent == Ref(o.canon, in_.chain[i + 1].authority)
    ensures Ref(o.canon, in_.chain[0].authority) == Some(in_.attestation.value.authorityRef)
  {
    assert Holds(o, in_, RootAuthority) && Holds(o, in_, ChainLink) && Holds(o, in_, Authorization);
    if i + 1 < |in_.chain| {
      assert LinkError(o.canon, in_.chain[i].authority, in_.chain[i + 1].authority).None?;
    }
  }

  /** Two chains agree up to a length on everything but proof signatures. */
  ghost predicate AgreeUpTo(a: seq<Hop>, b: seq<Hop>, n: nat) {
    n <= |a| && n <= |b| && forall i :: 0 <= i < n ==> Unsigned(a[i].authority) == Unsigned(b[i].authority)
  }

  /** The first pair of hops, from i on, that differ in more than a signature. */
  function FirstDifference(a: seq<Hop>, b: seq<Hop>, i: nat): Option<(Authority, Authority)>
    decreases |a| - i
  {
    if i >= |a| || i >= |b| then None
    else if Unsigned(a[i].authority) != Unsigned(b[i].authority) then Some((a[i].authority, b[i].authority))
    else FirstDifference(a, b, i + 1)
  }

  /** Walking up both chains: equal hops name equal parents, until both end at the root. */
  lemma {:induction false} PathsAgree(o: Outside, p: Outside, in_: Inputs, jn: Inputs, i: nat)
    requires Valid(o, in_) && Valid(p, jn) && o.canon == p.canon && in_.attestation == jn.attestation
    requires i < |in_.chain| && i < |jn.chain| && AgreeUpTo(in_.chain, jn.chain, i)
    requires Ref(o.canon, in_.chain[i].authority).Some?
    requires Ref(o.canon, in_.chain[i].authority) == Ref(o.canon, jn.chain[i].authority)
    ensures (|in_.chain| == |jn.chain| && AgreeUpTo(in_.chain, jn.chain, |in_.chain|))
         || (var d := FirstDifference(in_.chain, jn.chain, i); d.Some? && CanonCollision(o.canon, d.value.0, d.value.1))
    decreases |in_.chain| - i
  {
    hide Valid, Ref, CanonCollision, Unsigned;
    var a, b := in_.chain[i].authority, jn.chain[i].authority;
    RefBinds(o.canon, a, b);
    if Unsigned(a) == Unsigned(b) {
      SameParent(a, b);
      PathEndsAtRoot(o, in_, i);
      PathEndsAtRoot(p, jn, i);
      if i + 1 < |in_.chain| {
        PathsAgree(o, p, in_, jn, i + 1);
      }
    }
  }

  lemma SameParent(a: Authority, b: Authority)
    requires Unsigned(a) == Unsigned(b)
    ensures a.parent == b.parent
  {
  }

  /** Trust-path uniqueness: two valid verifications of one attestation saw chains of the same
      length that agree hop by hop on everything but proof signatures, or two of their authorities
      are a canonical-hash collision. */
  lemma TrustPathUnique(o: Outside, p: Outside, in_: Inputs, jn: Inputs)
    requires Valid(o, in_) && Valid(p, jn) && o.canon == p.canon && in_.attestation == jn.attestation
    ensures (|in_.chain| == |jn.chain| && AgreeUpTo(in_.chain, jn.chain, |in_.chain|))
         || (var d := FirstDifference(in_.chain, jn.chain, 0); d.Some? && CanonCollision(o.canon, d.value.0, d.value.1))
  {
    PathEndsAtRoot(o, in_, 0);
    PathEndsAtRoot(p, jn, 0);
    PathsAgree(o, p, in_, jn, 0);
  }
}
