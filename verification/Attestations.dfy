/** Single-hop authorization of an attestation: attestation/authorize.go. */
module Attestations {
  import opened Basics
  import opened Authorities
  import Delegation

  datatype Claim = Claim(scope: Scope, validity: Validity)

  datatype Attestation = Attestation(
    issuer: string, signingKeyID: string, signingKeyVersion: nat, authorityRef: string, capability: Capability,
    claim: Claim, validity: Validity, status: int)

  datatype Error =
    | MissingAuthorityRef | AuthorityHashFailed | AuthorityMismatch | SubjectMismatch | CapabilityNotGranted
    | AuthorityNotActive | AttestationNotActive | AttestationNotCurrent | AuthorizationScope | AuthorizationValidity

  predicate CapabilityGranted(caps: seq<Capability>, c: Capability) { c in caps }

  /** Plain inclusion, gated by length: sub is never longer than super. */
  predicate StringSliceSubset(sub: seq<string>, super: seq<string>) {
    |sub| <= |super| && forall i :: 0 <= i < |sub| ==> sub[i] in super
  }

  predicate ScopeSubset(sub: Scope, super: Scope) {
    && StringSliceSubset(sub.resources, super.resources)
    && StringSliceSubset(sub.subjects, super.subjects)
    && StringSliceSubset(sub.actions, super.actions)
    && StringSliceSubset(sub.organizations, super.organizations)
    && StringSliceSubset(sub.geography, super.geography)
    && StringSliceSubset(sub.channels, super.channels)
    && (super.timeWindow.Some? ==>
          && sub.timeWindow.Some?
          && !(sub.timeWindow.value.start < super.timeWindow.value.start)
          && !(sub.timeWindow.value.end > super.timeWindow.value.end))
    && (super.quantity.Some? ==>
          && sub.quantity.Some? && sub.quantity.value.unit == super.quantity.value.unit
          && !(sub.quantity.value.limit > super.quantity.value.limit))
    && (super.monetary.Some? ==>
          && sub.monetary.Some? && sub.monetary.value.currency == super.monetary.value.currency
          && !(sub.monetary.value.limit > super.monetary.value.limit))
  }

  predicate ValiditySubset(sub: Validity, super: Validity) {
    !(sub.notBefore < super.notBefore) && !(sub.notAfter > super.notAfter)
  }

  predicate ValidityContains(v: Validity, now: Time) { !(now < v.notBefore) && !(now > v.notAfter) }

  /** The first failing condition; now is the clock the function reads for itself. */
  function VerifyAuthorization(canon: Canon, att: Attestation, auth: Authority, now: Time): Option<Error> {
    if att.authorityRef == "" then Some(MissingAuthorityRef)
    else if Ref(canon, auth).None? then Some(AuthorityHashFailed)
    else if Ref(canon, auth).value != att.authorityRef then Some(AuthorityMismatch)
    else if att.issuer != auth.subject then Some(SubjectMismatch)
    else if !CapabilityGranted(auth.capabilities, att.capability) then Some(CapabilityNotGranted)
    else if auth.status != STATUS_ACTIVE then Some(AuthorityNotActive)
    else if att.status != STATUS_ACTIVE then Some(AttestationNotActive)
    else if !ValidityContains(att.validity, now) then Some(AttestationNotCurrent)
    else if !ScopeSubset(att.claim.scope, auth.scope) then Some(AuthorizationScope)
    else if !ValiditySubset(att.claim.validity, auth.validity) || !ValiditySubset(att.validity, auth.validity)
    then Some(AuthorizationValidity)
    else None
  }

  /** Every listed value is listed above, in a list at least as long. */
  ghost predicate Listed(claim: seq<string>, list: seq<string>) {
    |claim| <= |list| && forall x :: x in claim ==> x in list
  }

  /** Every instant of the inner window lies in the outer one, both ends included. */
  predicate Within(inner: Validity, outer: Validity) {
    outer.notBefore <= inner.notBefore && inner.notAfter <= outer.notAfter
  }

  /** The claim's scope stays in the authority's: list by list, and wherever the authority bounds
      time, quantity or money the claim is bounded too, at most as widely. */
  ghost predicate InScope(claim: Scope, s: Scope) {
    && Listed(claim.resources, s.resources) && Listed(claim.subjects, s.subjects) && Listed(claim.actions, s.actions)
    && Listed(claim.organizations, s.organizations) && Listed(claim.geography, s.geography) && Listed(claim.channels, s.channels)
    && (s.timeWindow != None ==>
          exists w :: claim.timeWindow == Some(w) && s.timeWindow.value.start <= w.start && w.end <= s.timeWindow.value.end)
    && (s.quantity != None ==>
          exists q :: claim.quantity == Some(q) && q.unit == s.quantity.value.unit && q.limit <= s.quantity.value.limit)
    && (s.monetary != None ==>
          exists m :: claim.monetary == Some(m) && m.currency == s.monetary.value.currency && m.limit <= s.monetary.value.limit)
  }

  /** An attestation is authorized exactly when it names the authority's hash, was issued by the
      authority's subject under a capability the authority holds, both are active, it is current,
      and its claim and both its windows stay within the authority's. */
  lemma AuthorizedExactly(canon: Canon, att: Attestation, auth: Authority, now: Time)
    ensures VerifyAuthorization(canon, att, auth, now) == None <==>
            && att.authorityRef != "" && Ref(canon, auth) == Some(att.authorityRef)
            && att.issuer == auth.subject
            && (exists i :: 0 <= i < |auth.capabilities| && auth.capabilities[i] == att.capability)
            && auth.status == 1 && att.status == 1
            && att.validity.notBefore <= now <= att.validity.notAfter
            && InScope(att.claim.scope, auth.scope)
            && Within(att.claim.validity, auth.validity) && Within(att.validity, auth.validity)
  {
    ScopeExactly(att.claim.scope, auth.scope);
  }

  lemma ListExactly(sub: seq<string>, super: seq<string>)
    ensures StringSliceSubset(sub, super) <==> Listed(sub, super)
  {
    if StringSliceSubset(sub, super) {
      forall x | x in sub
        ensures x in super
      {
        var i :| 0 <= i < |sub| && sub[i] == x;
      }
    }
  }

  lemma ScopeExactly(sub: Scope, super: Scope)
    ensures ScopeSubset(sub, super) <==> InScope(sub, super)
  {
    hide StringSliceSubset, Listed;
    ListExactly(sub.resources, super.resources);
    ListExactly(sub.subjects, super.subjects);
    ListExactly(sub.actions, super.actions);
    ListExactly(sub.organizations, super.organizations);
    ListExactly(sub.geography, super.geography);
    ListExactly(sub.channels, super.channels);
  }

  /** Which error a refusal carries: that of the first condition that fails, in this order. */
  lemma RefusedExactly(canon: Canon, att: Attestation, auth: Authority, now: Time)
    ensures var e := VerifyAuthorization(canon, att, auth, now);
            var named := att.authorityRef != "" && Ref(canon, auth) == Some(att.authorityRef);
            var issued := named && att.issuer == auth.subject && att.capability in auth.capabilities;
            var active := issued && auth.status == 1 && att.status == 1;
            var current := active && att.validity.notBefore <= now <= att.validity.notAfter;
            && (e == Some(MissingAuthorityRef) <==> att.authorityRef == "")
            && (e == Some(AuthorityHashFailed) <==> att.authorityRef != "" && Ref(canon, auth) == None)
            && (e == Some(AuthorityMismatch) <==> att.authorityRef != "" && Ref(canon, auth) != None && !named)
            && (e == Some(SubjectMismatch) <==> named && att.issuer != auth.subject)
            && (e == Some(CapabilityNotGranted) <==> named && att.issuer == auth.subject && att.capability !in auth.capabilities)
            && (e == Some(AuthorityNotActive) <==> issued && auth.status != 1)
            && (e == Some(AttestationNotActive) <==> issued && auth.status == 1 && att.status != 1)
            && (e == Some(AttestationNotCurrent) <==> active && !current)
            && (e == Some(AuthorizationScope) <==> current && !InScope(att.claim.scope, auth.scope))
            && (e == Some(AuthorizationValidity) <==>
                  && current && InScope(att.claim.scope, auth.scope)
                  && !(Within(att.claim.validity, auth.validity) && Within(att.validity, auth.validity)))
  {
    hide ScopeSubset, InScope;
    ScopeExactly(att.claim.scope, auth.scope);
  }

  /** The claim-side list test and the delegation-side one agree exactly when both lists are empty
      or neither is, and repetitions do not make the claim's list the longer one. The comment above
      the source's scopeSubset describes the delegation-side test. */
  lemma ListTestsAgreeExactly(sub: seq<string>, super: seq<string>)
    ensures StringSliceSubset(sub, super) == Delegation.StringSliceSubset(super, sub) <==>
            && (sub == [] <==> super == [])
            && (|sub| <= |super| || exists i :: 0 <= i < |sub| && sub[i] !in super)
  {
  }

  /** An empty claim list passes under any authority list, and no non-empty one under an empty one. */
  lemma EmptyListCases(list: seq<string>)
    requires list != []
    ensures StringSliceSubset([], list) && !Delegation.StringSliceSubset(list, [])
    ensures !StringSliceSubset(list, []) && Delegation.StringSliceSubset([], list)
  {
  }

  method CapabilityGrantedLoop(caps: seq<Capability>, c: Capability) returns (granted: bool)
    ensures granted == CapabilityGranted(caps, c)
  {
    for i := 0 to |caps|
      invariant c !in caps[..i]
    {
      if caps[i] == c {
        return true;
      }
      assert caps[..i + 1] == caps[..i] + [caps[i]];
    }
    assert caps[..|caps|] == caps;
    return false;
  }

  /** The nested search with its found flag. */
  method StringSliceSubsetLoop(sub: seq<string>, super: seq<string>) returns (ok: bool)
    ensures ok == StringSliceSubset(sub, super)
  {
    if |sub| > |super| {
      return false;
    }
    for i := 0 to |sub|
      invariant forall k :: 0 <= k < i ==> sub[k] in super
    {
      var found := false;
      for j := 0 to |super|
        invariant !found ==> sub[i] !in super[..j]
        invariant found ==> sub[i] in super
      {
        if super[j] == sub[i] {
          found := true;
          break;
        }
        assert super[..j + 1] == super[..j] + [super[j]];
      }
      assert super[..|super|] == super;
      if !found {
        return false;
      }
    }
    return true;
  }
}
