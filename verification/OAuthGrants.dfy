/** The grants of auth/oauth/oauth.go as code over shared stores, with other grants running
    between any two store operations: every execution is a run of the protocol of module OAuth. */
module OAuthGrants {
  import opened Basics
  import opened OAuth
  import opened OAuthPlan
  import opened OAuthChecks

  /** The shared stores of auth/oauth/interfaces.go; families holds the identifiers already
      drawn, and the ghost field records where every grant of the server stands. */
  class Server {
    var tokens: Tokens
    var codes: Codes
    var families: set<Id>
    ghost var grants: map<Id, Grant>

    ghost function View(): State
      reads this
    {
      State(tokens, codes, grants, families)
    }

    constructor ()
      ensures View() == INIT
    {
      tokens, codes, grants, families := map[], map[], map[], {};
    }

    method Create(id: Id, token: RefreshToken)
      modifies this`tokens
      ensures tokens == old(tokens)[id := token]
    {
      tokens := tokens[id := token];
    }

    method GetByHash(hash: string) returns (found: Option<Id>)
      ensures found.Some? ==> found.value in tokens && tokens[found.value].tokenHash == hash
      ensures found.None? ==> forall id :: id in tokens ==> tokens[id].tokenHash != hash
    {
      if id :| id in tokens && tokens[id].tokenHash == hash {
        return Some(id);
      }
      return None;
    }

    /** Atomic check-and-set; false when the token was already revoked. */
    method Revoke(id: Id, now: Time) returns (claimed: bool)
      requires id in tokens
      modifies this`tokens
      ensures claimed == old(tokens)[id].revokedAt.None?
      ensures tokens == RevokeIn(old(tokens), id, now)
    {
      if tokens[id].revokedAt.Some? {
        return false;
      }
      tokens := tokens[id := tokens[id].(revokedAt := Some(now))];
      return true;
    }

    method RevokeFamily(f: Id, now: Time)
      modifies this`tokens
      ensures tokens == RevokeFamilyIn(old(tokens), f, now)
    {
      var left := tokens.Keys;
      ghost var was, all := tokens, RevokeFamilyIn(tokens, f, now);
      while left != {}
        invariant left <= tokens.Keys == was.Keys
        invariant forall id :: id in was ==> tokens[id] == if id in left then was[id] else all[id]
        decreases left
      {
        var id :| id in left;
        if tokens[id].familyID == f && tokens[id].revokedAt.None? {
          tokens := tokens[id := tokens[id].(revokedAt := Some(now))];
        }
        left := left - {id};
      }
    }

    method GetCodeByHash(hash: string) returns (found: Option<Id>)
      ensures found.Some? ==> found.value in codes && codes[found.value].codeHash == hash
      ensures found.None? ==> forall id :: id in codes ==> codes[id].codeHash != hash
    {
      if id :| id in codes && codes[id].codeHash == hash {
        return Some(id);
      }
      return None;
    }

    /** Atomic check-and-set; false when the code was already consumed. */
    method Consume(id: Id, now: Time) returns (first: bool)
      requires id in codes
      modifies this`codes
      ensures first == old(codes)[id].consumedAt.None?
      ensures codes == if first then old(codes)[id := old(codes)[id].(consumedAt := Some(now))] else old(codes)
    {
      if codes[id].consumedAt.Some? {
        return false;
      }
      codes := codes[id := codes[id].(consumedAt := Some(now))];
      return true;
    }

    /** The other grants take any steps; grant g stays where it is. A caller knows only the
        contract, so it must be correct for every interleaving. */
    method Yield(ghost g: Id) returns (ghost others: seq<Action>)
      modifies this
      ensures Exec(old(View()), others) == Some(View()) && NoneBy(others, g)
      ensures g in old(grants) ==> g in grants && grants[g] == old(grants)[g]
    {
      others := [];
    }

    /** newID for a refresh token. */
    method NewTokenID() returns (id: Id)
      ensures id !in tokens
    {
      id := NewID(tokens.Keys);
    }

    /** newID for a token family. */
    method NewFamilyID() returns (id: Id)
      ensures id !in families
    {
      id := NewID(families);
    }
  }

  /** newID: an identifier not drawn before. */
  method NewID(drawn: set<Id>) returns (id: Id)
    ensures id !in drawn
  {
    id := 0;
    var left := drawn;
    while left != {}
      invariant forall x :: x in drawn ==> x in left || x < id
    {
      var x :| x in left;
      if x >= id {
        id := x + 1;
      }
      left := left - {x};
    }
  }

  /** A grant's outcome is the end its protocol grant reached. */
  ghost predicate EndsAs(g: Grant, r: Result<Id, Error>) {
    match r
    case Ok(token) => g.Issued? && g.token == token
    case Err(e) => g == Failed(e)
  }

  /** issueTokensInFamily: sign, draw identifiers, Create; any of them may fail. */
  method IssueTokensInFamily(srv: Server, ghost g: Id, userID: string, familyID: Id, plan: Plan, ghost origin: Origin)
      returns (r: Result<Id, Error>, ghost a: Action)
    requires g in srv.grants && srv.grants[g] == Issuing(familyID, userID, origin)
    modifies srv
    ensures Prescribed(old(srv.View()), g, a, plan) && Apply(old(srv.View()), a) == Some(srv.View())
    ensures g in srv.grants && EndsAs(srv.grants[g], r)
    ensures r.Err? ==> r.error == StoreFailed && plan.issueFails
  {
    if plan.issueFails {
      srv.grants := srv.grants[g := Failed(StoreFailed)];
      return Err(StoreFailed), Abort(g);
    }
    var id := srv.NewTokenID();
    srv.Create(id, RefreshToken(userID, familyID, plan.newHash, plan.expiresAt, None));
    srv.grants := srv.grants[g := Issued(id, origin)];
    return Ok(id), Issue(g, id, plan.newHash, plan.expiresAt);
  }

  /** The reuse branch: RevokeFamily, then ErrTokenReuseDetected. */
  method RevokeOnReuse(srv: Server, ghost g: Id, familyID: Id, plan: Plan) returns (r: Result<Id, Error>, ghost a: Action)
    requires g in srv.grants && srv.grants[g] == Punishing(familyID)
    modifies srv
    ensures Prescribed(old(srv.View()), g, a, plan) && Apply(old(srv.View()), a) == Some(srv.View())
    ensures g in srv.grants && EndsAs(srv.grants[g], r)
    ensures r == Err(if plan.punishFails then StoreFailed else TokenReuseDetected)
  {
    if plan.punishFails {
      srv.grants := srv.grants[g := Failed(StoreFailed)];
      return Err(StoreFailed), Abort(g);
    }
    srv.RevokeFamily(familyID, plan.punishAt);
    srv.grants := srv.grants[g := Failed(TokenReuseDetected)];
    return Err(TokenReuseDetected), Punish(g, plan.punishAt);
  }

  /** GetByHash and the local checks after it. */
  method ReadToken(srv: Server, ghost g: Id, tokenHash: string, plan: Plan) returns (id: Option<Id>, rt: RefreshToken, e: Error, ghost a: Action)
    requires g in srv.grants && srv.grants[g] == Refreshing(tokenHash)
    modifies srv`grants
    ensures Prescribed(old(srv.View()), g, a, plan) && Apply(old(srv.View()), a) == Some(srv.View())
    ensures g in srv.grants
    ensures id.None? ==> srv.grants[g] == Failed(e) && e != StoreFailed
    ensures id.Some? ==> srv.grants[g] == if rt.revokedAt.Some? then Punishing(rt.familyID) else Claiming(id.value, rt.familyID, rt.userID)
  {
    rt := RefreshToken("", 0, "", 0, None);
    e := InvalidGrant;
    id := None;
    if !plan.lookupFails {
      id := srv.GetByHash(tokenHash);
    }
    a := Lookup(g, id, plan.readAt);
    if id.None? {
      srv.grants := srv.grants[g := Failed(e)];
      return;
    }
    rt := srv.tokens[id.value];
    if plan.readAt > rt.expiresAt {
      e := ExpiredToken;
      srv.grants := srv.grants[g := Failed(e)];
      id := None;
      return;
    }
    if rt.revokedAt.Some? {
      srv.grants := srv.grants[g := Punishing(rt.familyID)];
      return;
    }
    srv.grants := srv.grants[g := Claiming(id.value, rt.familyID, rt.userID)];
  }

  datatype Claimed = Won | Lost | Broken

  /** Revoke, the linearization point of a rotation. */
  method ClaimToken(srv: Server, ghost g: Id, id: Id, ghost familyID: Id, ghost userID: string, plan: Plan)
      returns (claim: Claimed, ghost a: Action)
    requires g in srv.grants && srv.grants[g] == Claiming(id, familyID, userID) && id in srv.tokens
    modifies srv
    ensures Prescribed(old(srv.View()), g, a, plan) && Apply(old(srv.View()), a) == Some(srv.View())
    ensures claim.Broken? <==> plan.claimFails
    ensures g in srv.grants
    ensures srv.grants[g] == if claim.Won? then Issuing(familyID, userID, FromToken(id))
                             else if claim.Lost? then Punishing(familyID) else Failed(StoreFailed)
  {
    if plan.claimFails {
      srv.grants := srv.grants[g := Failed(StoreFailed)];
      return Broken, Abort(g);
    }
    var won := srv.Revoke(id, plan.claimAt);
    srv.grants := srv.grants[g := if won then Issuing(familyID, userID, FromToken(id)) else Punishing(familyID)];
    return if won then Won else Lost, Claim(g, plan.claimAt);
  }

  /** RefreshTokenGrant: whatever the other grants do between its store operations, its execution
      is a run of the protocol in which it takes exactly the steps prescribed, so every property of
      runs holds of it. */
  method RefreshTokenGrant(srv: Server, ghost g: Id, tokenHash: string, plan: Plan)
      returns (r: Result<Id, Error>, ghost run: seq<Action>)
    requires Inv(srv.View()) && g !in srv.grants && plan.start == Refreshing(tokenHash)
    modifies srv
    ensures Exec(old(srv.View()), run) == Some(srv.View()) && Inv(srv.View())
    ensures Follows(old(srv.View()), run, g, plan)
    ensures g in srv.grants && EndsAs(srv.grants[g], r)
    ensures r == Err(StoreFailed) ==> plan.claimFails || plan.punishFails || plan.issueFails
    ensures r.Ok? ==> exists t :: RotatedFor(srv.View(), t, r.value, plan)
  {
    hide Apply, Exec, EndsAs, Follows, Prescribed, Inv, RotatedFor, RedeemedFor;
    ghost var s := srv.View();
    ghost var a: Action;
    ghost var others: seq<Action>;
    srv.grants := srv.grants[g := plan.start];
    run := BeginRun(s, g, plan, srv.View());
    ghost var at := srv.View();
    others := srv.Yield(g);
    Others(s, run, at, others, srv.View(), g, plan);
    run := run + others;

    at := srv.View();
    var id, rt, e;
    id, rt, e, a := ReadToken(srv, g, tokenHash, plan);
    Step(s, run, at, a, srv.View(), g, plan);
    run := run + [a];
    if id.None? {
      EndFailed(srv.grants[g], e);
      return Err(e), run;
    }
    at := srv.View();
    others := srv.Yield(g);
    Others(s, run, at, others, srv.View(), g, plan);
    run := run + others;

    at := srv.View();
    if rt.revokedAt.Some? {
      r, a := RevokeOnReuse(srv, g, rt.familyID, plan);
      Step(s, run, at, a, srv.View(), g, plan);
      return r, run + [a];
    }
    ClaimStillMatches(at, g);
    var claim;
    claim, a := ClaimToken(srv, g, id.value, rt.familyID, rt.userID, plan);
    Step(s, run, at, a, srv.View(), g, plan);
    run := run + [a];
    if claim.Broken? {
      EndFailed(srv.grants[g], StoreFailed);
      return Err(StoreFailed), run;
    }
    at := srv.View();
    others := srv.Yield(g);
    Others(s, run, at, others, srv.View(), g, plan);
    run := run + others;

    at := srv.View();
    if claim.Lost? {
      r, a := RevokeOnReuse(srv, g, rt.familyID, plan);
    } else {
      r, a := IssueTokensInFamily(srv, g, rt.userID, rt.familyID, plan, FromToken(id.value));
    }
    Step(s, run, at, a, srv.View(), g, plan);
    run := run + [a];
    if r.Ok? {
      Rotated(s, run, srv.View(), g, plan, r);
    }
  }

  /** GetByHash on the code store and the checks after it. */
  method ReadCode(srv: Server, ghost g: Id, codeHash: string, clientID: string, redirectURI: string, plan: Plan)
      returns (id: Option<Id>, userID: string, e: Error, ghost a: Action)
    requires g in srv.grants && srv.grants[g] == Redeeming(codeHash, clientID, redirectURI)
    modifies srv`grants
    ensures Prescribed(old(srv.View()), g, a, plan) && Apply(old(srv.View()), a) == Some(srv.View())
    ensures g in srv.grants && (id.None? ==> e != StoreFailed)
    ensures srv.grants[g] == if id.Some? then Consuming(id.value, userID) else Failed(e)
  {
    userID, e := "", InvalidGrant;
    id := None;
    if !plan.lookupFails {
      id := srv.GetCodeByHash(codeHash);
    }
    a := LookupCode(g, id, plan.readAt, plan.verifierOk);
    if id.None? {
      srv.grants := srv.grants[g := Failed(e)];
      return;
    }
    var ac := srv.codes[id.value];
    if ac.consumedAt.Some? {
      id := None;
    } else if plan.readAt > ac.expiresAt {
      id, e := None, ExpiredToken;
    } else if ac.clientID != clientID {
      id, e := None, InvalidClient;
    } else if ac.pkce && !plan.verifierOk {
      id, e := None, InvalidPKCE;
    } else if ac.redirectURI != redirectURI {
      id, e := None, InvalidRedirectURI;
    } else {
      userID := ac.userID;
    }
    srv.grants := srv.grants[g := if id.Some? then Consuming(id.value, userID) else Failed(e)];
  }

  /** Consume, the linearization point of a redemption; the new family is fresh. */
  method ConsumeCode(srv: Server, ghost g: Id, id: Id, ghost userID: string, plan: Plan, family: Id)
      returns (claim: Claimed, ghost a: Action)
    requires g in srv.grants && srv.grants[g] == Consuming(id, userID) && id in srv.codes && family !in srv.families
    modifies srv
    ensures Prescribed(old(srv.View()), g, a, plan) && Apply(old(srv.View()), a) == Some(srv.View())
    ensures claim.Broken? <==> plan.claimFails
    ensures g in srv.grants
    ensures srv.grants[g] == if claim.Won? then Issuing(family, userID, FromCode(id))
                             else if claim.Lost? then Failed(InvalidGrant) else Failed(StoreFailed)
  {
    if plan.claimFails {
      srv.grants := srv.grants[g := Failed(StoreFailed)];
      return Broken, Abort(g);
    }
    var first := srv.Consume(id, plan.claimAt);
    if first {
      srv.families := srv.families + {family};
    }
    srv.grants := srv.grants[g := if first then Issuing(family, userID, FromCode(id)) else Failed(InvalidGrant)];
    return if first then Won else Lost, OAuth.Consume(g, plan.claimAt, family);
  }

  /** AuthCodeGrant: like the refresh grant, every execution is a run of the protocol with exactly the
      prescribed steps. */
  method AuthCodeGrant(srv: Server, ghost g: Id, codeHash: string, redirectURI: string, clientID: string, plan: Plan)
      returns (r: Result<Id, Error>, ghost run: seq<Action>)
    requires Inv(srv.View()) && g !in srv.grants && plan.start == Redeeming(codeHash, clientID, redirectURI)
    modifies srv
    ensures Exec(old(srv.View()), run) == Some(srv.View()) && Inv(srv.View())
    ensures Follows(old(srv.View()), run, g, plan)
    ensures g in srv.grants && EndsAs(srv.grants[g], r)
    ensures r == Err(StoreFailed) ==> plan.claimFails || plan.issueFails
    ensures r.Ok? ==> exists c :: RedeemedFor(srv.View(), c, r.value, plan)
  {
    hide Apply, Exec, EndsAs, Follows, Prescribed, Inv, RotatedFor, RedeemedFor;
    ghost var s := srv.View();
    ghost var a: Action;
    ghost var others: seq<Action>;
    srv.grants := srv.grants[g := plan.start];
    run := BeginRun(s, g, plan, srv.View());
    ghost var at := srv.View();
    others := srv.Yield(g);
    Others(s, run, at, others, srv.View(), g, plan);
    run := run + others;

    at := srv.View();
    var id, userID, e;
    id, userID, e, a := ReadCode(srv, g, codeHash, clientID, redirectURI, plan);
    Step(s, run, at, a, srv.View(), g, plan);
    run := run + [a];
    if id.None? {
      EndFailed(srv.grants[g], e);
      return Err(e), run;
    }
    at := srv.View();
    others := srv.Yield(g);
    Others(s, run, at, others, srv.View(), g, plan);
    run := run + others;

    at := srv.View();
    ClaimStillMatches(at, g);
    var family := srv.NewFamilyID();
    var claim;
    claim, a := ConsumeCode(srv, g, id.value, userID, plan, family);
    Step(s, run, at, a, srv.View(), g, plan);
    run := run + [a];
    if !claim.Won? {
      e := if claim.Lost? then InvalidGrant else StoreFailed;
      EndFailed(srv.grants[g], e);
      return Err(e), run;
    }
    at := srv.View();
    others := srv.Yield(g);
    Others(s, run, at, others, srv.View(), g, plan);
    run := run + others;

    at := srv.View();
    r, a := IssueTokensInFamily(srv, g, userID, family, plan, FromCode(id.value));
    Step(s, run, at, a, srv.View(), g, plan);
    run := run + [a];
    if r.Ok? {
      Redeemed(s, run, srv.View(), g, plan, r);
    }
  }

  lemma Rotated(s: State, run: seq<Action>, now: State, g: Id, plan: Plan, r: Result<Id, Error>)
    requires g !in s.grants && Progress(s, run, now, g, plan) && plan.start.Refreshing?
    requires g in now.grants && r.Ok? && EndsAs(now.grants[g], r)
    ensures exists t :: RotatedFor(now, t, r.value, plan)
  {
    hide Apply, Exec, Follows, Inv, RotatedFor;
    RotationEntitled(s, run, now, g, plan);
  }

  lemma Redeemed(s: State, run: seq<Action>, now: State, g: Id, plan: Plan, r: Result<Id, Error>)
    requires g !in s.grants && Progress(s, run, now, g, plan) && plan.start.Redeeming?
    requires g in now.grants && r.Ok? && EndsAs(now.grants[g], r)
    ensures exists c :: RedeemedFor(now, c, r.value, plan)
  {
    hide Apply, Exec, Follows, Inv, RedeemedFor;
    RedemptionEntitled(s, run, now, g, plan);
  }

  lemma EndFailed(g: Grant, e: Error)
    requires g == Failed(e)
    ensures EndsAs(g, Err(e))
  {
  }

  lemma ClaimStillMatches(s: State, g: Id)
    requires Inv(s) && g in s.grants
    ensures s.grants[g].Claiming? ==> s.grants[g].token in s.tokens
    ensures s.grants[g].Consuming? ==> s.grants[g].code in s.codes
  {
  }
}
