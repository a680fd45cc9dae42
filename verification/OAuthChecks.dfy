/** What a grant was checked for before it may issue: read off the actions of the run, for every
    interleaving of grants. */
module OAuthChecks {
  import opened Basics
  import opened OAuth
  import opened OAuthPlan

  type Run = seq<Action>

  // ---------------------------------------------------------------- what a grant holds

  /** The code a grant goes by, once it has read one. */
  function CodeOf(gr: Grant): Option<Id> {
    match gr
    case Consuming(c, _) => Some(c)
    case Issuing(_, _, FromCode(c)) => Some(c)
    case Issued(_, FromCode(c)) => Some(c)
    case _ => None
  }

  /** The refresh token a grant goes by, once it has read one. */
  function TokenOf(gr: Grant): Option<Id> {
    match gr
    case Claiming(t, _, _) => Some(t)
    case Issuing(_, _, FromToken(t)) => Some(t)
    case Issued(_, FromToken(t)) => Some(t)
    case _ => None
  }

  /** Whom a grant acts for: once it has issued, the user of the token it issued. */
  function UserOf(s: State, gr: Grant): Option<string> {
    match gr
    case Claiming(_, _, u) => Some(u)
    case Consuming(_, u) => Some(u)
    case Issuing(_, u, _) => Some(u)
    case Issued(t, _) => if t in s.tokens then Some(s.tokens[t].userID) else None
    case _ => None
  }

  /** The family a rotation acts on: once it has issued, the family of the token it issued. */
  function FamilyOf(s: State, gr: Grant): Option<Id> {
    match gr
    case Claiming(_, f, _) => Some(f)
    case Issuing(f, _, _) => Some(f)
    case Issued(t, _) => if t in s.tokens then Some(s.tokens[t].familyID) else None
    case _ => None
  }

  // ---------------------------------------------------------------- records keep their fields

  /** Codes stay and change in nothing but consumption. */
  ghost predicate CodesStay(s: State, s': State) {
    forall c :: c in s.codes ==> c in s'.codes && s'.codes[c].(consumedAt := s.codes[c].consumedAt) == s.codes[c]
  }

  /** Tokens stay and change in nothing but revocation. */
  ghost predicate TokensStay(s: State, s': State) {
    forall t :: t in s.tokens ==> t in s'.tokens && s'.tokens[t].(revokedAt := s.tokens[t].revokedAt) == s.tokens[t]
  }

  lemma StepKeepsCodes(s: State, a: Action, s': State)
    requires Apply(s, a) == Some(s')
    ensures CodesStay(s, s')
  {
  }

  lemma StepKeepsTokens(s: State, a: Action, s': State)
    requires Apply(s, a) == Some(s')
    ensures TokensStay(s, s')
  {
  }

  /** Over whole runs: no record is deleted, and none changes but by being consumed or revoked. */
  lemma {:induction false} RunKeepsRecords(s: State, run: Run, s': State)
    requires Exec(s, run) == Some(s')
    ensures CodesStay(s, s') && TokensStay(s, s')
  {
    hide Apply;
    if run != [] {
      var prev := Exec(s, run[..|run| - 1]).value;
      RunKeepsRecords(s, run[..|run| - 1], prev);
      StepKeepsCodes(prev, run[|run| - 1], s');
      StepKeepsTokens(prev, run[|run| - 1], s');
    }
  }

  // ---------------------------------------------------------------- every grant was begun

  /** A grant that has read nothing yet holds what it was begun with. */
  lemma {:induction false} Begun(s0: State, run: Run, s: State, g: Id) returns (i: nat)
    requires g !in s0.grants && Exec(s0, run) == Some(s) && g in s.grants && (s.grants[g].Redeeming? || s.grants[g].Refreshing?)
    ensures i < |run| && run[i] == Begin(g, s.grants[g])
  {
    var n := |run| - 1;
    var prev := Exec(s0, run[..n]).value;
    if run[n].Begin? && run[n].g == g {
      i := n;
    } else {
      i := Begun(s0, run[..n], prev, g);
    }
  }

  // ---------------------------------------------------------------- codes

  /** A step after which a grant goes by a code: it is the grant's passing lookup of that code, or
      the grant went by it before, for the same user. */
  lemma CodeStep(s: State, a: Action, s': State, g: Id)
    requires Apply(s, a) == Some(s') && g in s'.grants && CodeOf(s'.grants[g]).Some?
    ensures var c := CodeOf(s'.grants[g]).value;
            if a.LookupCode? && a.g == g
            then && g in s.grants && s.grants[g].Redeeming? && a.found == Some(c) && c in s.codes
                 && s.codes[c].codeHash == s.grants[g].presented
                 && s.codes[c].clientID == s.grants[g].clientID
                 && s.codes[c].redirectURI == s.grants[g].redirectURI
                 && s.codes[c].consumedAt.None?
                 && a.now <= s.codes[c].expiresAt
                 && (s.codes[c].pkce ==> a.verifierOk)
                 && UserOf(s', s'.grants[g]) == Some(s.codes[c].userID)
            else && g in s.grants && CodeOf(s.grants[g]) == Some(c)
                 && (UserOf(s, s.grants[g]).Some? ==> UserOf(s', s'.grants[g]) == UserOf(s, s.grants[g]))
  {
  }

  /** In every run a grant takes part in from its start: if it goes by a code, it was begun with that code's hash, client and redirect URI, and a
      later lookup of its own found the code unconsumed and unexpired, with the code verifier
      matching where the code carries a challenge; it acts for the code's user, and so does the
      token it issues. */
  lemma {:induction false} CodeGrantChecked(s0: State, run: Run, s: State, g: Id) returns (i: nat, j: nat)
    requires g !in s0.grants && Exec(s0, run) == Some(s) && g in s.grants && CodeOf(s.grants[g]).Some?
    ensures i < j < |run|
    ensures run[i].Begin? && run[i].g == g && run[i].start.Redeeming?
    ensures run[j].LookupCode? && run[j].g == g && run[j].found == CodeOf(s.grants[g])
    ensures CodeOf(s.grants[g]).value in s.codes
    ensures var code := s.codes[CodeOf(s.grants[g]).value];
            && code.codeHash == run[i].start.presented
            && code.clientID == run[i].start.clientID
            && code.redirectURI == run[i].start.redirectURI
            && run[j].now <= code.expiresAt
            && (code.pkce ==> run[j].verifierOk)
            && UserOf(s, s.grants[g]) == Some(code.userID)
    ensures Exec(s0, run[..j]).Some?
    ensures var before := Exec(s0, run[..j]).value.codes;
            CodeOf(s.grants[g]).value in before && before[CodeOf(s.grants[g]).value].consumedAt.None?
  {
    hide Apply, UserOf;
    var n := |run| - 1;
    var prev := Exec(s0, run[..n]).value;
    CodeStep(prev, run[n], s, g);
    StepKeepsCodes(prev, run[n], s);
    if run[n].LookupCode? && run[n].g == g {
      i := Begun(s0, run[..n], prev, g);
      j := n;
    } else {
      i, j := CodeGrantChecked(s0, run[..n], prev, g);
      assert run[..n][..j] == run[..j];
    }
  }

  // ---------------------------------------------------------------- refresh tokens

  lemma TokenStep(s: State, a: Action, s': State, g: Id)
    requires Apply(s, a) == Some(s') && g in s'.grants && TokenOf(s'.grants[g]).Some?
    ensures var t := TokenOf(s'.grants[g]).value;
            if a.Lookup? && a.g == g
            then && g in s.grants && s.grants[g].Refreshing? && a.found == Some(t) && t in s.tokens
                 && s.tokens[t].tokenHash == s.grants[g].presented
                 && s.tokens[t].revokedAt.None?
                 && a.now <= s.tokens[t].expiresAt
                 && UserOf(s', s'.grants[g]) == Some(s.tokens[t].userID)
                 && FamilyOf(s', s'.grants[g]) == Some(s.tokens[t].familyID)
            else && g in s.grants && TokenOf(s.grants[g]) == Some(t)
                 && (UserOf(s, s.grants[g]).Some? ==> UserOf(s', s'.grants[g]) == UserOf(s, s.grants[g]))
                 && (FamilyOf(s, s.grants[g]).Some? ==> FamilyOf(s', s'.grants[g]) == FamilyOf(s, s.grants[g]))
  {
  }

  /** In every run a grant takes part in from its start: if it goes by a refresh token, it was begun with that token's hash, and a later lookup of
      its own found the token unrevoked and unexpired; it acts for the token's user and family,
      and so does the token it issues. */
  lemma {:induction false} TokenGrantChecked(s0: State, run: Run, s: State, g: Id) returns (i: nat, j: nat)
    requires g !in s0.grants && Exec(s0, run) == Some(s) && g in s.grants && TokenOf(s.grants[g]).Some?
    ensures i < j < |run|
    ensures run[i].Begin? && run[i].g == g && run[i].start.Refreshing?
    ensures run[j].Lookup? && run[j].g == g && run[j].found == TokenOf(s.grants[g])
    ensures TokenOf(s.grants[g]).value in s.tokens
    ensures var token := s.tokens[TokenOf(s.grants[g]).value];
            && token.tokenHash == run[i].start.presented
            && run[j].now <= token.expiresAt
            && UserOf(s, s.grants[g]) == Some(token.userID)
            && FamilyOf(s, s.grants[g]) == Some(token.familyID)
    ensures Exec(s0, run[..j]).Some?
    ensures var before := Exec(s0, run[..j]).value.tokens;
            TokenOf(s.grants[g]).value in before && before[TokenOf(s.grants[g]).value].revokedAt.None?
  {
    hide Apply, UserOf, FamilyOf;
    var n := |run| - 1;
    var prev := Exec(s0, run[..n]).value;
    TokenStep(prev, run[n], s, g);
    StepKeepsTokens(prev, run[n], s);
    if run[n].Lookup? && run[n].g == g {
      i := Begun(s0, run[..n], prev, g);
      j := n;
    } else {
      i, j := TokenGrantChecked(s0, run[..n], prev, g);
      assert run[..n][..j] == run[..j];
    }
  }

  // ---------------------------------------------------------------- grants end once

  lemma StepKeepsEnded(s: State, a: Action, s': State, g: Id)
    requires Apply(s, a) == Some(s') && g in s.grants && (s.grants[g].Issued? || s.grants[g].Failed?)
    ensures g in s'.grants && s'.grants[g] == s.grants[g]
  {
  }

  /** Over whole runs: a grant that has issued or failed never does anything again. */
  lemma {:induction false} EndedForever(s: State, run: Run, s': State, g: Id)
    requires Exec(s, run) == Some(s') && g in s.grants && (s.grants[g].Issued? || s.grants[g].Failed?)
    ensures g in s'.grants && s'.grants[g] == s.grants[g]
  {
    hide Apply;
    if run != [] {
      var prev := Exec(s, run[..|run| - 1]).value;
      EndedForever(s, run[..|run| - 1], prev, g);
      StepKeepsEnded(prev, run[|run| - 1], s', g);
    }
  }

  // ---------------------------------------------------------------- what a plan allows

  /** An action of grant g as the caller's plan has it: its own clock readings and values, no store
      call that fails, and giving up only where one does. */
  predicate Planned(a: Action, plan: Plan) {
    match a
    case Begin(_, start) => start == plan.start
    case Lookup(_, found, now) => now == plan.readAt && (plan.lookupFails ==> found.None?)
    case LookupCode(_, found, now, ok) => now == plan.readAt && ok == plan.verifierOk && (plan.lookupFails ==> found.None?)
    case Claim(_, now) => now == plan.claimAt && !plan.claimFails
    case Consume(_, now, _) => now == plan.claimAt && !plan.claimFails
    case Punish(_, now) => now == plan.punishAt && !plan.punishFails
    case Issue(_, _, hash, expiresAt) => hash == plan.newHash && expiresAt == plan.expiresAt && !plan.issueFails
    case Abort(_) => plan.claimFails || plan.punishFails || plan.issueFails
    case _ => false
  }

  lemma PrescribedIsPlanned(s: State, g: Id, a: Action, s': State, plan: Plan)
    requires Prescribed(s, g, a, plan) && Apply(s, a) == Some(s') && Actor(a) == Some(g)
    ensures Planned(a, plan)
  {
  }

  /** Every action a grant takes in a run that follows its plan is the plan's. */
  lemma {:induction false} FollowsPlanned(s: State, run: Run, g: Id, plan: Plan, i: nat)
    requires Follows(s, run, g, plan) && Exec(s, run).Some? && i < |run| && Actor(run[i]) == Some(g)
    ensures Planned(run[i], plan)
    decreases |run|
  {
    hide Apply, Prescribed, Planned;
    var n := |run| - 1;
    if i == n {
      PrescribedIsPlanned(Exec(s, run[..n]).value, g, run[n], Exec(s, run).value, plan);
    } else {
      FollowsPlanned(s, run[..n], g, plan, i);
    }
  }

  ghost predicate NoToken(s: State, hash: string) { forall t :: t in s.tokens ==> s.tokens[t].tokenHash != hash }

  ghost predicate NoCode(s: State, hash: string) { forall c :: c in s.codes ==> s.codes[c].codeHash != hash }

  /** What a lookup may answer: nothing only when the store fails or holds no record of that hash. */
  lemma {:induction false} FollowsLookup(s: State, run: Run, g: Id, plan: Plan, i: nat)
    requires g !in s.grants && Follows(s, run, g, plan) && Exec(s, run).Some? && i < |run| && Actor(run[i]) == Some(g)
    ensures Exec(s, run[..i]).Some?
    ensures var now := Exec(s, run[..i]).value;
            && (run[i].Lookup? ==>
                  && plan.start.Refreshing?
                  && (run[i].found.None? <==> plan.lookupFails || NoToken(now, plan.start.presented)))
            && (run[i].LookupCode? ==>
                  && plan.start.Redeeming?
                  && (run[i].found.None? <==> plan.lookupFails || NoCode(now, plan.start.presented)))
    decreases |run|
  {
    hide Apply, Prescribed, Planned;
    var n := |run| - 1;
    if i == n {
      var prev := Exec(s, run[..n]).value;
      if run[n].Lookup? || run[n].LookupCode? {
        LookupState(prev, g, run[n], Exec(s, run).value);
        var k := Begun(s, run[..n], prev, g);
        FollowsPlanned(s, run, g, plan, k);
        BeginsAsPlanned(run[k], plan);
        PrescribedLookup(prev, g, run[n], plan);
      }
    } else {
      FollowsLookup(s, run[..n], g, plan, i);
      assert run[..n][..i] == run[..i];
    }
  }

  lemma LookupState(s: State, g: Id, a: Action, s': State)
    requires Apply(s, a) == Some(s') && Actor(a) == Some(g) && (a.Lookup? || a.LookupCode?)
    ensures g in s.grants && (a.Lookup? ==> s.grants[g].Refreshing?) && (a.LookupCode? ==> s.grants[g].Redeeming?)
  {
  }

  lemma PrescribedLookup(s: State, g: Id, a: Action, plan: Plan)
    requires g in s.grants && Prescribed(s, g, a, plan)
    ensures a.Lookup? && s.grants[g].Refreshing? ==>
              (a.found.None? <==> plan.lookupFails || NoToken(s, s.grants[g].presented))
    ensures a.LookupCode? && s.grants[g].Redeeming? ==>
              (a.found.None? <==> plan.lookupFails || NoCode(s, s.grants[g].presented))
  {
  }

  // ---------------------------------------------------------------- nothing is spent by itself

  lemma ConsumedStep(s: State, a: Action, s': State, c: Id)
    requires Apply(s, a) == Some(s') && c in s'.codes && s'.codes[c].consumedAt.Some?
    ensures || (c in s.codes && s.codes[c] == s'.codes[c])
            || (a.Consume? && a.g in s.grants && CodeOf(s.grants[a.g]) == Some(c) && s'.codes[c].consumedAt == Some(a.now))
  {
  }

  lemma RevokedStep(s: State, a: Action, s': State, t: Id)
    requires Apply(s, a) == Some(s') && t in s'.tokens && s'.tokens[t].revokedAt.Some?
    ensures || (t in s.tokens && s.tokens[t] == s'.tokens[t])
            || (a.Claim? && a.g in s.grants && TokenOf(s.grants[a.g]) == Some(t) && s'.tokens[t].revokedAt == Some(a.now))
            || (&& a.Punish? && a.g in s.grants && s.grants[a.g] == Punishing(s'.tokens[t].familyID)
                && s'.tokens[t].revokedAt == Some(a.now))
  {
  }

  /** In every run from the empty store, a consumed code was consumed by a grant that went by it. */
  lemma {:induction false} ConsumedByGrant(run: Run, s: State, c: Id) returns (i: nat)
    requires Exec(INIT, run) == Some(s) && c in s.codes && s.codes[c].consumedAt.Some?
    ensures i < |run| && run[i].Consume? && s.codes[c].consumedAt == Some(run[i].now)
    ensures Exec(INIT, run[..i]).Some?
    ensures var before := Exec(INIT, run[..i]).value;
            run[i].g in before.grants && CodeOf(before.grants[run[i].g]) == Some(c)
  {
    hide Apply;
    var n := |run| - 1;
    var prev := Exec(INIT, run[..n]).value;
    ConsumedStep(prev, run[n], s, c);
    if c in prev.codes && prev.codes[c] == s.codes[c] {
      i := ConsumedByGrant(run[..n], prev, c);
      assert run[..n][..i] == run[..i];
    } else {
      i := n;
    }
  }

  /** In every run from the empty store, a revoked token was claimed by the grant that rotated it, or
      fell with its family on reuse. */
  lemma {:induction false} RevokedByGrant(run: Run, s: State, t: Id) returns (i: nat)
    requires Exec(INIT, run) == Some(s) && t in s.tokens && s.tokens[t].revokedAt.Some?
    ensures i < |run| && (run[i].Claim? || run[i].Punish?) && s.tokens[t].revokedAt == Some(run[i].now)
    ensures Exec(INIT, run[..i]).Some?
    ensures var before := Exec(INIT, run[..i]).value;
            && run[i].g in before.grants
            && (run[i].Claim? ==> TokenOf(before.grants[run[i].g]) == Some(t))
            && (run[i].Punish? ==> before.grants[run[i].g] == Punishing(s.tokens[t].familyID))
  {
    hide Apply;
    var n := |run| - 1;
    var prev := Exec(INIT, run[..n]).value;
    RevokedStep(prev, run[n], s, t);
    if t in prev.tokens && prev.tokens[t] == s.tokens[t] {
      i := RevokedByGrant(run[..n], prev, t);
      assert run[..n][..i] == run[..i];
    } else {
      i := n;
    }
  }

  // ---------------------------------------------------------------- what a finished grant shows

  /** A grant begun with a code never comes to go by anything else. */
  predicate ByCode(gr: Grant) { gr.Redeeming? || gr.Failed? || CodeOf(gr).Some? }

  predicate ByToken(gr: Grant) { gr.Refreshing? || gr.Punishing? || gr.Failed? || TokenOf(gr).Some? }

  lemma StepKeepsSide(s: State, a: Action, s': State, g: Id)
    requires Apply(s, a) == Some(s') && g in s.grants
    ensures g in s'.grants
    ensures ByCode(s.grants[g]) ==> ByCode(s'.grants[g])
    ensures ByToken(s.grants[g]) ==> ByToken(s'.grants[g])
  {
  }

  lemma StepBegins(s: State, g: Id, a: Action, s': State)
    requires Apply(s, a) == Some(s') && g !in s.grants && g in s'.grants
    ensures a == Begin(g, s'.grants[g])
  {
  }

  lemma {:induction false} SideOf(s0: State, run: Run, s: State, g: Id, plan: Plan)
    requires g !in s0.grants && Exec(s0, run) == Some(s) && Follows(s0, run, g, plan) && g in s.grants
    ensures plan.start.Redeeming? ==> ByCode(s.grants[g])
    ensures plan.start.Refreshing? ==> ByToken(s.grants[g])
  {
    hide Apply, Prescribed, Planned;
    var n := |run| - 1;
    var prev := Exec(s0, run[..n]).value;
    if g in prev.grants {
      SideOf(s0, run[..n], prev, g, plan);
      StepKeepsSide(prev, run[n], s, g);
    } else {
      StepBegins(prev, g, run[n], s);
      FollowsPlanned(s0, run, g, plan, n);
      BeginsAsPlanned(run[n], plan);
    }
  }

  lemma BeginsAsPlanned(a: Action, plan: Plan)
    requires a.Begin? && Planned(a, plan)
    ensures a.start == plan.start
  {
  }

  /** The token a grant issued is the one its plan describes, stored once and only revoked since. */
  lemma {:induction false} IssuedAsPlanned(s0: State, run: Run, s: State, g: Id, plan: Plan)
    requires g !in s0.grants && Exec(s0, run) == Some(s) && Follows(s0, run, g, plan) && g in s.grants && s.grants[g].Issued?
    ensures s.grants[g].token in s.tokens
    ensures s.tokens[s.grants[g].token].tokenHash == plan.newHash && s.tokens[s.grants[g].token].expiresAt == plan.expiresAt
  {
    hide Apply, Prescribed, Planned;
    var n := |run| - 1;
    var prev := Exec(s0, run[..n]).value;
    IssueStep(prev, run[n], s, g);
    StepKeepsTokens(prev, run[n], s);
    if run[n].Issue? && run[n].g == g {
      FollowsPlanned(s0, run, g, plan, n);
      IssuesAsPlanned(run[n], plan);
    } else {
      IssuedAsPlanned(s0, run[..n], prev, g, plan);
    }
  }

  lemma IssuesAsPlanned(a: Action, plan: Plan)
    requires a.Issue? && Planned(a, plan)
    ensures a.tokenHash == plan.newHash && a.expiresAt == plan.expiresAt
  {
  }

  lemma IssueStep(s: State, a: Action, s': State, g: Id)
    requires Apply(s, a) == Some(s') && g in s'.grants && s'.grants[g].Issued?
    ensures if a.Issue? && a.g == g
            then && s'.grants[g].token == a.token && a.token in s'.tokens
                 && s'.tokens[a.token].tokenHash == a.tokenHash && s'.tokens[a.token].expiresAt == a.expiresAt
            else g in s.grants && s.grants[g] == s'.grants[g]
  {
  }

  /** The new token is the planned one, for the given user. */
  ghost predicate NewToken(s: State, token: Id, user: string, plan: Plan) {
    && token in s.tokens && s.tokens[token].userID == user
    && s.tokens[token].tokenHash == plan.newHash && s.tokens[token].expiresAt == plan.expiresAt
  }

  /** Code c entitled the plan's caller to the token: it was the presented one, of that client and
      redirect URI, unexpired when read, with its challenge met; it is consumed, and the token is its user's. */
  ghost predicate RedeemedFor(s: State, c: Id, token: Id, plan: Plan) {
    && plan.start.Redeeming? && c in s.codes && s.codes[c].consumedAt.Some?
    && s.codes[c].codeHash == plan.start.presented && s.codes[c].clientID == plan.start.clientID
    && s.codes[c].redirectURI == plan.start.redirectURI && plan.readAt <= s.codes[c].expiresAt
    && (s.codes[c].pkce ==> plan.verifierOk)
    && NewToken(s, token, s.codes[c].userID, plan)
  }

  /** Token t entitled the plan's caller to the new one: it was the presented one, unexpired when read; it
      is revoked, and the new one has its user and family. */
  ghost predicate RotatedFor(s: State, t: Id, token: Id, plan: Plan) {
    && plan.start.Refreshing? && t in s.tokens && s.tokens[t].revokedAt.Some?
    && s.tokens[t].tokenHash == plan.start.presented && plan.readAt <= s.tokens[t].expiresAt
    && NewToken(s, token, s.tokens[t].userID, plan) && s.tokens[token].familyID == s.tokens[t].familyID
  }

  /** A redemption that follows its plan and issues was entitled to. */
  lemma RedemptionEntitled(s0: State, run: Run, s: State, g: Id, plan: Plan)
    requires g !in s0.grants && Exec(s0, run) == Some(s) && Follows(s0, run, g, plan) && Inv(s)
    requires g in s.grants && s.grants[g].Issued? && plan.start.Redeeming?
    ensures exists c :: RedeemedFor(s, c, s.grants[g].token, plan)
  {
    hide Apply, Exec, Prescribed, Follows, Inv;
    SideOf(s0, run, s, g, plan);
    var i, j := CodeGrantChecked(s0, run, s, g);
    FollowsPlanned(s0, run, g, plan, i);
    FollowsPlanned(s0, run, g, plan, j);
    IssuedAsPlanned(s0, run, s, g, plan);
    HolderSpent(s, g);
    assert RedeemedFor(s, CodeOf(s.grants[g]).value, s.grants[g].token, plan);
  }

  lemma HolderSpent(s: State, g: Id)
    requires Inv(s) && g in s.grants && s.grants[g].Issued? && s.grants[g].origin != FromPassword
    ensures Spent(s, s.grants[g].origin)
  {
    assert g in Holders(s, s.grants[g].origin);
  }

  /** A rotation that follows its plan and issues was entitled to. */
  lemma RotationEntitled(s0: State, run: Run, s: State, g: Id, plan: Plan)
    requires g !in s0.grants && Exec(s0, run) == Some(s) && Follows(s0, run, g, plan) && Inv(s)
    requires g in s.grants && s.grants[g].Issued? && plan.start.Refreshing?
    ensures exists t :: RotatedFor(s, t, s.grants[g].token, plan)
  {
    hide Apply, Exec, Prescribed, Follows, Inv;
    SideOf(s0, run, s, g, plan);
    var i, j := TokenGrantChecked(s0, run, s, g);
    FollowsPlanned(s0, run, g, plan, i);
    FollowsPlanned(s0, run, g, plan, j);
    IssuedAsPlanned(s0, run, s, g, plan);
    HolderSpent(s, g);
    assert RotatedFor(s, TokenOf(s.grants[g]).value, s.grants[g].token, plan);
  }

  // ---------------------------------------------------------------- one grant from start to end

  lemma ExecTwo(s: State, a: Action, b: Action)
    requires Apply(s, a).Some?
    ensures Exec(s, [a, b]) == Apply(Apply(s, a).value, b)
  {
    hide Apply;
    assert [a, b][..1] == [a] && [a][..0] == [];
    assert Exec(s, [a]) == Apply(s, a);
  }

  lemma ExecThree(s: State, a: Action, b: Action, c: Action)
    requires Apply(s, a).Some?
    ensures Exec(s, [a, b, c]) ==
            var s2 := Apply(Apply(s, a).value, b); if s2.None? then None else Apply(s2.value, c)
  {
    hide Apply;
    ExecTwo(s, a, b);
    assert [a, b, c][..2] == [a, b];
  }

  /** What a code must be for a grant to pass its checks. */
  ghost predicate Redeemable(s: State, start: Grant, c: Id, now: Time, ok: bool)
    requires start.Redeeming?
  {
    && c in s.codes && s.codes[c].codeHash == start.presented && s.codes[c].consumedAt == None
    && now <= s.codes[c].expiresAt && s.codes[c].clientID == start.clientID
    && s.codes[c].redirectURI == start.redirectURI && (s.codes[c].pkce ==> ok)
  }

  lemma CodeLookupRuns(s: State, g: Id, start: Grant, c: Id, now: Time, ok: bool)
    requires g !in s.grants && start.Redeeming?
    ensures var end := Exec(s, [Begin(g, start), LookupCode(g, Some(c), now, ok)]);
            if Redeemable(s, start, c, now, ok)
            then end == Some(s.(grants := s.grants[g := Consuming(c, s.codes[c].userID)]))
            else end.Some? ==> g in end.value.grants && end.value.grants[g].Failed?
  {
    var a, b := Begin(g, start), LookupCode(g, Some(c), now, ok);
    ExecTwo(s, a, b);
    if Redeemable(s, start, c, now, ok) {
      assert s.grants[g := start][g := Consuming(c, s.codes[c].userID)] == s.grants[g := Consuming(c, s.codes[c].userID)];
    }
  }

  lemma RedeemRuns(s: State, g: Id, c: Id, user: string, now: Time, family: Id, token: Id, hash: string, expiresAt: Time)
    requires g in s.grants && s.grants[g] == Consuming(c, user) && c in s.codes && s.codes[c].consumedAt == None
    requires family !in s.families && token !in s.tokens
    ensures Exec(s, [Consume(g, now, family), Issue(g, token, hash, expiresAt)]) ==
            Some(State(s.tokens[token := RefreshToken(user, family, hash, expiresAt, None)],
                       s.codes[c := s.codes[c].(consumedAt := Some(now))],
                       s.grants[g := Issued(token, FromCode(c))], s.families + {family}))
  {
    ExecTwo(s, Consume(g, now, family), Issue(g, token, hash, expiresAt));
    assert s.grants[g := Issuing(family, user, FromCode(c))][g := Issued(token, FromCode(c))]
        == s.grants[g := Issued(token, FromCode(c))];
  }

  lemma ExecTwice(s: State, a: Action, b: Action, c: Action, d: Action)
    ensures Exec(s, [a, b, c, d]) ==
            var mid := Exec(s, [a, b]); if mid.None? then None else Exec(mid.value, [c, d])
  {
    hide Apply;
    assert [a, b, c, d][..3] == [a, b, c] && [a, b, c][..2] == [a, b];
    assert [c, d][..1] == [c] && [c][..0] == [];
    var mid := Exec(s, [a, b]);
    if mid.Some? {
      assert Exec(mid.value, [c]) == Apply(mid.value, c);
      assert Exec(s, [a, b, c]) == Apply(mid.value, c);
    }
  }

  /** A code grant that nothing interrupts goes through exactly when the code is the presented one,
      unconsumed and unexpired, for the same client and redirect URI, and its challenge is met.
      It then leaves one new unrevoked token, of the code's user and a new family, and the code
      consumed; nothing else changes. */
  lemma CodeGrantExactly(s: State, g: Id, start: Grant, c: Id, now: Time, ok: bool, family: Id, token: Id,
                         hash: string, expiresAt: Time)
    requires g !in s.grants && start.Redeeming? && family !in s.families && token !in s.tokens
    ensures var end := Exec(s, [Begin(g, start), LookupCode(g, Some(c), now, ok), Consume(g, now, family),
                                Issue(g, token, hash, expiresAt)]);
            if Redeemable(s, start, c, now, ok)
            then end == Some(State(s.tokens[token := RefreshToken(s.codes[c].userID, family, hash, expiresAt, None)],
                                   s.codes[c := s.codes[c].(consumedAt := Some(now))],
                                   s.grants[g := Issued(token, FromCode(c))], s.families + {family}))
            else end == None
  {
    hide Apply;
    var a, b, d, e := Begin(g, start), LookupCode(g, Some(c), now, ok), Consume(g, now, family), Issue(g, token, hash, expiresAt);
    ExecTwice(s, a, b, d, e);
    CodeLookupRuns(s, g, start, c, now, ok);
    var mid := Exec(s, [a, b]);
    if Redeemable(s, start, c, now, ok) {
      var issued := Issued(token, FromCode(c));
      RedeemRuns(mid.value, g, c, s.codes[c].userID, now, family, token, hash, expiresAt);
      assert mid.value.grants[g := issued] == s.grants[g := issued];
    } else if mid.Some? {
      NothingToConsume(mid.value, g, now, family, e);
    }
  }

  lemma NothingToConsume(s: State, g: Id, now: Time, family: Id, a: Action)
    requires g in s.grants && s.grants[g].Failed?
    ensures Exec(s, [Consume(g, now, family), a]) == None
  {
    var c := Consume(g, now, family);
    assert [c, a][..1] == [c] && [c][..0] == [];
    assert Exec(s, [c]) == None;
  }

  /** Which error a code lookup answers, in the order of the checks. */
  lemma CodeRefusedExactly(s: State, g: Id, c: Id, now: Time, ok: bool)
    requires g in s.grants && s.grants[g].Redeeming? && c in s.codes && s.codes[c].codeHash == s.grants[g].presented
    ensures var (end, code, start) := (Apply(s, LookupCode(g, Some(c), now, ok)), s.codes[c], s.grants[g]);
            var live := code.consumedAt == None && now <= code.expiresAt;
            && end.Some? && end.value == s.(grants := end.value.grants) && g in end.value.grants
            && end.value.grants == s.grants[g := end.value.grants[g]]
            && (end.value.grants[g] == Failed(InvalidGrant) <==> code.consumedAt != None)
            && (end.value.grants[g] == Failed(ExpiredToken) <==> code.consumedAt == None && now > code.expiresAt)
            && (end.value.grants[g] == Failed(InvalidClient) <==> live && code.clientID != start.clientID)
            && (end.value.grants[g] == Failed(InvalidPKCE) <==> live && code.clientID == start.clientID && code.pkce && !ok)
            && (end.value.grants[g] == Failed(InvalidRedirectURI) <==>
                  && live && code.clientID == start.clientID && (code.pkce ==> ok)
                  && code.redirectURI != start.redirectURI)
  {
  }

  /** What a refresh token must be for a rotation to pass its checks. */
  ghost predicate Rotatable(s: State, start: Grant, t: Id, now: Time)
    requires start.Refreshing?
  {
    t in s.tokens && s.tokens[t].tokenHash == start.presented && s.tokens[t].revokedAt == None && now <= s.tokens[t].expiresAt
  }

  lemma LookupRuns(s: State, g: Id, start: Grant, t: Id, now: Time)
    requires g !in s.grants && start.Refreshing?
    ensures var end := Exec(s, [Begin(g, start), Lookup(g, Some(t), now)]);
            if Rotatable(s, start, t, now)
            then end == Some(s.(grants := s.grants[g := Claiming(t, s.tokens[t].familyID, s.tokens[t].userID)]))
            else end.Some? ==> g in end.value.grants && (end.value.grants[g].Failed? || end.value.grants[g].Punishing?)
  {
    ExecTwo(s, Begin(g, start), Lookup(g, Some(t), now));
    if Rotatable(s, start, t, now) {
      var claiming := Claiming(t, s.tokens[t].familyID, s.tokens[t].userID);
      assert s.grants[g := start][g := claiming] == s.grants[g := claiming];
    }
  }

  lemma RotateRuns(s: State, g: Id, t: Id, f: Id, user: string, now: Time, token: Id, hash: string, expiresAt: Time)
    requires g in s.grants && s.grants[g] == Claiming(t, f, user) && t in s.tokens && s.tokens[t].revokedAt == None
    requires token !in s.tokens
    ensures Exec(s, [Claim(g, now), Issue(g, token, hash, expiresAt)]) ==
            Some(State(s.tokens[t := s.tokens[t].(revokedAt := Some(now))][token := RefreshToken(user, f, hash, expiresAt, None)],
                       s.codes, s.grants[g := Issued(token, FromToken(t))], s.families))
  {
    ExecTwo(s, Claim(g, now), Issue(g, token, hash, expiresAt));
    assert s.grants[g := Issuing(f, user, FromToken(t))][g := Issued(token, FromToken(t))]
        == s.grants[g := Issued(token, FromToken(t))];
  }

  lemma NothingToClaim(s: State, g: Id, now: Time, a: Action)
    requires g in s.grants && !s.grants[g].Claiming?
    ensures Exec(s, [Claim(g, now), a]) == None
  {
    var c := Claim(g, now);
    assert [c, a][..1] == [c] && [c][..0] == [];
    assert Exec(s, [c]) == None;
  }

  /** A rotation that nothing interrupts goes through exactly when the token is the presented one,
      unrevoked and unexpired. It then leaves one new unrevoked token of the same user and family
      and the presented one revoked; nothing else changes. */
  lemma RefreshGrantExactly(s: State, g: Id, start: Grant, t: Id, now: Time, token: Id, hash: string, expiresAt: Time)
    requires g !in s.grants && start.Refreshing? && token !in s.tokens
    ensures var end := Exec(s, [Begin(g, start), Lookup(g, Some(t), now), Claim(g, now), Issue(g, token, hash, expiresAt)]);
            if Rotatable(s, start, t, now)
            then end == Some(State(s.tokens[t := s.tokens[t].(revokedAt := Some(now))]
                                           [token := RefreshToken(s.tokens[t].userID, s.tokens[t].familyID, hash, expiresAt, None)],
                                   s.codes, s.grants[g := Issued(token, FromToken(t))], s.families))
            else end == None
  {
    hide Apply;
    var a, b, d, e := Begin(g, start), Lookup(g, Some(t), now), Claim(g, now), Issue(g, token, hash, expiresAt);
    ExecTwice(s, a, b, d, e);
    LookupRuns(s, g, start, t, now);
    var mid := Exec(s, [a, b]);
    if Rotatable(s, start, t, now) {
      var issued := Issued(token, FromToken(t));
      RotateRuns(mid.value, g, t, s.tokens[t].familyID, s.tokens[t].userID, now, token, hash, expiresAt);
      assert mid.value.grants[g := issued] == s.grants[g := issued];
    } else if mid.Some? {
      NothingToClaim(mid.value, g, now, e);
    }
  }

  /** Reuse that nothing interrupts is punished exactly when the presented token is unexpired and
      already revoked: every unrevoked token of its family is revoked, no other token changes. */
  lemma ReusePunishedExactly(s: State, g: Id, start: Grant, t: Id, now: Time)
    requires g !in s.grants && start.Refreshing?
    ensures var end := Exec(s, [Begin(g, start), Lookup(g, Some(t), now), Punish(g, now)]);
            if t in s.tokens && s.tokens[t].tokenHash == start.presented && now <= s.tokens[t].expiresAt
               && s.tokens[t].revokedAt != None
            then && end.Some? && end.value.codes == s.codes && end.value.families == s.families
                 && end.value.grants == s.grants[g := Failed(TokenReuseDetected)]
                 && end.value.tokens.Keys == s.tokens.Keys
                 && (forall x :: x in s.tokens ==>
                       (var dies := s.tokens[x].familyID == s.tokens[t].familyID && s.tokens[x].revokedAt == None;
                        end.value.tokens[x] == if dies then s.tokens[x].(revokedAt := Some(now)) else s.tokens[x]))
            else end == None
  {
    var a, b, d := Begin(g, start), Lookup(g, Some(t), now), Punish(g, now);
    ExecThree(s, a, b, d);
    var end := Exec(s, [a, b, d]);
    if end.Some? {
      assert end.value.grants == s.grants[g := Failed(TokenReuseDetected)];
    }
  }

  /** A password grant that nothing interrupts issues for its user exactly when the password holds. */
  lemma PasswordGrantExactly(s: State, g: Id, user: string, ok: bool, family: Id, token: Id, hash: string, expiresAt: Time)
    requires g !in s.grants && family !in s.families && token !in s.tokens
    ensures var end := Exec(s, [Begin(g, Authenticating(user)), CheckPassword(g, ok, family), Issue(g, token, hash, expiresAt)]);
            if ok
            then end == Some(State(s.tokens[token := RefreshToken(user, family, hash, expiresAt, None)], s.codes,
                                   s.grants[g := Issued(token, FromPassword)], s.families + {family}))
            else end == None
  {
    var a, b, d := Begin(g, Authenticating(user)), CheckPassword(g, ok, family), Issue(g, token, hash, expiresAt);
    ExecThree(s, a, b, d);
    var end := Exec(s, [a, b, d]);
    if end.Some? {
      assert end.value.grants == s.grants[g := Issued(token, FromPassword)];
    }
  }
}
