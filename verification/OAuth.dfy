/** Token rotation of auth/oauth as a protocol: every grant is a sequence of atomic store
    operations, and any number of grants interleave in any order. */
module OAuth {
  import opened Basics

  /** Random identifiers; fresh ones are distinct from all earlier ones. */
  type Id = nat
  type Time = int

  datatype RefreshToken = RefreshToken(
    userID: string, familyID: Id, tokenHash: string, expiresAt: Time, revokedAt: Option<Time>)

  datatype AuthCode = AuthCode(
    userID: string, clientID: string, codeHash: string, redirectURI: string, pkce: bool,
    expiresAt: Time, consumedAt: Option<Time>)

  datatype Error =
    | InvalidGrant | InvalidCredentials | InvalidClient | InvalidPKCE | ExpiredToken | TokenReuseDetected
    | InvalidRedirectURI | StoreFailed

  /** What entitles a grant to issue tokens. */
  datatype Origin = FromToken(token: Id) | FromCode(code: Id) | FromPassword

  /** Where a grant stands: what it will do next, or how it ended. */
  datatype Grant =
    | Refreshing(presented: string)
    | Claiming(token: Id, familyID: Id, userID: string)
    | Punishing(familyID: Id)
    | Redeeming(presented: string, clientID: string, redirectURI: string)
    | Consuming(code: Id, userID: string)
    | Authenticating(userID: string)
    | Issuing(familyID: Id, userID: string, origin: Origin)
    | Issued(token: Id, origin: Origin)
    | Failed(error: Error)

  type Tokens = map<Id, RefreshToken>
  type Codes = map<Id, AuthCode>

  datatype State = State(tokens: Tokens, codes: Codes, grants: map<Id, Grant>, families: set<Id>)

  /** One atomic step; the parameters are what the environment decides. */
  datatype Action =
    | Begin(g: Id, start: Grant)
    | AddCode(code: Id, record: AuthCode)
    | Lookup(g: Id, found: Option<Id>, now: Time)
    | Claim(g: Id, now: Time)
    | Punish(g: Id, now: Time)
    | LookupCode(g: Id, found: Option<Id>, now: Time, verifierOk: bool)
    | Consume(g: Id, now: Time, family: Id)
    | CheckPassword(g: Id, ok: bool, family: Id)
    | Issue(g: Id, token: Id, tokenHash: string, expiresAt: Time)
    | Abort(g: Id)

  const INIT := State(map[], map[], map[], {})

  // ---------------------------------------------------------------- the store operations

  /** Revoke: check-and-set. */
  function RevokeIn(tokens: Tokens, id: Id, now: Time): Tokens
    requires id in tokens
  {
    if tokens[id].revokedAt.None? then tokens[id := tokens[id].(revokedAt := Some(now))] else tokens
  }

  /** RevokeFamily: every token of the family that is not yet revoked. */
  function RevokeFamilyIn(tokens: Tokens, f: Id, now: Time): Tokens {
    map id | id in tokens :: if tokens[id].familyID == f && tokens[id].revokedAt.None?
                             then tokens[id].(revokedAt := Some(now)) else tokens[id]
  }

  // ---------------------------------------------------------------- transitions

  function AtLookup(s: State, hash: string, found: Option<Id>, now: Time): Option<Grant> {
    match found
    case None => Some(Failed(InvalidGrant))
    case Some(id) =>
      if id !in s.tokens || s.tokens[id].tokenHash != hash then None
      else
        var rt := s.tokens[id];
        if now > rt.expiresAt then Some(Failed(ExpiredToken))
        else if rt.revokedAt.Some? then Some(Punishing(rt.familyID))
        else Some(Claiming(id, rt.familyID, rt.userID))
  }

  function AtCodeLookup(s: State, g: Grant, found: Option<Id>, now: Time, verifierOk: bool): Option<Grant>
    requires g.Redeeming?
  {
    match found
    case None => Some(Failed(InvalidGrant))
    case Some(id) =>
      if id !in s.codes || s.codes[id].codeHash != g.presented then None
      else
        var ac := s.codes[id];
        if ac.consumedAt.Some? then Some(Failed(InvalidGrant))
        else if now > ac.expiresAt then Some(Failed(ExpiredToken))
        else if ac.clientID != g.clientID then Some(Failed(InvalidClient))
        else if ac.pkce && !verifierOk then Some(Failed(InvalidPKCE))
        else if ac.redirectURI != g.redirectURI then Some(Failed(InvalidRedirectURI))
        else Some(Consuming(id, ac.userID))
  }

  /** The state after an action, or None when the action is not enabled. */
  function Apply(s: State, a: Action): Option<State> {
    match a
    case Begin(g, start) =>
      if g in s.grants || !(start.Refreshing? || start.Redeeming? || start.Authenticating?) then None
      else Some(s.(grants := s.grants[g := start]))
    case AddCode(code, record) =>
      if code in s.codes || record.consumedAt.Some? then None
      else Some(s.(codes := s.codes[code := record]))
    case Lookup(g, found, now) =>
      if g !in s.grants || !s.grants[g].Refreshing? then None
      else
        var next := AtLookup(s, s.grants[g].presented, found, now);
        if next.None? then None else Some(s.(grants := s.grants[g := next.value]))
    case Claim(g, now) =>
      if g !in s.grants || !s.grants[g].Claiming? || s.grants[g].token !in s.tokens then None
      else
        var Claiming(id, f, user) := s.grants[g];
        if s.tokens[id].revokedAt.Some? then Some(s.(grants := s.grants[g := Punishing(f)]))
        else Some(s.(tokens := RevokeIn(s.tokens, id, now), grants := s.grants[g := Issuing(f, user, FromToken(id))]))
    case Punish(g, now) =>
      if g !in s.grants || !s.grants[g].Punishing? then None
      else
        var f := s.grants[g].familyID;
        Some(s.(tokens := RevokeFamilyIn(s.tokens, f, now), grants := s.grants[g := Failed(TokenReuseDetected)]))
    case LookupCode(g, found, now, verifierOk) =>
      if g !in s.grants || !s.grants[g].Redeeming? then None
      else
        var next := AtCodeLookup(s, s.grants[g], found, now, verifierOk);
        if next.None? then None else Some(s.(grants := s.grants[g := next.value]))
    case Consume(g, now, family) =>
      if g !in s.grants || !s.grants[g].Consuming? || s.grants[g].code !in s.codes then None
      else
        var Consuming(code, user) := s.grants[g];
        if s.codes[code].consumedAt.Some? then Some(s.(grants := s.grants[g := Failed(InvalidGrant)]))
        else if family in s.families then None
        else Some(s.(codes := s.codes[code := s.codes[code].(consumedAt := Some(now))],
                     grants := s.grants[g := Issuing(family, user, FromCode(code))],
                     families := s.families + {family}))
    case CheckPassword(g, ok, family) =>
      if g !in s.grants || !s.grants[g].Authenticating? then None
      else if !ok then Some(s.(grants := s.grants[g := Failed(InvalidCredentials)]))
      else if family in s.families then None
      else Some(s.(grants := s.grants[g := Issuing(family, s.grants[g].userID, FromPassword)],
                   families := s.families + {family}))
    case Issue(g, token, hash, expiresAt) =>
      if g !in s.grants || !s.grants[g].Issuing? || token in s.tokens then None
      else
        var Issuing(f, user, origin) := s.grants[g];
        Some(s.(tokens := s.tokens[token := RefreshToken(user, f, hash, expiresAt, None)],
                grants := s.grants[g := Issued(token, origin)]))
    case Abort(g) =>
      if g !in s.grants || s.grants[g].Issued? || s.grants[g].Failed? then None
      else Some(s.(grants := s.grants[g := Failed(StoreFailed)]))
  }

  /** A run: any interleaving of enabled actions. */
  function Exec(s: State, run: seq<Action>): Option<State> {
    if run == [] then Some(s)
    else
      var prev := Exec(s, run[..|run| - 1]);
      if prev.None? then None else Apply(prev.value, run[|run| - 1])
  }

  // ---------------------------------------------------------------- invariants

  /** Unrevoked tokens of a family. */
  function Live(s: State, f: Id): set<Id> {
    set id | id in s.tokens && s.tokens[id].familyID == f && s.tokens[id].revokedAt.None?
  }

  /** Grants of a family that hold the right to issue but have not issued yet. */
  function Pending(s: State, f: Id): set<Id> {
    set g | g in s.grants && s.grants[g].Issuing? && s.grants[g].familyID == f
  }

  /** Grants that obtained their right from a given token or code. */
  function Holders(s: State, o: Origin): set<Id> {
    set g | g in s.grants && (s.grants[g].Issuing? || s.grants[g].Issued?) && s.grants[g].origin == o
  }

  /** A family named anywhere has been drawn. */
  ghost predicate FamiliesKnown(s: State) {
    && (forall id :: id in s.tokens ==> s.tokens[id].familyID in s.families)
    && (forall g :: g in s.grants && (s.grants[g].Claiming? || s.grants[g].Punishing? || s.grants[g].Issuing?) ==>
          s.grants[g].familyID in s.families)
  }

  /** A claim names the family of its token; tokens and codes are never deleted. */
  ghost predicate ClaimsMatch(s: State) {
    && (forall g :: g in s.grants && s.grants[g].Claiming? ==>
          s.grants[g].token in s.tokens && s.tokens[s.grants[g].token].familyID == s.grants[g].familyID)
    && (forall g :: g in s.grants && s.grants[g].Consuming? ==> s.grants[g].code in s.codes)
  }

  /** The safety property: at most one unrevoked token or pending rotation per family. */
  ghost predicate OneLive(s: State) {
    forall f :: |Live(s, f)| + |Pending(s, f)| <= 1
  }

  /** A right obtained from a token or code marks it spent, and is held by one grant at most. */
  ghost predicate OneHolder(s: State) {
    forall o: Origin :: o != FromPassword ==> |Holders(s, o)| <= 1 && (Holders(s, o) != {} ==> Spent(s, o))
  }

  predicate Spent(s: State, o: Origin) {
    match o
    case FromToken(id) => id in s.tokens && s.tokens[id].revokedAt.Some?
    case FromCode(id) => id in s.codes && s.codes[id].consumedAt.Some?
    case FromPassword => false
  }

  ghost predicate Inv(s: State) {
    FamiliesKnown(s) && ClaimsMatch(s) && OneLive(s) && OneHolder(s)
  }

  lemma SubsetSize(a: set<Id>, b: set<Id>)
    requires a <= b
    ensures |a| <= |b|
    decreases b
  {
    if exists x :: x in b && x !in a {
      var x :| x in b && x !in a;
      SubsetSize(a, b - {x});
    } else {
      assert a == b;
    }
  }

  lemma {:induction false} InitInv()
    ensures Inv(INIT)
  {
    forall f ensures Live(INIT, f) == {} && Pending(INIT, f) == {} {}
    forall o ensures Holders(INIT, o) == {} {}
  }

  /** How a step moves a family's unrevoked tokens and pending rights: it only removes, it turns
      a token into a right, it turns a right into a token, or it founds the family. */
  ghost predicate Moved(s: State, s': State, f: Id) {
    || (Live(s', f) <= Live(s, f) && Pending(s', f) <= Pending(s, f))
    || (exists id, g :: id in Live(s, f) && Live(s', f) == Live(s, f) - {id} && Pending(s', f) == Pending(s, f) + {g})
    || (exists id, g :: g in Pending(s, f) && Live(s', f) == Live(s, f) + {id} && Pending(s', f) == Pending(s, f) - {g})
    || (exists g :: f !in s.families && Live(s', f) == {} && Pending(s', f) == {g})
  }

  lemma ClaimMoves(s: State, a: Action, s': State, f: Id)
    requires a.Claim? && Apply(s, a) == Some(s') && ClaimsMatch(s)
    ensures Moved(s, s', f)
  {
    var id := s.grants[a.g].token;
    if s.tokens[id].revokedAt.None? && s.grants[a.g].familyID == f {
      assert id in Live(s, f);
      assert Live(s', f) == Live(s, f) - {id};
      assert Pending(s', f) == Pending(s, f) + {a.g};
    }
  }

  lemma IssueMoves(s: State, a: Action, s': State, f: Id)
    requires a.Issue? && Apply(s, a) == Some(s')
    ensures Moved(s, s', f)
  {
    if s.grants[a.g].familyID == f {
      assert Live(s', f) == Live(s, f) + {a.token};
      assert Pending(s', f) == Pending(s, f) - {a.g};
    }
  }

  lemma DrawMoves(s: State, a: Action, s': State, f: Id)
    requires (a.Consume? || a.CheckPassword?) && Apply(s, a) == Some(s') && FamiliesKnown(s)
    ensures Moved(s, s', f)
  {
    if s'.grants[a.g].Issuing? && a.family == f {
      assert Live(s', f) == {};
      assert Pending(s', f) == {a.g};
    }
  }

  lemma StepMoves(s: State, a: Action, s': State, f: Id)
    requires Apply(s, a) == Some(s') && FamiliesKnown(s) && ClaimsMatch(s)
    ensures Moved(s, s', f)
  {
    if a.Claim? {
      ClaimMoves(s, a, s', f);
    } else if a.Issue? {
      IssueMoves(s, a, s', f);
    } else if a.Consume? || a.CheckPassword? {
      DrawMoves(s, a, s', f);
    } else {
      assert Live(s', f) <= Live(s, f) && Pending(s', f) <= Pending(s, f);
    }
  }

  lemma KeepsOneLive(s: State, a: Action, s': State)
    requires Apply(s, a) == Some(s') && FamiliesKnown(s) && ClaimsMatch(s) && OneLive(s)
    ensures OneLive(s')
  {
    hide Apply, Live, Pending;
    forall f
      ensures |Live(s', f)| + |Pending(s', f)| <= 1
    {
      assert |Live(s, f)| + |Pending(s, f)| <= 1;
      StepMoves(s, a, s', f);
      if Live(s', f) <= Live(s, f) && Pending(s', f) <= Pending(s, f) {
        SubsetSize(Live(s', f), Live(s, f));
        SubsetSize(Pending(s', f), Pending(s, f));
      }
    }
  }

  lemma KeepsFamilies(s: State, a: Action, s': State)
    requires Apply(s, a) == Some(s') && FamiliesKnown(s)
    ensures FamiliesKnown(s')
  {
  }

  lemma KeepsClaims(s: State, a: Action, s': State)
    requires Apply(s, a) == Some(s') && ClaimsMatch(s)
    ensures ClaimsMatch(s')
  {
  }

  lemma KeepsSpent(s: State, a: Action, s': State, o: Origin)
    requires Apply(s, a) == Some(s') && Spent(s, o)
    ensures Spent(s', o)
  {
  }

  /** A step adds a holder only for a right that was not spent and is spent afterwards. */
  lemma HoldersMove(s: State, a: Action, s': State, o: Origin)
    requires Apply(s, a) == Some(s') && o != FromPassword
    ensures Holders(s', o) <= Holders(s, o)
         || (!Spent(s, o) && Spent(s', o) && exists g :: Holders(s', o) <= Holders(s, o) + {g})
  {
    match a
    case Claim(g, now) =>
      if s'.grants[g].Issuing? {
        assert Holders(s', o) <= Holders(s, o) + {g};
      }
    case Consume(g, now, family) =>
      if s'.grants[g].Issuing? {
        assert Holders(s', o) <= Holders(s, o) + {g};
      }
    case _ =>
  }

  lemma KeepsOneHolder(s: State, a: Action, s': State)
    requires Apply(s, a) == Some(s') && OneHolder(s)
    ensures OneHolder(s')
  {
    hide Apply, Holders, Spent;
    forall o: Origin | o != FromPassword
      ensures |Holders(s', o)| <= 1 && (Holders(s', o) != {} ==> Spent(s', o))
    {
      HoldersMove(s, a, s', o);
      if Holders(s', o) <= Holders(s, o) {
        SubsetSize(Holders(s', o), Holders(s, o));
        if Holders(s', o) != {} {
          KeepsSpent(s, a, s', o);
        }
      } else {
        var g :| Holders(s', o) <= Holders(s, o) + {g};
        assert Holders(s, o) == {};
        SubsetSize(Holders(s', o), {g});
      }
    }
  }

  /** Every step keeps the invariant. */
  lemma StepInv(s: State, a: Action, s': State)
    requires Inv(s) && Apply(s, a) == Some(s')
    ensures Inv(s')
  {
    hide Apply, FamiliesKnown, ClaimsMatch, OneLive, OneHolder;
    KeepsFamilies(s, a, s');
    KeepsClaims(s, a, s');
    KeepsOneLive(s, a, s');
    KeepsOneHolder(s, a, s');
  }

  /** In every interleaving of any number of grants: at most one unrevoked token or pending
      rotation per family, and at most one grant per token or code. */
  lemma {:induction false} EveryRunSafe(s: State, run: seq<Action>, s': State)
    requires Inv(s) && Exec(s, run) == Some(s')
    ensures Inv(s')
  {
    hide Apply, Inv;
    if run != [] {
      var prev := Exec(s, run[..|run| - 1]).value;
      EveryRunSafe(s, run[..|run| - 1], prev);
      StepInv(prev, run[|run| - 1], s');
    }
  }

  lemma ReachableSafe(run: seq<Action>, s: State)
    requires Exec(INIT, run) == Some(s)
    ensures forall f :: |Live(s, f)| + |Pending(s, f)| <= 1
    ensures forall o: Origin :: o != FromPassword ==> |Holders(s, o)| <= 1
  {
    InitInv();
    EveryRunSafe(INIT, run, s);
  }

  // ---------------------------------------------------------------- at most once

  /** The token a step rotates, or the code it redeems. */
  function SpendsNow(s: State, a: Action): Option<Origin> {
    if a.Claim? && a.g in s.grants && s.grants[a.g].Claiming? && s.grants[a.g].token in s.tokens
       && s.tokens[s.grants[a.g].token].revokedAt.None? then Some(FromToken(s.grants[a.g].token))
    else if a.Consume? && a.g in s.grants && s.grants[a.g].Consuming? && s.grants[a.g].code in s.codes
       && s.codes[s.grants[a.g].code].consumedAt.None? then Some(FromCode(s.grants[a.g].code))
    else None
  }

  lemma SpendingSpends(s: State, a: Action, s': State)
    requires Apply(s, a) == Some(s') && SpendsNow(s, a).Some?
    ensures !Spent(s, SpendsNow(s, a).value) && Spent(s', SpendsNow(s, a).value)
  {
  }

  lemma {:induction false} SpentForever(s: State, run: seq<Action>, s': State, o: Origin)
    requires Spent(s, o) && Exec(s, run) == Some(s')
    ensures Spent(s', o)
  {
    hide Apply, Spent;
    if run != [] {
      var prev := Exec(s, run[..|run| - 1]).value;
      SpentForever(s, run[..|run| - 1], prev, o);
      KeepsSpent(prev, run[|run| - 1], s', o);
    }
  }

  /** Single use over whole runs: once a step has rotated a token or redeemed a code, no later
      step of any grant rotates or redeems it again. */
  lemma SpentAtMostOnce(s: State, a: Action, run: seq<Action>, b: Action)
    requires Apply(s, a).Some? && SpendsNow(s, a).Some?
    requires Exec(Apply(s, a).value, run).Some?
    requires Apply(Exec(Apply(s, a).value, run).value, b).Some?
    ensures SpendsNow(Exec(Apply(s, a).value, run).value, b) != SpendsNow(s, a)
  {
    hide Apply, Exec, SpendsNow, Spent;
    var s1 := Apply(s, a).value;
    var s2 := Exec(s1, run).value;
    SpendingSpends(s, a, s1);
    SpentForever(s1, run, s2, SpendsNow(s, a).value);
    if SpendsNow(s2, b).Some? {
      SpendingSpends(s2, b, Apply(s2, b).value);
    }
  }

  // ---------------------------------------------------------------- reuse kills a family

  /** No unrevoked token, and nobody entitled to issue one. */
  predicate Extinct(s: State, f: Id) { f in s.families && Live(s, f) == {} && Pending(s, f) == {} }

  lemma KeepsExtinct(s: State, a: Action, s': State, f: Id)
    requires FamiliesKnown(s) && ClaimsMatch(s) && Extinct(s, f) && Apply(s, a) == Some(s')
    ensures Extinct(s', f)
  {
    hide Apply, Live, Pending;
    StepMoves(s, a, s', f);
    FamiliesGrow(s, a, s');
  }

  lemma FamiliesGrow(s: State, a: Action, s': State)
    requires Apply(s, a) == Some(s')
    ensures s.families <= s'.families
  {
  }

  lemma {:induction false} ExtinctForever(s: State, run: seq<Action>, s': State, f: Id)
    requires Inv(s) && Extinct(s, f) && Exec(s, run) == Some(s')
    ensures Extinct(s', f)
  {
    hide Apply, Live, Pending;
    if run != [] {
      var prev := Exec(s, run[..|run| - 1]).value;
      ExtinctForever(s, run[..|run| - 1], prev, f);
      EveryRunSafe(s, run[..|run| - 1], prev);
      KeepsExtinct(prev, run[|run| - 1], s', f);
    }
  }

  /** In every state some run leads to, the family has no unrevoked token. */
  ghost predicate DeadForever(s: State, f: Id) {
    forall run: seq<Action>, s': State :: Exec(s, run) == Some(s') ==> Live(s', f) == {}
  }

  lemma FreshToken(tokens: Tokens) returns (id: Id)
    ensures id !in tokens
  {
    id := FreshId(tokens.Keys);
  }

  lemma {:induction false} FreshId(ids: set<Id>) returns (id: Id)
    ensures id !in ids && forall x :: x in ids ==> x < id
    decreases ids
  {
    if ids == {} {
      id := 0;
    } else {
      var x :| x in ids;
      var y := FreshId(ids - {x});
      id := if x < y then y else x + 1;
      assert forall z :: z in ids ==> z == x || z in ids - {x};
    }
  }

  /** A family without unrevoked tokens stays dead in every continuation exactly when no rotation
      of it stands between Revoke and Create. */
  lemma DeadExactlyWhenNoPending(s: State, f: Id)
    requires Inv(s) && f in s.families && Live(s, f) == {}
    ensures DeadForever(s, f) <==> Pending(s, f) == {}
  {
    if Pending(s, f) == {} {
      forall run: seq<Action>, s': State | Exec(s, run) == Some(s')
        ensures Live(s', f) == {}
      {
        ExtinctForever(s, run, s', f);
      }
    } else {
      var g :| g in Pending(s, f);
      var id := FreshToken(s.tokens);
      var a := Issue(g, id, "", 0);
      var s' := Apply(s, a).value;
      assert Exec(s, [a][..0]) == Some(s);
      assert Exec(s, [a]) == Some(s');
      assert id in Live(s', f);
    }
  }

  /** RevokeFamily on reuse: the family is dead at once, and for good exactly when no rotation of
      it was between Revoke and Create at that moment. */
  lemma ReuseKillsFamily(s: State, a: Action, s': State)
    requires Inv(s) && a.Punish? && Apply(s, a) == Some(s')
    ensures var f := s.grants[a.g].familyID;
            && Live(s', f) == {}
            && (DeadForever(s', f) <==> Pending(s, f) == {})
  {
    var f := s.grants[a.g].familyID;
    StepInv(s, a, s');
    assert Pending(s', f) == Pending(s, f);
    DeadExactlyWhenNoPending(s', f);
  }

  /** After extinction no grant of the family succeeds in any continuation, not even one that had
      read its token before. */
  lemma NoGrantAfterExtinction(s: State, f: Id, run: seq<Action>, a: Action)
    requires Inv(s) && Extinct(s, f) && Exec(s, run).Some?
    ensures var t := Exec(s, run).value;
            && (forall id :: SpendsNow(t, a) == Some(FromToken(id)) ==> t.tokens[id].familyID != f)
            && (a.Issue? && Apply(t, a).Some? ==> t.grants[a.g].familyID != f)
  {
    var t := Exec(s, run).value;
    ExtinctForever(s, run, t, f);
    if a.Issue? && Apply(t, a).Some? {
      assert a.g !in Pending(t, f);
    }
    forall id | SpendsNow(t, a) == Some(FromToken(id))
      ensures t.tokens[id].familyID != f
    {
      assert id !in Live(t, f);
    }
  }

  // ---------------------------------------------------------------- the race that keeps a family alive

  lemma Extend(run: seq<Action>, s: State, a: Action, s': State)
    requires Exec(INIT, run) == Some(s) && Apply(s, a) == Some(s')
    ensures Exec(INIT, run + [a]) == Some(s')
  {
    assert (run + [a])[..|run|] == run;
  }

  const TOKEN := RefreshToken("user", 7, "hash", 100, None)

  /** One password grant leaves token 1 of family 7 unrevoked. */
  lemma IssuedRun() returns (run: seq<Action>, s: State)
    ensures Exec(INIT, run) == Some(s)
    ensures s.tokens.Keys == {1} && s.tokens[1] == TOKEN && s.grants.Keys == {0}
  {
    var a1, a2, a3 := Begin(0, Authenticating("user")), CheckPassword(0, true, 7), Issue(0, 1, "hash", 100);
    var s1 := Apply(INIT, a1).value;
    var s2 := Apply(s1, a2).value;
    s := Apply(s2, a3).value;
    Extend([], INIT, a1, s1);
    Extend([] + [a1], s1, a2, s2);
    Extend([] + [a1] + [a2], s2, a3, s);
    run := [] + [a1] + [a2] + [a3];
  }

  lemma PresentOnce(run: seq<Action>, s: State, g: Id) returns (run': seq<Action>, s': State)
    requires Exec(INIT, run) == Some(s) && g !in s.grants && 1 in s.tokens && s.tokens[1] == TOKEN
    ensures Exec(INIT, run') == Some(s') && s' == s.(grants := s.grants[g := Claiming(1, 7, "user")])
  {
    var begin, read := Begin(g, Refreshing("hash")), Lookup(g, Some(1), 0);
    var mid := s.(grants := s.grants[g := Refreshing("hash")]);
    s' := s.(grants := s.grants[g := Claiming(1, 7, "user")]);
    assert mid.grants[g := Claiming(1, 7, "user")] == s'.grants;
    Extend(run, s, begin, mid);
    Extend(run + [begin], mid, read, s');
    run' := run + [begin] + [read];
  }

  /** Two grants read token 1; the first claims it and the second then detects reuse. */
  lemma ClaimedTwiceRun() returns (run: seq<Action>, s: State)
    ensures Exec(INIT, run) == Some(s)
    ensures s.tokens.Keys == {1} && 1 in s.grants && 2 in s.grants
    ensures s.grants[1] == Issuing(7, "user", FromToken(1)) && s.grants[2] == Punishing(7)
  {
    var r0, s0 := IssuedRun();
    var r1, s1 := PresentOnce(r0, s0, 1);
    var r2, s2 := PresentOnce(r1, s1, 2);
    var s3 := Apply(s2, Claim(1, 0)).value;
    Extend(r2, s2, Claim(1, 0), s3);
    s := Apply(s3, Claim(2, 0)).value;
    Extend(r2 + [Claim(1, 0)], s3, Claim(2, 0), s);
    run := r2 + [Claim(1, 0)] + [Claim(2, 0)];
  }

  /** The documented promise that reuse revokes the entire family fails on a reachable run: one
      presentation is answered with TokenReuseDetected, yet a rotation that had already claimed
      the token issues an unrevoked token of the family afterwards. */
  lemma ReuseRaceReachable() returns (run: seq<Action>, s: State)
    ensures Exec(INIT, run) == Some(s)
    ensures 2 in s.grants && s.grants[2] == Failed(TokenReuseDetected)
    ensures 2 in Live(s, 7)
  {
    var r, s0 := ClaimedTwiceRun();
    var s1 := Apply(s0, Punish(2, 0)).value;
    Extend(r, s0, Punish(2, 0), s1);
    s := Apply(s1, Issue(1, 2, "next", 100)).value;
    Extend(r + [Punish(2, 0)], s1, Issue(1, 2, "next", 100), s);
    run := r + [Punish(2, 0)] + [Issue(1, 2, "next", 100)];
  }
}
