/** What the source lets one grant do at each of its steps, and runs in which it does just that. */
module OAuthPlan {
  import opened Basics
  import opened OAuth

  /** What a caller and its environment decide for one grant: how it starts, the clock readings, the
      values it is handed, and which store calls fail. */
  datatype Plan = Plan(
    start: Grant, verifierOk: bool, readAt: Time, claimAt: Time, punishAt: Time, newHash: string, expiresAt: Time,
    lookupFails: bool, claimFails: bool, punishFails: bool, issueFails: bool)

  /** The grant an action belongs to. */
  function Actor(a: Action): Option<Id> {
    if a.AddCode? then None else Some(a.g)
  }

  ghost predicate NoneBy(run: seq<Action>, g: Id) {
    forall i :: 0 <= i < |run| ==> Actor(run[i]) != Some(g)
  }

  /** The one thing the source lets grant g do next: look up before claiming or consuming, claim or
      consume before issuing, revoke the family on reuse, and give up only when a store call fails. */
  ghost predicate Prescribed(s: State, g: Id, a: Action, plan: Plan) {
    if g !in s.grants then a == Begin(g, plan.start)
    else
      match s.grants[g]
      case Refreshing(hash) =>
        && a.Lookup? && a.now == plan.readAt
        && (a.found.None? <==> plan.lookupFails || forall id :: id in s.tokens ==> s.tokens[id].tokenHash != hash)
      case Claiming(_, _, _) => a == if plan.claimFails then Abort(g) else Claim(g, plan.claimAt)
      case Punishing(_) => a == if plan.punishFails then Abort(g) else Punish(g, plan.punishAt)
      case Redeeming(hash, _, _) =>
        && a.LookupCode? && a.now == plan.readAt && a.verifierOk == plan.verifierOk
        && (a.found.None? <==> plan.lookupFails || forall id :: id in s.codes ==> s.codes[id].codeHash != hash)
      case Consuming(_, _) =>
        if plan.claimFails then a == Abort(g) else a.Consume? && a.now == plan.claimAt
      case Issuing(_, _, _) =>
        if plan.issueFails then a == Abort(g)
        else a.Issue? && a.tokenHash == plan.newHash && a.expiresAt == plan.expiresAt
      case _ => false
  }

  /** Every step grant g takes in the run is the prescribed one. */
  ghost predicate Follows(s: State, run: seq<Action>, g: Id, plan: Plan) {
    run == [] ||
    (var before, a := run[..|run| - 1], run[|run| - 1];
     && Follows(s, before, g, plan) && Exec(s, before).Some?
     && (Actor(a) == Some(g) ==> Prescribed(Exec(s, before).value, g, a, plan)))
  }

  lemma FollowsStep(s: State, run: seq<Action>, now: State, a: Action, g: Id, plan: Plan)
    requires Follows(s, run, g, plan) && Exec(s, run) == Some(now)
    requires Actor(a) == Some(g) ==> Prescribed(now, g, a, plan)
    ensures Follows(s, run + [a], g, plan)
  {
    hide Prescribed, Exec;
    assert (run + [a])[..|run|] == run;
  }

  lemma {:induction false} FollowsOthers(s: State, run: seq<Action>, now: State, others: seq<Action>, g: Id, plan: Plan)
    requires Follows(s, run, g, plan) && Exec(s, run) == Some(now) && Exec(now, others).Some? && NoneBy(others, g)
    ensures Follows(s, run + others, g, plan)
  {
    hide Prescribed, Apply;
    if others == [] {
      assert run + others == run;
    } else {
      var n := |others| - 1;
      FollowsOthers(s, run, now, others[..n], g, plan);
      Append(s, run, others[..n]);
      FollowsStep(s, run + others[..n], Exec(now, others[..n]).value, others[n], g, plan);
      assert run + others == run + others[..n] + [others[n]];
    }
  }

  lemma {:induction false} Append(s: State, run: seq<Action>, more: seq<Action>)
    requires Exec(s, run).Some?
    ensures Exec(s, run + more) == Exec(Exec(s, run).value, more)
  {
    hide Apply;
    if more == [] {
      assert run + more == run;
    } else {
      Append(s, run, more[..|more| - 1]);
      assert (run + more)[..|run + more| - 1] == run + more[..|more| - 1];
    }
  }

  /** A run of the protocol in progress, in which grant g follows its plan. */
  ghost predicate Progress(s: State, run: seq<Action>, now: State, g: Id, plan: Plan) {
    Exec(s, run) == Some(now) && Follows(s, run, g, plan) && Inv(now)
  }

  /** One step of grant g. */
  lemma Step(s: State, run: seq<Action>, now: State, a: Action, next: State, g: Id, plan: Plan)
    requires Progress(s, run, now, g, plan) && Apply(now, a) == Some(next) && Prescribed(now, g, a, plan)
    ensures Progress(s, run + [a], next, g, plan)
  {
    hide Apply, Prescribed, Inv;
    assert (run + [a])[..|run|] == run;
    FollowsStep(s, run, now, a, g, plan);
    StepInv(now, a, next);
  }

  lemma Others(s: State, run: seq<Action>, now: State, others: seq<Action>, next: State, g: Id, plan: Plan)
    requires Progress(s, run, now, g, plan) && Exec(now, others) == Some(next) && NoneBy(others, g)
    ensures Progress(s, run + others, next, g, plan)
  {
    hide Apply, Prescribed, Inv;
    Append(s, run, others);
    FollowsOthers(s, run, now, others, g, plan);
    EveryRunSafe(now, others, next);
  }

  lemma BeginRun(s: State, g: Id, plan: Plan, next: State) returns (run: seq<Action>)
    requires Inv(s) && g !in s.grants && next == s.(grants := s.grants[g := plan.start])
    requires plan.start.Refreshing? || plan.start.Redeeming?
    ensures Progress(s, run, next, g, plan)
  {
    var a := Begin(g, plan.start);
    run := [a];
    assert [a][..0] == [];
    assert Exec(s, []) == Some(s) && Follows(s, [], g, plan);
    assert [] + [a] == [a];
    StepInv(s, a, next);
  }
}
