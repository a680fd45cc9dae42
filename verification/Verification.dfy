/** The offline verification pipeline: verification/engine.go and its checks. */
module Verification {
  import opened Basics
  import opened Authorities
  import opened Attestations
  import Delegation

  datatype CheckID =
    | Structural | Signature | Authorization | AuthorityProof | ChainLink | RootAuthority | Temporal
    | Revocation | Identity | KeyBinding | Evidence | Provenance | CommitmentProof

  datatype Status = Passed | Failed | Skipped

  datatype Hop = Hop(authority: Authority, publicKey: string)

  /** revokedAt is None for the zero time: never revoked. */
  datatype KeyVersion = KeyVersion(version: nat, boundAt: Time, revokedAt: Option<Time>)

  datatype Inputs = Inputs(
    attestation: Option<Attestation>, signingKey: Option<string>, chain: seq<Hop>,
    keyVersions: seq<KeyVersion>, now: Option<Time>)

  /** What code outside this model answers: canonical hashing, structural, signature, identity,
      key-binding, evidence and commitment checks, and the two clocks. */
  datatype Outside = Outside(
    canon: Canon, attestationHashes: bool, structural: bool, signature: bool, proof: (Authority, string) -> bool,
    identity: bool, binding: bool, evidence: bool, commitment: Option<bool>, clock: Time, ownClock: Time)

  datatype InputError = NilAttestation | NilSigningKey | EmptyChain | HashFailed

  /** The error a failed check wraps; OutsideError stands for those of the checks answered elsewhere. */
  datatype Sentinel =
    | AuthorityInvalid | ChainBroken | CapabilityNotGranted | ScopeViolation | DelegationDepth | NotYetValid | Expired
    | Revoked | Superseded | NotRootAuthority | KeyBindingBroken | KeyVersionSuperseded | OutsideError

  /** hop is the offending chain index of a hop-scoped check, -1 otherwise. */
  datatype Failure = Failure(check: CheckID, err: Sentinel, hop: int)

  datatype Report = Report(valid: bool, checks: seq<(CheckID, Status)>, failures: seq<Failure>)

  // ---------------------------------------------------------------- hop-scoped checks

  function MapDelegationError(e: Delegation.Error): Sentinel {
    match e
    case CapabilityEscalation => Sentinel.CapabilityNotGranted
    case ScopeEscalation => ScopeViolation
    case ValidityEscalation => ScopeViolation
    case DepthEscalation => DelegationDepth
    case HashFailed => AuthorityInvalid
  }

  /** A child must name its parent's hash and be its subset. */
  function LinkError(canon: Canon, child: Authority, parent: Authority): Option<Sentinel> {
    if Ref(canon, parent).None? then Some(AuthorityInvalid)
    else if child.parent != Ref(canon, parent) then Some(ChainBroken)
    else
      match Delegation.VerifySubset(child, parent)
      case Some(e) => Some(MapDelegationError(e))
      case None => None
  }

  function TemporalError(v: Validity, now: Time): Option<Sentinel> {
    if now < v.notBefore then Some(NotYetValid) else if now > v.notAfter then Some(Expired) else None
  }

  function RevocationError(status: int): Option<Sentinel> {
    if status == STATUS_ACTIVE then None
    else if status == STATUS_REVOKED then Some(Revoked)
    else if status == STATUS_SUPERSEDED then Some(Superseded)
    else if status == STATUS_EXPIRED then Some(Expired)
    else Some(AuthorityInvalid)
  }

  /** checkAuthorization keeps two of the authorization errors apart. */
  function AuthorizationError(e: Attestations.Error): Sentinel {
    match e
    case CapabilityNotGranted => Sentinel.CapabilityNotGranted
    case AuthorizationScope => ScopeViolation
    case _ => AuthorityInvalid
  }

  ghost predicate Linked(canon: Canon, chain: seq<Hop>) {
    forall i :: 0 <= i < |chain| - 1 ==> LinkError(canon, chain[i].authority, chain[i + 1].authority).None?
  }

  /** The loops return the first offending hop and its error. */
  method CheckChainLink(canon: Canon, chain: seq<Hop>) returns (err: Option<Sentinel>, hop: int)
    ensures err.None? <==> Linked(canon, chain)
    ensures err.None? ==> hop == -1
    ensures err.Some? ==>
              && 0 <= hop < |chain| - 1 && LinkError(canon, chain[hop].authority, chain[hop + 1].authority) == err
              && forall k :: 0 <= k < hop ==> LinkError(canon, chain[k].authority, chain[k + 1].authority).None?
  {
    hide LinkError;
    var i := 0;
    while i + 1 < |chain|
      invariant 0 <= i
      invariant forall k :: 0 <= k < i && k + 1 < |chain| ==> LinkError(canon, chain[k].authority, chain[k + 1].authority).None?
    {
      err := LinkError(canon, chain[i].authority, chain[i + 1].authority);
      if err.Some? {
        return err, i;
      }
      i := i + 1;
    }
    return None, -1;
  }

  ghost predicate Current(att: Attestation, chain: seq<Hop>, now: Time) {
    && TemporalError(att.validity, now).None?
    && forall i :: 0 <= i < |chain| ==> TemporalError(chain[i].authority.validity, now).None?
  }

  method CheckTemporal(att: Attestation, chain: seq<Hop>, now: Time) returns (err: Option<Sentinel>, hop: int)
    ensures err.None? <==> Current(att, chain, now)
    ensures err.None? ==> hop == -1
    ensures err.Some? && hop == -1 ==> err == TemporalError(att.validity, now)
    ensures err.Some? && hop != -1 ==>
              && TemporalError(att.validity, now).None?
              && 0 <= hop < |chain| && err == TemporalError(chain[hop].authority.validity, now)
              && forall k :: 0 <= k < hop ==> TemporalError(chain[k].authority.validity, now).None?
  {
    err := TemporalError(att.validity, now);
    if err.Some? {
      return err, -1;
    }
    for i := 0 to |chain|
      invariant forall k :: 0 <= k < i ==> TemporalError(chain[k].authority.validity, now).None?
    {
      err := TemporalError(chain[i].authority.validity, now);
      if err.Some? {
        return err, i;
      }
    }
    return None, -1;
  }

  ghost predicate AllActive(chain: seq<Hop>) {
    forall i :: 0 <= i < |chain| ==> RevocationError(chain[i].authority.status).None?
  }

  method CheckRevocation(chain: seq<Hop>) returns (err: Option<Sentinel>, hop: int)
    ensures err.None? <==> AllActive(chain)
    ensures err.None? ==> hop == -1
    ensures err.Some? ==>
              && 0 <= hop < |chain| && err == RevocationError(chain[hop].authority.status)
              && forall k :: 0 <= k < hop ==> RevocationError(chain[k].authority.status).None?
  {
    for i := 0 to |chain|
      invariant forall k :: 0 <= k < i ==> RevocationError(chain[k].authority.status).None?
    {
      err := RevocationError(chain[i].authority.status);
      if err.Some? {
        return err, i;
      }
    }
    return None, -1;
  }

  ghost predicate AllProven(proof: (Authority, string) -> bool, chain: seq<Hop>) {
    forall i :: 0 <= i < |chain| ==> proof(chain[i].authority, chain[i].publicKey)
  }

  method CheckAuthorityProof(proof: (Authority, string) -> bool, chain: seq<Hop>) returns (err: Option<Sentinel>, hop: int)
    ensures err.None? <==> AllProven(proof, chain)
    ensures err.None? ==> hop == -1
    ensures err.Some? ==>
              && err == Some(AuthorityInvalid)
              && 0 <= hop < |chain| && !proof(chain[hop].authority, chain[hop].publicKey)
              && forall k :: 0 <= k < hop ==> proof(chain[k].authority, chain[k].publicKey)
  {
    for i := 0 to |chain|
      invariant forall k :: 0 <= k < i ==> proof(chain[k].authority, chain[k].publicKey)
    {
      if !proof(chain[i].authority, chain[i].publicKey) {
        return Some(AuthorityInvalid), i;
      }
    }
    return None, -1;
  }

  // ---------------------------------------------------------------- the signing key's version

  /** v was bound later than w, or at the same instant with a higher version. */
  predicate Supersedes(v: KeyVersion, w: KeyVersion) {
    v.boundAt > w.boundAt || (v.boundAt == w.boundAt && v.version > w.version)
  }

  /** Entry i is in force at now: bound by then, superseding every earlier such entry and
      superseded by no later one. */
  ghost predicate InForce(history: seq<KeyVersion>, now: Time, i: nat) {
    && i < |history| && history[i].boundAt <= now
    && (forall k :: 0 <= k < i && history[k].boundAt <= now ==> Supersedes(history[i], history[k]))
    && (forall k :: i < k < |history| && history[k].boundAt <= now ==> !Supersedes(history[k], history[i]))
  }

  lemma InForceUnique(history: seq<KeyVersion>, now: Time, i: nat, j: nat)
    requires InForce(history, now, i) && InForce(history, now, j)
    ensures i == j
  {
  }

  predicate BoundBy(history: seq<KeyVersion>, now: Time, k: int) {
    0 <= k < |history| && history[k].boundAt <= now
  }

  ghost predicate Highest(history: seq<KeyVersion>, now: Time, i: int) {
    BoundBy(history, now, i) && forall k :: BoundBy(history, now, k) ==> history[k].version <= history[i].version
  }

  ghost predicate Latest(history: seq<KeyVersion>, now: Time, i: int) {
    BoundBy(history, now, i) && forall k :: BoundBy(history, now, k) ==> history[k].boundAt <= history[i].boundAt
  }

  /** The entry in force has the highest bound version exactly when some highest version is also
      bound latest. */
  lemma InForceIsHighestExactly(history: seq<KeyVersion>, now: Time, i: nat)
    requires InForce(history, now, i)
    ensures Highest(history, now, i) <==> exists k :: Highest(history, now, k) && Latest(history, now, k)
  {
    forall k | BoundBy(history, now, k)
      ensures !Supersedes(history[k], history[i])
    {
    }
    assert Latest(history, now, i);
    if k :| Highest(history, now, k) && Latest(history, now, k) {
      assert BoundBy(history, now, i);
      assert !Supersedes(history[k], history[i]);
    }
  }

  /** Rebinding an older version puts it in force over a higher one. */
  lemma RolledBackKeyInForce()
    ensures InForce([KeyVersion(2, 10, None), KeyVersion(1, 20, None)], 30, 1)
    ensures !Highest([KeyVersion(2, 10, None), KeyVersion(1, 20, None)], 30, 1)
  {
    var history := [KeyVersion(2, 10, None), KeyVersion(1, 20, None)];
    assert BoundBy(history, 30, 0) && history[0].version > history[1].version;
  }

  /** keyVersionAt returns the entry bound last at or before now, the higher version on a tie. */
  method KeyVersionAt(history: seq<KeyVersion>, now: Time) returns (bound: KeyVersion, found: bool, ghost at: nat)
    ensures found <==> exists k :: 0 <= k < |history| && history[k].boundAt <= now
    ensures found ==> InForce(history, now, at) && bound == history[at]
  {
    bound, found, at := KeyVersion(0, 0, None), false, 0;
    for i := 0 to |history|
      invariant found ==> at < i && bound == history[at] && bound.boundAt <= now
      invariant found <==> exists k :: 0 <= k < i && history[k].boundAt <= now
      invariant found ==> forall k :: 0 <= k < at && history[k].boundAt <= now ==> Supersedes(bound, history[k])
      invariant found ==> forall k :: at < k < i && history[k].boundAt <= now ==> !Supersedes(history[k], bound)
    {
      var v := history[i];
      if now < v.boundAt {
        continue;
      }
      if !found || v.boundAt > bound.boundAt || (v.boundAt == bound.boundAt && v.version > bound.version) {
        bound, found, at := v, true, i;
      }
    }
  }

  /** The signing version is the one in force, and it is not revoked by now. */
  ghost predicate VersionOk(history: seq<KeyVersion>, now: Time, used: nat) {
    history == [] ||
    exists i: nat :: InForce(history, now, i) && history[i].version == used
                     && (history[i].revokedAt.Some? ==> now < history[i].revokedAt.value)
  }

  /** Why a version is refused: superseded by a later binding, not bound, or revoked. */
  ghost predicate VersionRefused(history: seq<KeyVersion>, now: Time, used: nat, e: Sentinel) {
    || (e == KeyBindingBroken && forall k :: 0 <= k < |history| ==> now < history[k].boundAt)
    || exists i: nat ::
         && InForce(history, now, i)
         && (if used < history[i].version then e == KeyVersionSuperseded
             else if used > history[i].version then e == KeyBindingBroken
             else history[i].revokedAt.Some? && history[i].revokedAt.value <= now && e == Revoked)
  }

  method CheckSigningKeyVersion(history: seq<KeyVersion>, now: Time, used: nat) returns (err: Option<Sentinel>)
    ensures err.None? <==> VersionOk(history, now, used)
    ensures err.Some? ==> history != [] && VersionRefused(history, now, used, err.value)
  {
    if |history| == 0 {
      return None;
    }
    var bound, found;
    ghost var at;
    bound, found, at := KeyVersionAt(history, now);
    if !found {
      return Some(KeyBindingBroken);
    }
    forall i: nat | InForce(history, now, i)
      ensures i == at
    {
      InForceUnique(history, now, i, at);
    }
    if used < bound.version {
      return Some(KeyVersionSuperseded);
    }
    if used > bound.version {
      return Some(KeyBindingBroken);
    }
    if bound.revokedAt.Some? && now >= bound.revokedAt.value {
      return Some(Revoked);
    }
    return None;
  }

  // ---------------------------------------------------------------- the pipeline

  /** defaultChecks: the fixed pipeline order. */
  function DefaultChecks(): seq<CheckID> {
    [Structural, Signature, Authorization, AuthorityProof, ChainLink, RootAuthority, Temporal,
     Revocation, Identity, KeyBinding, Evidence, Provenance, CommitmentProof]
  }

  const CHECK_COUNT := 13

  /** Where a check stands in the pipeline. */
  function Position(id: CheckID): nat {
    match id
    case Structural => 0
    case Signature => 1
    case Authorization => 2
    case AuthorityProof => 3
    case ChainLink => 4
    case RootAuthority => 5
    case Temporal => 6
    case Revocation => 7
    case Identity => 8
    case KeyBinding => 9
    case Evidence => 10
    case Provenance => 11
    case CommitmentProof => 12
  }

  lemma ListedAt(id: CheckID)
    ensures Position(id) < CHECK_COUNT == |DefaultChecks()| && DefaultChecks()[Position(id)] == id
  {
  }

  lemma PositionAt(i: nat)
    requires i < CHECK_COUNT
    ensures |DefaultChecks()| == CHECK_COUNT && Position(DefaultChecks()[i]) == i
  {
  }

  function Prerequisite(id: CheckID): Option<CheckID> {
    match id
    case Structural => None
    case Signature => Some(Structural)
    case Authorization => Some(Signature)
    case AuthorityProof => Some(Authorization)
    case ChainLink => Some(AuthorityProof)
    case RootAuthority => Some(ChainLink)
    case KeyBinding => Some(Signature)
    case _ => Some(Structural)
  }

  /** The inputs Verify runs checks on. */
  ghost predicate Runnable(o: Outside, in_: Inputs) {
    && in_.attestation.Some? && in_.signingKey.Some? && in_.chain != []
    && o.attestationHashes && forall i :: 0 <= i < |in_.chain| ==> Ref(o.canon, in_.chain[i].authority).Some?
  }

  function Now(o: Outside, in_: Inputs): Time { if in_.now.Some? then in_.now.value else o.clock }

  /** Whether a check, if run, finds nothing wrong. The provenance trace is compared with one
      rebuilt from the same inputs. */
  ghost predicate Holds(o: Outside, in_: Inputs, id: CheckID)
    requires in_.attestation.Some? && in_.chain != []
  {
    var att, chain := in_.attestation.value, in_.chain;
    match id
    case Structural => o.structural
    case Signature => o.signature
    case Authorization => VerifyAuthorization(o.canon, att, chain[0].authority, o.ownClock).None?
    case AuthorityProof => AllProven(o.proof, chain)
    case ChainLink => Linked(o.canon, chain)
    case RootAuthority => chain[|chain| - 1].authority.parent.None?
    case Temporal => Current(att, chain, Now(o, in_))
    case Revocation => AllActive(chain)
    case Identity => o.identity
    case KeyBinding => VersionOk(in_.keyVersions, Now(o, in_), att.signingKeyVersion) && o.binding
    case Evidence => o.evidence
    case Provenance => true
    case CommitmentProof => o.commitment.Some? && o.commitment.value
  }

  /** Every check holds, but for a commitment check without a checker. */
  ghost predicate Valid(o: Outside, in_: Inputs) {
    && in_.attestation.Some? && in_.chain != []
    && forall id :: Holds(o, in_, id) || (id == CommitmentProof && o.commitment.None?)
  }

  /** What running a check yields: only the commitment check, without a checker, skips itself. */
  ghost function Outcome(o: Outside, in_: Inputs, id: CheckID): Status
    requires in_.attestation.Some? && in_.chain != []
  {
    if id == CommitmentProof && o.commitment.None? then Skipped
    else if Holds(o, in_, id) then Passed else Failed
  }

  /** The recorded status: skipped when the prerequisite is recorded as failed, else its outcome. */
  ghost function Recorded(o: Outside, in_: Inputs, id: CheckID): Status
    requires in_.attestation.Some? && in_.chain != []
    decreases Position(id)
  {
    var pre := Prerequisite(id);
    if pre.Some? && Recorded(o, in_, pre.value) == Failed then Skipped else Outcome(o, in_, id)
  }

  /** Hop i of the chain fails the given hop-scoped check. */
  predicate HopFails(o: Outside, in_: Inputs, id: CheckID, i: int) {
    && 0 <= i < |in_.chain|
    && var hop := in_.chain[i];
       match id
       case AuthorityProof => !o.proof(hop.authority, hop.publicKey)
       case ChainLink => i + 1 < |in_.chain| && LinkError(o.canon, hop.authority, in_.chain[i + 1].authority).Some?
       case Temporal => TemporalError(hop.authority.validity, Now(o, in_)).Some?
       case Revocation => RevocationError(hop.authority.status).Some?
       case _ => false
  }

  /** The hop a failed check names: the first that fails it, or none where the failure is not a hop's. */
  ghost predicate Offends(o: Outside, in_: Inputs, id: CheckID, hop: int)
    requires in_.attestation.Some?
  {
    if id == Temporal && TemporalError(in_.attestation.value.validity, Now(o, in_)).Some? then hop == -1
    else if id == AuthorityProof || id == ChainLink || id == Temporal || id == Revocation then
      HopFails(o, in_, id, hop) && forall k :: 0 <= k < hop ==> !HopFails(o, in_, id, k)
    else hop == -1
  }

  /** The error a failed check reports for the hop it names. */
  ghost predicate Governs(o: Outside, in_: Inputs, id: CheckID, hop: int, err: Sentinel)
    requires in_.attestation.Some? && in_.chain != []
  {
    var att, chain := in_.attestation.value, in_.chain;
    match id
    case Authorization =>
      var e := VerifyAuthorization(o.canon, att, chain[0].authority, o.ownClock);
      e.Some? && err == AuthorizationError(e.value)
    case AuthorityProof => err == AuthorityInvalid
    case ChainLink => 0 <= hop < |chain| - 1 && LinkError(o.canon, chain[hop].authority, chain[hop + 1].authority) == Some(err)
    case RootAuthority => err == NotRootAuthority
    case Temporal =>
      if hop == -1 then TemporalError(att.validity, Now(o, in_)) == Some(err)
      else 0 <= hop < |chain| && TemporalError(chain[hop].authority.validity, Now(o, in_)) == Some(err)
    case Revocation => 0 <= hop < |chain| && RevocationError(chain[hop].authority.status) == Some(err)
    case KeyBinding =>
      if VersionOk(in_.keyVersions, Now(o, in_), att.signingKeyVersion) then err == OutsideError
      else VersionRefused(in_.keyVersions, Now(o, in_), att.signingKeyVersion, err)
    case _ => err == OutsideError
  }

  method RunCheck(o: Outside, in_: Inputs, id: CheckID) returns (status: Status, err: Sentinel, hop: int)
    requires in_.attestation.Some? && in_.chain != []
    ensures status == Outcome(o, in_, id)
    ensures status == Failed ==> Offends(o, in_, id, hop) && Governs(o, in_, id, hop, err)
  {
    hide Linked, Current, AllActive, AllProven, VerifyAuthorization, InForce, LinkError, TemporalError, RevocationError;
    hide VersionOk, VersionRefused;
    var att, chain := in_.attestation.value, in_.chain;
    var e: Option<Sentinel>;
    hop := -1;
    match id {
      case Structural => e := Verdict(o.structural);
      case Signature => e := Verdict(o.signature);
      case Authorization =>
        var refused := VerifyAuthorization(o.canon, att, chain[0].authority, o.ownClock);
        e := if refused.Some? then Some(AuthorizationError(refused.value)) else None;
      case AuthorityProof => e, hop := CheckAuthorityProof(o.proof, chain);
      case ChainLink => e, hop := CheckChainLink(o.canon, chain);
      case RootAuthority => e := if chain[|chain| - 1].authority.parent.Some? then Some(NotRootAuthority) else None;
      case Temporal => e, hop := CheckTemporal(att, chain, Now(o, in_));
      case Revocation => e, hop := CheckRevocation(chain);
      case Identity => e := Verdict(o.identity);
      case KeyBinding =>
        e := CheckSigningKeyVersion(in_.keyVersions, Now(o, in_), att.signingKeyVersion);
        if e.None? {
          e := Verdict(o.binding);
        }
      case Evidence => e := Verdict(o.evidence);
      case Provenance => e := None;
      case CommitmentProof =>
        if o.commitment.None? {
          return Skipped, OutsideError, -1;
        }
        e := Verdict(o.commitment.value);
    }
    status := if e.None? then Passed else Failed;
    err := if e.Some? then e.value else OutsideError;
  }

  /** A verdict given from outside. */
  function Verdict(ok: bool): Option<Sentinel> { if ok then None else Some(OutsideError) }

  /** The statuses of the first i checks. */
  ghost function RecordedSeq(o: Outside, in_: Inputs, i: nat): (r: seq<(CheckID, Status)>)
    requires in_.attestation.Some? && in_.chain != [] && i <= CHECK_COUNT
    ensures |r| == i
  {
    if i == 0 then []
    else
      PositionAt(i - 1);
      var id := DefaultChecks()[i - 1];
      RecordedSeq(o, in_, i - 1) + [(id, Recorded(o, in_, id))]
  }

  /** The failed checks of a list of statuses, in order. */
  function FailedOf(checks: seq<(CheckID, Status)>): seq<CheckID> {
    if checks == [] then []
    else
      var init, last := FailedOf(checks[..|checks| - 1]), checks[|checks| - 1];
      if last.1 == Failed then init + [last.0] else init
  }

  function ChecksOf(failures: seq<Failure>): (r: seq<CheckID>)
    ensures |r| == |failures|
  {
    seq(|failures|, i requires 0 <= i < |failures| => failures[i].check)
  }

  /** prerequisiteFailed looks only at failed checks. */
  predicate PrerequisiteFailed(id: CheckID, failed: set<CheckID>) {
    Prerequisite(id).Some? && Prerequisite(id).value in failed
  }

  /** The failed map holds the failed checks among the first i. */
  ghost predicate FailedBefore(o: Outside, in_: Inputs, i: nat, failed: set<CheckID>)
    requires in_.attestation.Some? && in_.chain != []
  {
    forall id :: id in failed <==> Position(id) < i && Recorded(o, in_, id) == Failed
  }

  lemma RecordedStep(o: Outside, in_: Inputs, id: CheckID, failed: set<CheckID>)
    requires in_.attestation.Some? && in_.chain != [] && FailedBefore(o, in_, Position(id), failed)
    ensures Recorded(o, in_, id) == if PrerequisiteFailed(id, failed) then Skipped else Outcome(o, in_, id)
    ensures FailedBefore(o, in_, Position(id) + 1, if Recorded(o, in_, id) == Failed then failed + {id} else failed)
  {
    hide Holds, Outcome, Position, Prerequisite;
    PrerequisiteFirst(id);
    forall other: CheckID | Position(other) == Position(id)
      ensures other == id
    {
      PositionInjective(other, id);
    }
  }

  lemma PositionInjective(a: CheckID, b: CheckID)
    requires Position(a) == Position(b)
    ensures a == b
  {
  }

  lemma PrerequisiteFirst(id: CheckID)
    ensures Prerequisite(id).Some? ==> Position(Prerequisite(id).value) < Position(id)
  {
  }

  lemma FailedOfSnoc(checks: seq<(CheckID, Status)>, id: CheckID, status: Status)
    ensures FailedOf(checks + [(id, status)]) == if status == Failed then FailedOf(checks) + [id] else FailedOf(checks)
  {
    assert (checks + [(id, status)])[..|checks|] == checks;
  }

  /** A failure names the first offending hop and the error found there. */
  ghost predicate Explained(o: Outside, in_: Inputs, f: Failure) {
    in_.attestation.Some? && in_.chain != [] && Offends(o, in_, f.check, f.hop) && Governs(o, in_, f.check, f.hop, f.err)
  }

  /** Engine.Verify: the loop records, for every check in order, its status; failures lists the
      failed ones in that order, and the report is valid exactly when there is none. */
  method Verify(o: Outside, in_: Inputs) returns (r: Result<Report, InputError>)
    ensures r.Ok? <==> Runnable(o, in_)
    ensures r.Ok? ==> r.value.checks == RecordedSeq(o, in_, CHECK_COUNT)
    ensures r.Ok? ==> ChecksOf(r.value.failures) == FailedOf(r.value.checks)
    ensures r.Ok? ==> (r.value.valid <==> r.value.failures == []) && (r.value.valid <==> Valid(o, in_))
    ensures r.Ok? ==> forall k :: 0 <= k < |r.value.failures| ==> Explained(o, in_, r.value.failures[k])
    ensures r == Err(NilAttestation) <==> in_.attestation == None
    ensures r == Err(NilSigningKey) <==> in_.attestation != None && in_.signingKey == None
    ensures r == Err(EmptyChain) <==> in_.attestation != None && in_.signingKey != None && in_.chain == []
    ensures r == Err(InputError.HashFailed) <==>
            && in_.attestation != None && in_.signingKey != None && in_.chain != []
            && !(o.attestationHashes && forall hop :: hop in in_.chain ==> Ref(o.canon, hop.authority) != None)
  {
    hide Valid, Offends, Governs, Holds, Outcome, Recorded, DefaultChecks, Position, FailedBefore, FailedOf;
    if in_.attestation.None? {
      return Err(NilAttestation);
    }
    if in_.signingKey.None? {
      return Err(NilSigningKey);
    }
    if |in_.chain| == 0 {
      return Err(EmptyChain);
    }
    if !o.attestationHashes || !(forall i :: 0 <= i < |in_.chain| ==> Ref(o.canon, in_.chain[i].authority).Some?) {
      return Err(InputError.HashFailed);
    }
    var checks: seq<(CheckID, Status)> := [];
    var failures: seq<Failure> := [];
    var failed: set<CheckID> := {};
    NothingYet(o, in_);
    for i := 0 to CHECK_COUNT
      invariant checks == RecordedSeq(o, in_, i)
      invariant FailedBefore(o, in_, i, failed)
      invariant ChecksOf(failures) == FailedOf(checks)
      invariant forall k :: 0 <= k < |failures| ==> Explained(o, in_, failures[k])
    {
      PositionAt(i);
      var id := DefaultChecks()[i];
      RecordedStep(o, in_, id, failed);
      if PrerequisiteFailed(id, failed) {
        FailedOfSnoc(checks, id, Skipped);
        checks := checks + [(id, Skipped)];
      } else {
        var status, err, hop := RunCheck(o, in_, id);
        FailedOfSnoc(checks, id, status);
        if status == Failed {
          failed := failed + {id};
          assert ChecksOf(failures + [Failure(id, err, hop)]) == ChecksOf(failures) + [id];
          failures := failures + [Failure(id, err, hop)];
        }
        checks := checks + [(id, status)];
      }
    }
    ValidExactly(o, in_);
    assert |ChecksOf(failures)| == |failures|;
    r := Ok(Report(|failures| == 0, checks, failures));
  }

  lemma NothingYet(o: Outside, in_: Inputs)
    requires in_.attestation.Some? && in_.chain != []
    ensures FailedBefore(o, in_, 0, {}) && FailedOf([]) == []
  {
  }

  // ---------------------------------------------------------------- what Valid means

  lemma {:induction false} FailedOfRecorded(o: Outside, in_: Inputs, i: nat)
    requires in_.attestation.Some? && in_.chain != [] && i <= CHECK_COUNT
    ensures FailedOf(RecordedSeq(o, in_, i)) == [] <==> forall id :: Position(id) < i ==> Recorded(o, in_, id) != Failed
  {
    hide Holds, Outcome, Recorded, FailedOf, DefaultChecks;
    if i == 0 {
      NothingYet(o, in_);
    } else {
      PositionAt(i - 1);
      var last := DefaultChecks()[i - 1];
      FailedOfRecorded(o, in_, i - 1);
      FailedOfSnoc(RecordedSeq(o, in_, i - 1), last, Recorded(o, in_, last));
      forall id: CheckID | Position(id) == i - 1
        ensures id == last
      {
        ListedAt(id);
      }
    }
  }

  /** A recorded failure exists exactly when some check's own outcome is a failure: gating skips
      checks but never hides a problem. */
  lemma {:induction false} GatingHidesNothing(o: Outside, in_: Inputs, id: CheckID)
    requires in_.attestation.Some? && in_.chain != [] && Outcome(o, in_, id) == Failed
    ensures exists c :: Recorded(o, in_, c) == Failed
    decreases Position(id)
  {
    hide Holds, Outcome;
    if Recorded(o, in_, id) != Failed {
      var pre := Prerequisite(id).value;
      assert Recorded(o, in_, pre) == Failed;
    }
  }

  /** Valid exactly when every check passes on its own, but for a commitment check without a checker. */
  lemma ValidExactly(o: Outside, in_: Inputs)
    requires in_.attestation.Some? && in_.chain != []
    ensures FailedOf(RecordedSeq(o, in_, CHECK_COUNT)) == [] <==> Valid(o, in_)
  {
    hide Holds;
    FailedOfRecorded(o, in_, CHECK_COUNT);
    if forall id :: Position(id) < CHECK_COUNT ==> Recorded(o, in_, id) != Failed {
      forall id: CheckID
        ensures Holds(o, in_, id) || (id == CommitmentProof && o.commitment.None?)
      {
        if Outcome(o, in_, id) == Failed {
          GatingHidesNothing(o, in_, id);
        }
      }
    }
    if forall id :: Holds(o, in_, id) || (id == CommitmentProof && o.commitment.None?) {
      forall id: CheckID
        ensures Recorded(o, in_, id) != Failed
      {
        assert Outcome(o, in_, id) != Failed;
      }
    }
  }

  lemma {:induction false} RecordedAt(o: Outside, in_: Inputs, i: nat, id: CheckID)
    requires in_.attestation.Some? && in_.chain != [] && Position(id) < i <= CHECK_COUNT
    ensures RecordedSeq(o, in_, i)[Position(id)] == (id, Recorded(o, in_, id))
  {
    hide Recorded, DefaultChecks, Position;
    PositionAt(i - 1);
    ListedAt(id);
    if Position(id) < i - 1 {
      RecordedAt(o, in_, i - 1, id);
    }
  }

  /** In the report a check is listed as skipped exactly when its prerequisite is listed as failed, or it
      is the commitment check without a checker: a skip does not cascade. */
  lemma SkippedExactly(o: Outside, in_: Inputs, id: CheckID)
    requires in_.attestation.Some? && in_.chain != []
    ensures var checks, pre := RecordedSeq(o, in_, CHECK_COUNT), Prerequisite(id);
            && Position(id) < |checks| && checks[Position(id)].0 == id
            && (checks[Position(id)].1 == Skipped <==>
                || (pre.Some? && Position(pre.value) < |checks| && checks[Position(pre.value)] == (pre.value, Failed))
                || (id == CommitmentProof && o.commitment.None?))
  {
    hide Holds, DefaultChecks, Position, Prerequisite;
    ListedAt(id);
    RecordedAt(o, in_, CHECK_COUNT, id);
    if Prerequisite(id).Some? {
      ListedAt(Prerequisite(id).value);
      RecordedAt(o, in_, CHECK_COUNT, Prerequisite(id).value);
    }
  }

  /** What a valid report says, condition by condition. Every validity window holds the reference
      time at both ends; every status is active; every hop names the canonical hash of the next and
      is its subset; the last names no parent. */
  lemma ValidMeans(o: Outside, in_: Inputs)
    ensures Valid(o, in_) <==>
            && in_.attestation.Some? && in_.chain != []
            && (var att, chain := in_.attestation.value, in_.chain;
                var now := if in_.now.Some? then in_.now.value else o.clock;
                && o.structural && o.signature && o.identity && o.binding && o.evidence && o.commitment != Some(false)
                && VerifyAuthorization(o.canon, att, chain[0].authority, o.ownClock) == None
                && VersionOk(in_.keyVersions, now, att.signingKeyVersion)
                && att.validity.notBefore <= now <= att.validity.notAfter
                && (forall i :: 0 <= i < |chain| ==> HopSound(o, chain[i], now))
                && (forall i :: 0 < i < |chain| ==> DelegatedBy(o.canon, chain[i - 1].authority, chain[i].authority))
                && chain[|chain| - 1].authority.parent == None)
  {
    hide VerifyAuthorization, VersionOk, Linked, Current, AllActive, AllProven, DelegatedBy, HopSound;
    if in_.attestation.Some? && in_.chain != [] {
      var att, chain, now := in_.attestation.value, in_.chain, Now(o, in_);
      ValidByCheck(o, in_);
      LinkedExactly(o.canon, chain);
      HopsSoundExactly(o, att, chain, now);
    }
  }

  lemma HopsSoundExactly(o: Outside, att: Attestation, chain: seq<Hop>, now: Time)
    ensures AllProven(o.proof, chain) && AllActive(chain) && Current(att, chain, now) <==>
            att.validity.notBefore <= now <= att.validity.notAfter && forall i :: 0 <= i < |chain| ==> HopSound(o, chain[i], now)
  {
    hide AllActive, Current;
    CurrentExactly(att, chain, now);
    ActiveExactly(chain);
  }

  /** The version in force, written out: bound by now, bound latest with the highest version of that
      instant, the first such entry, the one the attestation names, and not revoked by now. */
  lemma VersionOkExactly(history: seq<KeyVersion>, now: Time, used: nat)
    ensures VersionOk(history, now, used) <==>
            history == [] ||
            exists i :: 0 <= i < |history| && InForceWith(history, now, i, used)
  {
    if history != [] {
      if i: nat :| InForce(history, now, i) && history[i].version == used
                   && (history[i].revokedAt.Some? ==> now < history[i].revokedAt.value) {
        assert InForceWith(history, now, i, used);
      }
      if i :| 0 <= i < |history| && InForceWith(history, now, i, used) {
        assert InForce(history, now, i);
      }
    }
  }

  ghost predicate InForceWith(history: seq<KeyVersion>, now: Time, i: int, used: nat)
    requires 0 <= i < |history|
  {
    var (at, version) := (history[i].boundAt, history[i].version);
    && at <= now && version == used && !(history[i].revokedAt.Some? && history[i].revokedAt.value <= now)
    && forall k :: 0 <= k < |history| && k != i && history[k].boundAt <= now ==>
         history[k].boundAt < at || (history[k].boundAt == at && history[k].version < version + if k < i then 0 else 1)
  }

  /** The hop's proof is good, its authority is active, and its window holds the reference time. */
  predicate HopSound(o: Outside, hop: Hop, now: Time) {
    && o.proof(hop.authority, hop.publicKey) && hop.authority.status == 1
    && hop.authority.validity.notBefore <= now <= hop.authority.validity.notAfter
  }

  predicate DelegatedBy(canon: Canon, child: Authority, parent: Authority) {
    child.parent.Some? && child.parent == Ref(canon, parent) && Delegation.VerifySubset(child, parent) == None
  }

  /** The window holds the reference time, both ends included. */
  predicate Holding(v: Validity, now: Time) { v.notBefore <= now <= v.notAfter }

  /** A hop-scoped failure names the first hop at fault, the others none: no hop before it fails the
      same check, and a failure of the attestation itself names none. */
  lemma FailureNamesFirst(o: Outside, in_: Inputs, f: Failure)
    requires Explained(o, in_, f)
    ensures var chain, hop, now := in_.chain, f.hop, Now(o, in_);
            match f.check
            case AuthorityProof =>
              && 0 <= hop < |chain| && !o.proof(chain[hop].authority, chain[hop].publicKey)
              && forall k :: 0 <= k < hop ==> o.proof(chain[k].authority, chain[k].publicKey)
            case ChainLink =>
              && 0 <= hop < |chain| - 1 && !DelegatedBy(o.canon, chain[hop].authority, chain[hop + 1].authority)
              && forall k :: 0 <= k < hop ==> DelegatedBy(o.canon, chain[k].authority, chain[k + 1].authority)
            case Temporal =>
              if hop == -1 then !Holding(in_.attestation.value.validity, now)
              else
                && Holding(in_.attestation.value.validity, now)
                && 0 <= hop < |chain| && !Holding(chain[hop].authority.validity, now)
                && forall k :: 0 <= k < hop ==> Holding(chain[k].authority.validity, now)
            case Revocation =>
              && 0 <= hop < |chain| && chain[hop].authority.status != 1
              && forall k :: 0 <= k < hop ==> chain[k].authority.status == 1
            case _ => hop == -1
  {
    hide Delegation.VerifySubset, VersionOk, VersionRefused, VerifyAuthorization, Ref;
    var chain, now := in_.chain, Now(o, in_);
    forall k | 0 <= k < f.hop
      ensures f.check == AuthorityProof ==> o.proof(chain[k].authority, chain[k].publicKey)
      ensures f.check == ChainLink ==> DelegatedBy(o.canon, chain[k].authority, chain[k + 1].authority)
      ensures f.check == Temporal ==> Holding(chain[k].authority.validity, now)
      ensures f.check == Revocation ==> chain[k].authority.status == 1
    {
      assert HopFails(o, in_, f.check, f.hop) ==> !HopFails(o, in_, f.check, k);
    }
  }

  lemma LinkedExactly(canon: Canon, chain: seq<Hop>)
    ensures Linked(canon, chain) <==> forall i :: 0 < i < |chain| ==> DelegatedBy(canon, chain[i - 1].authority, chain[i].authority)
  {
    hide Delegation.VerifySubset;
    if Linked(canon, chain) {
      forall i | 0 < i < |chain|
        ensures DelegatedBy(canon, chain[i - 1].authority, chain[i].authority)
      {
        assert LinkError(canon, chain[i - 1].authority, chain[i - 1 + 1].authority).None?;
      }
    } else {
      var i :| 0 <= i < |chain| - 1 && LinkError(canon, chain[i].authority, chain[i + 1].authority).Some?;
      assert !DelegatedBy(canon, chain[i + 1 - 1].authority, chain[i + 1].authority);
    }
  }

  lemma CurrentExactly(att: Attestation, chain: seq<Hop>, now: Time)
    ensures Current(att, chain, now) <==>
            && att.validity.notBefore <= now <= att.validity.notAfter
            && forall i :: 0 <= i < |chain| ==> chain[i].authority.validity.notBefore <= now <= chain[i].authority.validity.notAfter
  {
  }

  lemma ActiveExactly(chain: seq<Hop>)
    ensures AllActive(chain) <==> forall i :: 0 <= i < |chain| ==> chain[i].authority.status == 1
  {
  }

  /** What fails each check, written out. */
  ghost predicate FailsWhen(o: Outside, in_: Inputs, id: CheckID)
    requires in_.attestation.Some? && in_.chain != []
  {
    var att, chain, now := in_.attestation.value, in_.chain, Now(o, in_);
    match id
    case Structural => !o.structural
    case Signature => !o.signature
    case Authorization => VerifyAuthorization(o.canon, att, chain[0].authority, o.ownClock) != None
    case AuthorityProof => exists i :: 0 <= i < |chain| && !o.proof(chain[i].authority, chain[i].publicKey)
    case ChainLink => exists i :: 0 < i < |chain| && !DelegatedBy(o.canon, chain[i - 1].authority, chain[i].authority)
    case RootAuthority => chain[|chain| - 1].authority.parent != None
    case Temporal => !Holding(att.validity, now) || exists i :: 0 <= i < |chain| && !Holding(chain[i].authority.validity, now)
    case Revocation => exists i :: 0 <= i < |chain| && chain[i].authority.status != 1
    case Identity => !o.identity
    case KeyBinding => !VersionOk(in_.keyVersions, now, att.signingKeyVersion) || !o.binding
    case Evidence => !o.evidence
    case Provenance => false
    case CommitmentProof => o.commitment == Some(false)
  }

  /** A check fails exactly on those conditions; only a commitment check without a checker is skipped. */
  lemma FailsExactly(o: Outside, in_: Inputs, id: CheckID)
    requires in_.attestation.Some? && in_.chain != []
    ensures Outcome(o, in_, id) == Failed <==> FailsWhen(o, in_, id)
    ensures Outcome(o, in_, id) == Skipped <==> id == CommitmentProof && o.commitment == None
  {
    hide VerifyAuthorization, VersionOk, DelegatedBy, Linked, Current, AllActive;
    if id == ChainLink {
      LinkedExactly(o.canon, in_.chain);
    } else if id == Temporal {
      CurrentExactly(in_.attestation.value, in_.chain, Now(o, in_));
    } else if id == Revocation {
      ActiveExactly(in_.chain);
    }
  }

  lemma ValidByCheck(o: Outside, in_: Inputs)
    requires in_.attestation.Some? && in_.chain != []
    ensures Valid(o, in_) <==>
            && Holds(o, in_, Structural) && Holds(o, in_, Signature) && Holds(o, in_, Authorization)
            && Holds(o, in_, AuthorityProof) && Holds(o, in_, ChainLink) && Holds(o, in_, RootAuthority)
            && Holds(o, in_, Temporal) && Holds(o, in_, Revocation) && Holds(o, in_, Identity)
            && Holds(o, in_, KeyBinding) && Holds(o, in_, Evidence) && Holds(o, in_, Provenance)
            && (o.commitment.None? || Holds(o, in_, CommitmentProof))
  {
    hide Holds;
  }

  /** Which error a link carries: that of the first condition broken, in this order. */
  lemma LinkErrorExactly(canon: Canon, child: Authority, parent: Authority)
    ensures var e := LinkError(canon, child, parent);
            var named := Ref(canon, parent) != None && child.parent == Ref(canon, parent);
            var v := Delegation.VerifySubset(child, parent);
            && (e == Some(AuthorityInvalid) <==> Ref(canon, parent) == None)
            && (e == Some(ChainBroken) <==> Ref(canon, parent) != None && !named)
            && (e == Some(Sentinel.CapabilityNotGranted) <==> named && v == Some(Delegation.CapabilityEscalation))
            && (e == Some(ScopeViolation) <==>
                  named && (v == Some(Delegation.ScopeEscalation) || v == Some(Delegation.ValidityEscalation)))
            && (e == Some(DelegationDepth) <==> named && v == Some(Delegation.DepthEscalation))
            && (e == None <==> named && v == None)
  {
    assert Delegation.VerifySubset(child, parent) != Some(Delegation.HashFailed);
  }

  /** Which error a window, a status and a refused authorization carry. */
  lemma HopErrorsExactly(v: Validity, now: Time, status: int, e: Attestations.Error)
    ensures TemporalError(v, now) == Some(NotYetValid) <==> now < v.notBefore
    ensures TemporalError(v, now) == Some(Expired) <==> v.notBefore <= now && v.notAfter < now
    ensures RevocationError(status) == Some(Revoked) <==> status == 2
    ensures RevocationError(status) == Some(Superseded) <==> status == 3
    ensures RevocationError(status) == Some(Expired) <==> status == 4
    ensures RevocationError(status) == Some(AuthorityInvalid) <==> !(1 <= status <= 4)
    ensures AuthorizationError(e) == Sentinel.CapabilityNotGranted <==> e == Attestations.Error.CapabilityNotGranted
    ensures AuthorizationError(e) == ScopeViolation <==> e == AuthorizationScope
    ensures AuthorizationError(e) in {AuthorityInvalid, Sentinel.CapabilityNotGranted, ScopeViolation}
  {
  }

  /** What gates what: the signature needs the structure, and so on up the chain of authority; every
      other check needs the structure, but for the key binding, which needs the signature. */
  lemma GatesExactly()
    ensures var gates := map[
              Signature := Structural, Authorization := Signature, AuthorityProof := Authorization,
              ChainLink := AuthorityProof, RootAuthority := ChainLink, Temporal := Structural,
              Revocation := Structural, Identity := Structural, KeyBinding := Signature,
              Evidence := Structural, Provenance := Structural, CommitmentProof := Structural];
            forall id :: Prerequisite(id) == if id in gates then Some(gates[id]) else None
  {
  }
}
