/** Staff of a centre as a state machine: registrations, logins, one-time codes, activations,
    revocations and provisioning, each handler one step. The log lists the grants in order, as the
    audit trail does. */
module StaffProtocol {
  import opened ByteStrings
  import opened OneTimeCode
  import opened StaffRules

  datatype Identity = Identity(role: Role, centre: Option<Id>, status: Status, boundIp: Option<string>,
                               boundTerminal: Option<Id>, createdAt: int, revokedAt: Option<int>)

  /** What a verified session token says. The MAC is ideal: exactly issued tokens verify. */
  datatype Session = Session(sub: Id, terminal: Id, role: Role, centre: Option<Id>, exp: int)

  datatype Event =
    | LoggedIn(id: Id, role: Role, centre: Option<Id>, at: int)
    | Issued(request: Id, approver: Id, role: Role, centre: Option<Id>, at: int, hash: Bytes)
    | FpAuthorised(request: Id, approver: Id, role: Role, centre: Option<Id>, at: int)
    | Activated(request: Id, id: Id, role: Role, centre: Option<Id>, at: int, typed: string, matched: bool)

  datatype Staff = Staff(identities: map<Id, Identity>, approvals: map<Id, ApprovalRecord>,
                         sessions: set<Session>, clock: int, log: seq<Event>)

  datatype Step =
    | Tick(now: int)
    | Register(kind: Kind, identity: Id, request: Id, centre: Id, ip: Option<string>, boundTerminal: Option<Id>)
    | Login(role: Role, terminal: Id, id: Id, factors: Factors)
    | Issue(session: Session, request: Id, code: string, salt: Bytes, systemRoute: bool)
    | AuthoriseFp(session: Session, request: Id, systemRoute: bool)
    | ActivateIdentity(request: Id, code: string, fingerprintMatches: bool)
    | Revoke(session: Session, target: Id)
    | Provision(id: Id, role: Role, centre: Id, status: Status)

  const IDLE_MS: int := 8 * 60 * 1000

  // ---------- Queries and guards ----------

  /** The `revoked` flag of `rowToIdentity`. */
  predicate IsRevoked(i: Identity) {
    i.status == Revoked || i.revokedAt.Some?
  }

  /** `verifyToken`. */
  predicate TokenAccepted(s: Staff, t: Session) {
    t in s.sessions && s.clock <= t.exp
  }

  /** `findStaffByStation`: among the identities of this role bound to the terminal, one created
      last. */
  predicate AtStation(s: Staff, role: Role, terminal: Id, id: Id) {
    && id in s.identities && s.identities[id].role == role && s.identities[id].boundTerminal == Some(terminal)
    && forall o :: o in s.identities && s.identities[o].role == role && s.identities[o].boundTerminal == Some(terminal)
         ==> s.identities[o].createdAt <= s.identities[id].createdAt
  }

  predicate LoginSucceeds(s: Staff, role: Role, terminal: Id, id: Id, f: Factors) {
    && AtStation(s, role, terminal, id)
    && LoginOk(f, Facts(s.identities[id].boundIp, s.identities[id].status, IsRevoked(s.identities[id])))
  }

  /** The guard of issue-code and authorise-fp, on either route. */
  predicate MayApprove(s: Staff, t: Session, request: Id, systemRoute: bool) {
    && TokenAccepted(s, t) && request in s.approvals
    && (systemRoute ==> t.role == SystemAdmin && s.approvals[request].kind == CentreAdminRegistration)
    && CanApprove(t.role, s.approvals[request].kind, t.centre, s.approvals[request].centre)
  }

  /** The unique index `one_active_center_admin` would be violated by making `id` ACTIVE in this
      role and centre. */
  predicate SecondAdmin(s: Staff, id: Id, role: Role, centre: Option<Id>) {
    role == CentreAdmin && centre.Some?
    && exists o :: o in s.identities && o != id && s.identities[o].role == CentreAdmin
         && s.identities[o].centre == centre && s.identities[o].status == Active
  }

  predicate MayRevoke(s: Staff, t: Session, target: Id) {
    && TokenAccepted(s, t) && t.role == CentreAdmin && t.centre.Some?
    && target in s.identities && s.identities[target].centre == t.centre
  }

  function RoleOf(kind: Kind): Role {
    match kind case InvigilatorRegistration => Invigilator case CentreAdminRegistration => CentreAdmin
  }

  // ---------- Steps ----------

  function DoRegister(s: Staff, kind: Kind, identity: Id, request: Id, centre: Id, ip: Option<string>,
                      terminal: Option<Id>): Staff {
    s.(identities := s.identities[identity :=
         Identity(RoleOf(kind), Some(centre), PendingApproval, ip, terminal, s.clock, None)],
       approvals := s.approvals[request :=
         ApprovalRecord(request, kind, identity, Some(centre), None, None, false, false, PendingApproval)])
  }

  function SessionFor(s: Staff, role: Role, terminal: Id, id: Id): Session
    requires id in s.identities
  {
    Session(id, terminal, role, if role == SystemAdmin then None else s.identities[id].centre, s.clock + IDLE_MS)
  }

  function DoLogin(s: Staff, role: Role, terminal: Id, id: Id, f: Factors): Staff {
    if LoginSucceeds(s, role, terminal, id, f) then
      var t := SessionFor(s, role, terminal, id);
      s.(sessions := s.sessions + {t}, log := s.log + [LoggedIn(id, role, t.centre, s.clock)])
    else s
  }

  function DoIssue(c: CodeHash, s: Staff, t: Session, request: Id, code: string, salt: Bytes,
                   systemRoute: bool): Staff {
    if MayApprove(s, t, request, systemRoute) then
      s.(approvals := s.approvals[request := IssueCode(c, s.approvals[request], code, salt, s.clock)],
         log := s.log + [Issued(request, t.sub, t.role, t.centre, s.clock, c.hash(Normalize(code), salt))])
    else s
  }

  function DoAuthoriseFp(s: Staff, t: Session, request: Id, systemRoute: bool): Staff {
    if MayApprove(s, t, request, systemRoute) then
      s.(approvals := s.approvals[request := AuthoriseFingerprint(s.approvals[request])],
         log := s.log + [FpAuthorised(request, t.sub, t.role, t.centre, s.clock)])
    else s
  }

  /** The transaction of `activate`; a unique violation rolls it back, code and all. */
  function DoActivate(c: CodeHash, s: Staff, request: Id, code: string, fingerprintMatches: bool): Staff {
    if request !in s.approvals || s.approvals[request].applicant !in s.identities then s
    else
      var r := Activate(c, s.approvals[request], code, fingerprintMatches, s.clock);
      var id := s.approvals[request].applicant;
      var i := s.identities[id];
      if r.Denied? || SecondAdmin(s, id, i.role, i.centre) then s
      else s.(approvals := s.approvals[request := r.record],
              identities := s.identities[id := i.(status := Active)],
              log := s.log + [Activated(request, id, i.role, i.centre, s.clock, code, fingerprintMatches)])
  }

  function DoRevoke(s: Staff, t: Session, target: Id): Staff {
    if MayRevoke(s, t, target) then
      s.(identities := s.identities[target := s.identities[target].(status := Revoked, revokedAt := Some(s.clock))])
    else s
  }

  /** One staff row of a provisioning bundle: insert, or update role, centre and status. */
  function DoProvision(s: Staff, id: Id, role: Role, centre: Id, status: Status): Staff {
    if status == Active && SecondAdmin(s, id, role, Some(centre)) then s
    else if id in s.identities then
      s.(identities := s.identities[id := s.identities[id].(role := role, centre := Some(centre), status := status)])
    else
      s.(identities := s.identities[id := Identity(role, Some(centre), status, None, None, s.clock, None)])
  }

  /** The clock does not run backwards, and registration rows get new identifiers. */
  predicate Enabled(s: Staff, step: Step) {
    match step
    case Tick(now) => s.clock <= now
    case Register(_, identity, request, _, _, _) => identity !in s.identities && request !in s.approvals
    case _ => true
  }

  function Apply(c: CodeHash, s: Staff, step: Step): Staff {
    match step
    case Tick(now) => s.(clock := now)
    case Register(kind, identity, request, centre, ip, terminal) =>
      DoRegister(s, kind, identity, request, centre, ip, terminal)
    case Login(role, terminal, id, f) => DoLogin(s, role, terminal, id, f)
    case Issue(t, request, code, salt, systemRoute) => DoIssue(c, s, t, request, code, salt, systemRoute)
    case AuthoriseFp(t, request, systemRoute) => DoAuthoriseFp(s, t, request, systemRoute)
    case ActivateIdentity(request, code, fingerprintMatches) => DoActivate(c, s, request, code, fingerprintMatches)
    case Revoke(t, target) => DoRevoke(s, t, target)
    case Provision(id, role, centre, status) => DoProvision(s, id, role, centre, status)
  }

  ghost predicate IsRun(c: CodeHash, states: seq<Staff>, steps: seq<Step>) {
    && |states| == |steps| + 1
    && forall i :: 0 <= i < |steps| ==> Enabled(states[i], steps[i]) && states[i + 1] == Apply(c, states[i], steps[i])
  }

  /** Provisioning is over: no provisioning step occurs. */
  ghost predicate NoProvisioning(steps: seq<Step>) {
    forall i :: 0 <= i < |steps| ==> !steps[i].Provision?
  }

  // ======================= One active Centre Admin =======================

  ghost predicate OneAdmin(s: Staff) {
    forall x, y :: x in s.identities && y in s.identities && x != y
      && s.identities[x].role == s.identities[y].role == CentreAdmin
      && s.identities[x].status == s.identities[y].status == Active
      ==> s.identities[x].centre != s.identities[y].centre || s.identities[x].centre.None?
  }

  lemma ActivateKeepsOneAdmin(c: CodeHash, s: Staff, request: Id, code: string, fp: bool)
    requires OneAdmin(s)
    ensures OneAdmin(DoActivate(c, s, request, code, fp))
  {
  }

  lemma ProvisionKeepsOneAdmin(s: Staff, id: Id, role: Role, centre: Id, status: Status)
    requires OneAdmin(s)
    ensures OneAdmin(DoProvision(s, id, role, centre, status))
  {
  }

  /** At most one ACTIVE Centre Admin per centre, whatever happens. */
  lemma StepKeepsOneAdmin(c: CodeHash, s: Staff, step: Step)
    requires OneAdmin(s) && Enabled(s, step)
    ensures OneAdmin(Apply(c, s, step))
  {
    match step
    case ActivateIdentity(request, code, fp) => ActivateKeepsOneAdmin(c, s, request, code, fp);
    case Provision(id, role, centre, status) => ProvisionKeepsOneAdmin(s, id, role, centre, status);
    case _ =>
  }

  lemma {:induction false} RunKeepsOneAdmin(c: CodeHash, states: seq<Staff>, steps: seq<Step>, n: nat)
    requires IsRun(c, states, steps) && OneAdmin(states[0]) && n < |states|
    ensures OneAdmin(states[n])
  {
    if n > 0 {
      RunKeepsOneAdmin(c, states, steps, n - 1);
      StepKeepsOneAdmin(c, states[n - 1], steps[n - 1]);
    }
  }

  // ======================= The trust cascade =======================

  /** An approver's tier over an applicant. */
  predicate RightTier(approver: Role, approverCentre: Option<Id>, role: Role, centre: Option<Id>) {
    || (approver == SystemAdmin && role == CentreAdmin)
    || (approver == CentreAdmin && approverCentre.Some? && role == Invigilator && approverCentre == centre)
  }

  /** Event `k` is an activation by the code issued at event `i`: what was typed verifies against the
      hash stored then and the finger matched; that code is the last one issued for the request, at
      most CODE_TTL_MS old and not used in between; the approver is of the right tier and had logged
      in at event `l`, at most IDLE_MS earlier. */
  ghost predicate AuthorisedBy(c: CodeHash, log: seq<Event>, k: int, i: int, l: int) {
    && 0 <= l < i < k < |log|
    && log[k].Activated? && log[i].Issued? && log[l].LoggedIn?
    && log[i].request == log[k].request
    && c.verify(Normalize(log[k].typed), log[i].hash) && log[k].matched
    && log[i].at <= log[k].at <= log[i].at + CODE_TTL_MS
    && RightTier(log[i].role, log[i].centre, log[k].role, log[k].centre)
    && log[l] == LoggedIn(log[i].approver, log[i].role, log[i].centre, log[l].at)
    && log[l].at <= log[i].at <= log[l].at + IDLE_MS
    && forall j :: i < j < k ==> !Concerns(log[j], log[k].request)
  }

  /** A code of this request is issued or used. */
  predicate Concerns(e: Event, request: Id) {
    (e.Issued? || e.Activated?) && e.request == request
  }

  ghost predicate InitiallyActive(init: map<Id, Identity>, id: Id) {
    id in init && init[id].status == Active
  }

  /** By the end of the log `id` had become ACTIVE rightfully: it was so from the start, or a code
      of a trusted approver made it so. Each link goes back in the log, so the chain ends at an
      identity that was ACTIVE from the start. */
  ghost predicate Trusted(c: CodeHash, init: map<Id, Identity>, log: seq<Event>, id: Id)
    decreases |log|
  {
    || InitiallyActive(init, id)
    || exists k, i, l :: AuthorisedBy(c, log, k, i, l) && log[k].id == id && Trusted(c, init, log[..l], log[i].approver)
  }

  lemma AuthorisedExtends(c: CodeHash, log: seq<Event>, e: Event, k: int, i: int, l: int)
    requires AuthorisedBy(c, log, k, i, l)
    ensures AuthorisedBy(c, log + [e], k, i, l)
  {
  }

  lemma TrustedExtends(c: CodeHash, init: map<Id, Identity>, log: seq<Event>, e: Event, id: Id)
    requires Trusted(c, init, log, id)
    ensures Trusted(c, init, log + [e], id)
  {
    if !InitiallyActive(init, id) {
      var k, i, l :| AuthorisedBy(c, log, k, i, l) && log[k].id == id && Trusted(c, init, log[..l], log[i].approver);
      AuthorisedExtends(c, log, e, k, i, l);
      assert (log + [e])[..l] == log[..l];
    }
  }

  // ---------- What every state keeps ----------

  ghost predicate ActiveAreTrusted(c: CodeHash, init: map<Id, Identity>, s: Staff) {
    forall id :: id in s.identities && s.identities[id].status == Active ==> Trusted(c, init, s.log, id)
  }

  /** Every login was by an identity trusted at that point of the log. */
  ghost predicate LoginTrusted(c: CodeHash, init: map<Id, Identity>, log: seq<Event>, l: int) {
    0 <= l < |log| && log[l].LoggedIn? ==> Trusted(c, init, log[..l], log[l].id)
  }

  ghost predicate LoginsAreTrusted(c: CodeHash, init: map<Id, Identity>, log: seq<Event>) {
    forall l :: 0 <= l < |log| ==> LoginTrusted(c, init, log, l)
  }

  /** Event `l` is the login that opened the session. */
  ghost predicate Opened(log: seq<Event>, t: Session, l: int) {
    0 <= l < |log| && log[l] == LoggedIn(t.sub, t.role, t.centre, t.exp - IDLE_MS)
  }

  ghost predicate SessionsAreLogins(s: Staff) {
    forall t: Session :: t in s.sessions ==> exists l :: Opened(s.log, t, l)
  }

  ghost predicate TimesPast(s: Staff) {
    forall k :: 0 <= k < |s.log| ==> s.log[k].at <= s.clock
  }

  /** Event `i` issued the outstanding code of the record, after the approver's login `l`. */
  ghost predicate CodeFrom(log: seq<Event>, r: ApprovalRecord, i: int, l: int) {
    && 0 <= l < i < |log| && log[i].Issued? && log[i].request == r.id
    && r.codeHash == Some(log[i].hash) && r.codeTtl == Some(log[i].at + CODE_TTL_MS)
    && CanApprove(log[i].role, r.kind, log[i].centre, r.centre)
    && log[l] == LoggedIn(log[i].approver, log[i].role, log[i].centre, log[l].at)
    && log[l].at <= log[i].at <= log[l].at + IDLE_MS
    && (!r.codeConsumed ==> forall j :: i < j < |log| ==> !Concerns(log[j], r.id))
  }

  ghost predicate RecordOk(s: Staff, request: Id)
    requires request in s.approvals
  {
    var r := s.approvals[request];
    && r.id == request && r.applicant in s.identities
    && s.identities[r.applicant].role == RoleOf(r.kind) && s.identities[r.applicant].centre == r.centre
    && (r.codeHash.Some? ==> exists i, l :: CodeFrom(s.log, r, i, l))
  }

  ghost predicate RecordsOk(s: Staff) {
    forall request :: request in s.approvals ==> RecordOk(s, request)
  }

  /** Activation `k` was authorised, by an approver trusted at the time of the login. */
  ghost predicate Rightful(c: CodeHash, init: map<Id, Identity>, log: seq<Event>, k: int) {
    exists i, l :: AuthorisedBy(c, log, k, i, l) && Trusted(c, init, log[..l], log[i].approver)
  }

  ghost predicate Justified(c: CodeHash, init: map<Id, Identity>, log: seq<Event>, k: int) {
    0 <= k < |log| && log[k].Activated? ==> Rightful(c, init, log, k)
  }

  ghost predicate ActivationsAreJustified(c: CodeHash, init: map<Id, Identity>, log: seq<Event>) {
    forall k :: 0 <= k < |log| ==> Justified(c, init, log, k)
  }

  ghost predicate CascadeInv(c: CodeHash, init: map<Id, Identity>, s: Staff) {
    && ActiveAreTrusted(c, init, s) && LoginsAreTrusted(c, init, s.log) && SessionsAreLogins(s) && TimesPast(s)
    && RecordsOk(s) && ActivationsAreJustified(c, init, s.log)
  }

  // ---------- Appending an event ----------

  lemma LoginsExtend(c: CodeHash, init: map<Id, Identity>, log: seq<Event>, e: Event)
    requires LoginsAreTrusted(c, init, log) && (e.LoggedIn? ==> Trusted(c, init, log, e.id))
    ensures LoginsAreTrusted(c, init, log + [e])
  {
    var log' := log + [e];
    forall l | 0 <= l < |log'| ensures LoginTrusted(c, init, log', l) {
      if l < |log| {
        assert LoginTrusted(c, init, log, l) && log'[..l] == log[..l];
      } else {
        assert log'[..l] == log;
      }
    }
  }

  lemma JustifiedExtend(c: CodeHash, init: map<Id, Identity>, log: seq<Event>, e: Event)
    requires ActivationsAreJustified(c, init, log) && !e.Activated?
    ensures ActivationsAreJustified(c, init, log + [e])
  {
    forall k | 0 <= k < |log + [e]| ensures Justified(c, init, log + [e], k) {
      if k < |log| && log[k].Activated? {
        assert Justified(c, init, log, k);
        JustifiedExtendsAt(c, init, log, e, k);
      }
    }
  }

  lemma JustifiedExtendsAt(c: CodeHash, init: map<Id, Identity>, log: seq<Event>, e: Event, k: int)
    requires 0 <= k < |log| && log[k].Activated? && Justified(c, init, log, k)
    ensures Justified(c, init, log + [e], k)
  {
    var i, l :| AuthorisedBy(c, log, k, i, l) && Trusted(c, init, log[..l], log[i].approver);
    AuthorisedExtends(c, log, e, k, i, l);
    assert (log + [e])[..l] == log[..l];
  }

  lemma SessionsExtend(s: Staff, s': Staff, e: Event)
    requires SessionsAreLogins(s) && s'.sessions == s.sessions && s'.log == s.log + [e]
    ensures SessionsAreLogins(s')
  {
    forall t | t in s'.sessions ensures exists l :: Opened(s'.log, t, l) {
      var l :| Opened(s.log, t, l);
      assert Opened(s'.log, t, l);
    }
  }

  lemma CodeExtends(log: seq<Event>, r: ApprovalRecord, e: Event)
    requires exists i, l :: CodeFrom(log, r, i, l)
    requires r.codeConsumed || !Concerns(e, r.id)
    ensures exists i, l :: CodeFrom(log + [e], r, i, l)
  {
    var i, l :| CodeFrom(log, r, i, l);
    assert CodeFrom(log + [e], r, i, l);
  }

  /** Records other than the one an event concerns are untouched by it. */
  lemma RecordExtends(s: Staff, s': Staff, request: Id, e: Event)
    requires request in s.approvals && RecordOk(s, request) && request in s'.approvals
    requires s'.approvals[request] == s.approvals[request] && s'.log == s.log + [e]
    requires !Concerns(e, request)
    requires s.approvals[request].applicant in s'.identities
    requires s'.identities[s.approvals[request].applicant].role == s.identities[s.approvals[request].applicant].role
    requires s'.identities[s.approvals[request].applicant].centre == s.identities[s.approvals[request].applicant].centre
    ensures RecordOk(s', request)
  {
    if s.approvals[request].codeHash.Some? {
      CodeExtends(s.log, s.approvals[request], e);
    }
  }

  // ---------- The steps ----------

  lemma LoginKeepsCascade(c: CodeHash, init: map<Id, Identity>, s: Staff, role: Role, terminal: Id, id: Id, f: Factors)
    requires CascadeInv(c, init, s) && LoginSucceeds(s, role, terminal, id, f)
    ensures CascadeInv(c, init, DoLogin(s, role, terminal, id, f))
  {
    var s' := DoLogin(s, role, terminal, id, f);
    var t := SessionFor(s, role, terminal, id);
    var e := LoggedIn(id, role, t.centre, s.clock);
    assert s'.log == s.log + [e];
    forall o | o in s'.identities && s'.identities[o].status == Active ensures Trusted(c, init, s'.log, o) {
      TrustedExtends(c, init, s.log, e, o);
    }
    LoginsExtend(c, init, s.log, e);
    JustifiedExtend(c, init, s.log, e);
    SessionsExtend(s, s'.(sessions := s.sessions), e);
    forall u | u in s'.sessions ensures exists l :: Opened(s'.log, u, l) {
      if u in s.sessions {
        assert exists l :: Opened(s'.(sessions := s.sessions).log, u, l);
      } else {
        assert Opened(s'.log, t, |s.log|);
      }
    }
    forall request | request in s'.approvals ensures RecordOk(s', request) {
      assert RecordOk(s, request);
      RecordExtends(s, s', request, e);
    }
  }

  lemma IssueKeepsCascade(c: CodeHash, init: map<Id, Identity>, s: Staff, t: Session, request: Id, code: string,
                          salt: Bytes, systemRoute: bool)
    requires CascadeInv(c, init, s) && MayApprove(s, t, request, systemRoute)
    ensures CascadeInv(c, init, DoIssue(c, s, t, request, code, salt, systemRoute))
  {
    var s' := DoIssue(c, s, t, request, code, salt, systemRoute);
    var e := Issued(request, t.sub, t.role, t.centre, s.clock, c.hash(Normalize(code), salt));
    assert s'.log == s.log + [e];
    forall o | o in s'.identities && s'.identities[o].status == Active ensures Trusted(c, init, s'.log, o) {
      TrustedExtends(c, init, s.log, e, o);
    }
    LoginsExtend(c, init, s.log, e);
    JustifiedExtend(c, init, s.log, e);
    SessionsExtend(s, s', e);
    forall q | q in s'.approvals ensures RecordOk(s', q) {
      assert RecordOk(s, q);
      if q == request {
        var l :| Opened(s.log, t, l);
        assert CodeFrom(s'.log, s'.approvals[request], |s.log|, l);
      } else {
        RecordExtends(s, s', q, e);
      }
    }
  }

  lemma AuthoriseFpKeepsCascade(c: CodeHash, init: map<Id, Identity>, s: Staff, t: Session, request: Id,
                                systemRoute: bool)
    requires CascadeInv(c, init, s) && MayApprove(s, t, request, systemRoute)
    ensures CascadeInv(c, init, DoAuthoriseFp(s, t, request, systemRoute))
  {
    var s' := DoAuthoriseFp(s, t, request, systemRoute);
    var e := FpAuthorised(request, t.sub, t.role, t.centre, s.clock);
    assert s'.log == s.log + [e];
    forall o | o in s'.identities && s'.identities[o].status == Active ensures Trusted(c, init, s'.log, o) {
      TrustedExtends(c, init, s.log, e, o);
    }
    LoginsExtend(c, init, s.log, e);
    JustifiedExtend(c, init, s.log, e);
    SessionsExtend(s, s', e);
    forall q | q in s'.approvals ensures RecordOk(s', q) {
      assert RecordOk(s, q);
      if q == request {
        if s.approvals[q].codeHash.Some? {
          var i, l :| CodeFrom(s.log, s.approvals[q], i, l);
          assert CodeFrom(s'.log, s'.approvals[q], i, l);
        }
      } else {
        RecordExtends(s, s', q, e);
      }
    }
  }

  lemma ActivateIsAuthorised(c: CodeHash, init: map<Id, Identity>, s: Staff, request: Id, code: string, fp: bool)
    returns (i: int, l: int)
    requires CascadeInv(c, init, s) && request in s.approvals
    requires Activate(c, s.approvals[request], code, fp, s.clock).Granted?
    ensures var id := s.approvals[request].applicant;
      && id in s.identities
      && AuthorisedBy(c, s.log
        + [Activated(request, id, s.identities[id].role, s.identities[id].centre, s.clock, code, fp)], |s.log|, i, l)
      && i < |s.log| && s.log[i].Issued? && Trusted(c, init, s.log[..l], s.log[i].approver)
  {
    assert RecordOk(s, request);
    var r := s.approvals[request];
    i, l :| CodeFrom(s.log, r, i, l);
    assert LoginTrusted(c, init, s.log, l);
  }

  lemma ActivateKeepsTrust(c: CodeHash, init: map<Id, Identity>, s: Staff, request: Id, code: string, fp: bool)
    requires CascadeInv(c, init, s) && DoActivate(c, s, request, code, fp) != s
    ensures ActiveAreTrusted(c, init, DoActivate(c, s, request, code, fp))
    ensures Rightful(c, init, DoActivate(c, s, request, code, fp).log, |s.log|)
  {
    var s' := DoActivate(c, s, request, code, fp);
    var id := s.approvals[request].applicant;
    var e := Activated(request, id, s.identities[id].role, s.identities[id].centre, s.clock, code, fp);
    assert s'.log == s.log + [e];
    var i, l := ActivateIsAuthorised(c, init, s, request, code, fp);
    assert s'.log[..l] == s.log[..l] && s'.log[i] == s.log[i];
    assert Trusted(c, init, s'.log, id);
    forall o | o in s'.identities && s'.identities[o].status == Active ensures Trusted(c, init, s'.log, o) {
      if o != id {
        TrustedExtends(c, init, s.log, e, o);
      }
    }
  }

  lemma JustifiedGrows(c: CodeHash, init: map<Id, Identity>, log: seq<Event>, e: Event)
    requires ActivationsAreJustified(c, init, log) && Rightful(c, init, log + [e], |log|)
    ensures ActivationsAreJustified(c, init, log + [e])
  {
    forall k | 0 <= k < |log + [e]| ensures Justified(c, init, log + [e], k) {
      if k < |log| && log[k].Activated? {
        assert Justified(c, init, log, k);
        JustifiedExtendsAt(c, init, log, e, k);
      }
    }
  }

  lemma ActivateKeepsRecords(c: CodeHash, s: Staff, request: Id, code: string, fp: bool)
    requires RecordsOk(s) && DoActivate(c, s, request, code, fp) != s
    ensures RecordsOk(DoActivate(c, s, request, code, fp))
  {
    var s' := DoActivate(c, s, request, code, fp);
    var id := s.approvals[request].applicant;
    var e := Activated(request, id, s.identities[id].role, s.identities[id].centre, s.clock, code, fp);
    assert s'.log == s.log + [e];
    forall q | q in s'.approvals ensures RecordOk(s', q) {
      assert RecordOk(s, q);
      if q == request {
        CodeUsed(s.log, s.approvals[request], s'.approvals[request], e);
      } else {
        RecordExtends(s, s', q, e);
      }
    }
  }

  /** A consumed code keeps its origin. */
  lemma CodeUsed(log: seq<Event>, r: ApprovalRecord, r': ApprovalRecord, e: Event)
    requires exists i, l :: CodeFrom(log, r, i, l)
    requires r' == r.(codeConsumed := true, status := Active)
    ensures exists i, l :: CodeFrom(log + [e], r', i, l)
  {
    var i, l :| CodeFrom(log, r, i, l);
    assert CodeFrom(log + [e], r', i, l);
  }

  lemma ActivateKeepsCascade(c: CodeHash, init: map<Id, Identity>, s: Staff, request: Id, code: string, fp: bool)
    requires CascadeInv(c, init, s) && DoActivate(c, s, request, code, fp) != s
    ensures CascadeInv(c, init, DoActivate(c, s, request, code, fp))
  {
    var s' := DoActivate(c, s, request, code, fp);
    var e := s'.log[|s.log|];
    assert s'.log == s.log + [e];
    ActivateKeepsTrust(c, init, s, request, code, fp);
    JustifiedGrows(c, init, s.log, e);
    ActivateKeepsRecords(c, s, request, code, fp);
    LoginsExtend(c, init, s.log, e);
    SessionsExtend(s, s', e);
  }

  /** Steps without a log entry that create no ACTIVE identity. */
  lemma QuietStepKeepsCascade(c: CodeHash, init: map<Id, Identity>, s: Staff, step: Step)
    requires CascadeInv(c, init, s) && Enabled(s, step)
    requires step.Tick? || step.Register? || step.Revoke?
    ensures CascadeInv(c, init, Apply(c, s, step))
  {
    var s' := Apply(c, s, step);
    assert s'.log == s.log && s'.sessions == s.sessions;
    forall q | q in s'.approvals ensures RecordOk(s', q) {
      if q in s.approvals {
        assert RecordOk(s, q);
        if s.approvals[q].codeHash.Some? {
          var i, l :| CodeFrom(s.log, s.approvals[q], i, l);
          assert CodeFrom(s'.log, s'.approvals[q], i, l);
        }
      }
    }
  }

  lemma StepKeepsCascade(c: CodeHash, init: map<Id, Identity>, s: Staff, step: Step)
    requires CascadeInv(c, init, s) && Enabled(s, step) && !step.Provision?
    ensures CascadeInv(c, init, Apply(c, s, step))
  {
    match step
    case Login(role, terminal, id, f) =>
      if LoginSucceeds(s, role, terminal, id, f) { LoginKeepsCascade(c, init, s, role, terminal, id, f); }
    case Issue(t, request, code, salt, systemRoute) =>
      if MayApprove(s, t, request, systemRoute) { IssueKeepsCascade(c, init, s, t, request, code, salt, systemRoute); }
    case AuthoriseFp(t, request, systemRoute) =>
      if MayApprove(s, t, request, systemRoute) { AuthoriseFpKeepsCascade(c, init, s, t, request, systemRoute); }
    case ActivateIdentity(request, code, fp) =>
      if DoActivate(c, s, request, code, fp) != s { ActivateKeepsCascade(c, init, s, request, code, fp); }
    case _ => QuietStepKeepsCascade(c, init, s, step);
  }

  /** After provisioning: some identities, no request, no session, nothing logged. */
  ghost predicate Init(s: Staff) {
    s.approvals == map[] && s.sessions == {} && s.log == []
  }

  lemma {:induction false} RunKeepsCascade(c: CodeHash, states: seq<Staff>, steps: seq<Step>, n: nat)
    requires IsRun(c, states, steps) && NoProvisioning(steps) && Init(states[0]) && n < |states|
    ensures CascadeInv(c, states[0].identities, states[n])
  {
    if n > 0 {
      RunKeepsCascade(c, states, steps, n - 1);
      StepKeepsCascade(c, states[0].identities, states[n - 1], steps[n - 1]);
    }
  }

  /** The trust cascade: in every run after provisioning each activation consumed the latest code of
      its request, at most CODE_TTL_MS old, issued by a trusted approver of the right tier; and
      whoever is ACTIVE is trusted. */
  lemma TrustCascade(c: CodeHash, states: seq<Staff>, steps: seq<Step>, n: nat)
    requires IsRun(c, states, steps) && NoProvisioning(steps) && Init(states[0]) && n < |states|
    ensures forall k :: 0 <= k < |states[n].log| && states[n].log[k].Activated? ==>
      Rightful(c, states[0].identities, states[n].log, k)
    ensures forall id :: id in states[n].identities && states[n].identities[id].status == Active ==>
      Trusted(c, states[0].identities, states[n].log, id)
  {
    RunKeepsCascade(c, states, steps, n);
    forall k | 0 <= k < |states[n].log| && states[n].log[k].Activated?
      ensures Rightful(c, states[0].identities, states[n].log, k)
    {
      assert Justified(c, states[0].identities, states[n].log, k);
    }
  }

  // ---------- The second act of approval ----------

  /** Event `j` authorised the fingerprint of the record, after the approver's login `m`. */
  ghost predicate FpFrom(log: seq<Event>, r: ApprovalRecord, j: int, m: int) {
    && 0 <= m < j < |log| && log[j].FpAuthorised? && log[j].request == r.id
    && CanApprove(log[j].role, r.kind, log[j].centre, r.centre)
    && log[m] == LoggedIn(log[j].approver, log[j].role, log[j].centre, log[m].at)
    && log[m].at <= log[j].at <= log[m].at + IDLE_MS
  }

  ghost predicate FpRecordOk(log: seq<Event>, r: ApprovalRecord) {
    r.fingerprintAuthorised ==> exists j, m :: FpFrom(log, r, j, m)
  }

  /** Before activation `k` an approver of the right tier, logged in at event `m`, authorised the
      fingerprint at event `j`. */
  ghost predicate FpBefore(log: seq<Event>, k: int, j: int, m: int) {
    && 0 <= m < j < k < |log| && log[k].Activated? && log[j].FpAuthorised? && log[j].request == log[k].request
    && RightTier(log[j].role, log[j].centre, log[k].role, log[k].centre)
    && log[m] == LoggedIn(log[j].approver, log[j].role, log[j].centre, log[m].at)
    && log[m].at <= log[j].at <= log[m].at + IDLE_MS
  }

  ghost predicate FpJustified(log: seq<Event>, k: int) {
    0 <= k < |log| && log[k].Activated? ==> exists j, m :: FpBefore(log, k, j, m)
  }

  ghost predicate FpInv(s: Staff) {
    && (forall q :: q in s.approvals ==> FpRecordOk(s.log, s.approvals[q]))
    && forall k :: 0 <= k < |s.log| ==> FpJustified(s.log, k)
  }

  lemma FpRecordExtends(log: seq<Event>, r: ApprovalRecord, r': ApprovalRecord, e: Event)
    requires FpRecordOk(log, r) && r'.id == r.id && r'.kind == r.kind && r'.centre == r.centre
    requires r'.fingerprintAuthorised == r.fingerprintAuthorised
    ensures FpRecordOk(log + [e], r')
  {
    if r.fingerprintAuthorised {
      var j, m :| FpFrom(log, r, j, m);
      assert FpFrom(log + [e], r', j, m);
    }
  }

  lemma FpJustifiedExtends(log: seq<Event>, e: Event, k: int)
    requires 0 <= k < |log| && FpJustified(log, k)
    ensures FpJustified(log + [e], k)
  {
    if log[k].Activated? {
      var j, m :| FpBefore(log, k, j, m);
      assert FpBefore(log + [e], k, j, m);
    }
  }

  /** A step that logs one event and, where it activates, follows an authorised fingerprint. */
  lemma LoggedStepKeepsFp(s: Staff, s': Staff, e: Event)
    requires FpInv(s) && s'.log == s.log + [e] && FpJustified(s'.log, |s.log|)
    requires forall q :: q in s'.approvals ==> FpRecordOk(s'.log, s'.approvals[q])
    ensures FpInv(s')
  {
    forall k | 0 <= k < |s'.log| ensures FpJustified(s'.log, k) {
      if k < |s.log| {
        FpJustifiedExtends(s.log, e, k);
      }
    }
  }

  lemma AuthoriseFpKeepsFp(s: Staff, t: Session, request: Id, systemRoute: bool)
    requires FpInv(s) && SessionsAreLogins(s) && TimesPast(s) && RecordsOk(s) && MayApprove(s, t, request, systemRoute)
    ensures FpInv(DoAuthoriseFp(s, t, request, systemRoute))
  {
    var s' := DoAuthoriseFp(s, t, request, systemRoute);
    var e := FpAuthorised(request, t.sub, t.role, t.centre, s.clock);
    assert RecordOk(s, request);
    forall q | q in s'.approvals ensures FpRecordOk(s'.log, s'.approvals[q]) {
      if q == request {
        var l :| Opened(s.log, t, l);
        assert FpFrom(s'.log, s'.approvals[q], |s.log|, l);
      } else {
        FpRecordExtends(s.log, s.approvals[q], s'.approvals[q], e);
      }
    }
    LoggedStepKeepsFp(s, s', e);
  }

  lemma ActivateKeepsFp(c: CodeHash, s: Staff, request: Id, code: string, fp: bool)
    requires FpInv(s) && RecordsOk(s) && DoActivate(c, s, request, code, fp) != s
    ensures FpInv(DoActivate(c, s, request, code, fp))
  {
    var s' := DoActivate(c, s, request, code, fp);
    var r := s.approvals[request];
    var e := Activated(request, r.applicant, s.identities[r.applicant].role, s.identities[r.applicant].centre,
                       s.clock, code, fp);
    assert s'.log == s.log + [e];
    assert RecordOk(s, request);
    var j, m :| FpFrom(s.log, r, j, m);
    assert FpBefore(s'.log, |s.log|, j, m);
    forall q | q in s'.approvals ensures FpRecordOk(s'.log, s'.approvals[q]) {
      FpRecordExtends(s.log, s.approvals[q], s'.approvals[q], e);
    }
    LoggedStepKeepsFp(s, s', e);
  }

  lemma StepKeepsFp(c: CodeHash, init: map<Id, Identity>, s: Staff, step: Step)
    requires FpInv(s) && CascadeInv(c, init, s) && Enabled(s, step) && !step.Provision?
    ensures FpInv(Apply(c, s, step))
  {
    var s' := Apply(c, s, step);
    if step.AuthoriseFp? && s' != s {
      AuthoriseFpKeepsFp(s, step.session, step.request, step.systemRoute);
    } else if step.ActivateIdentity? && s' != s {
      ActivateKeepsFp(c, s, step.request, step.code, step.fingerprintMatches);
    } else if s'.log != s.log {
      var e := s'.log[|s.log|];
      forall q | q in s'.approvals ensures FpRecordOk(s'.log, s'.approvals[q]) {
        FpRecordExtends(s.log, s.approvals[q], s'.approvals[q], e);
      }
      LoggedStepKeepsFp(s, s', e);
    }
  }

  lemma {:induction false} RunKeepsFp(c: CodeHash, states: seq<Staff>, steps: seq<Step>, n: nat)
    requires IsRun(c, states, steps) && NoProvisioning(steps) && Init(states[0]) && n < |states|
    ensures FpInv(states[n])
  {
    if n > 0 {
      RunKeepsFp(c, states, steps, n - 1);
      RunKeepsCascade(c, states, steps, n - 1);
      StepKeepsFp(c, states[0].identities, states[n - 1], steps[n - 1]);
    }
  }

  /** Both acts of approval precede every activation: besides the code, an approver of the right
      tier, trusted when it logged in, authorised the fingerprint. */
  lemma FingerprintWasAuthorised(c: CodeHash, states: seq<Staff>, steps: seq<Step>, n: nat, k: nat)
    requires IsRun(c, states, steps) && NoProvisioning(steps) && Init(states[0]) && n < |states|
    requires k < |states[n].log| && states[n].log[k].Activated?
    ensures exists j, m :: FpBefore(states[n].log, k, j, m)
              && Trusted(c, states[0].identities, states[n].log[..m], states[n].log[j].approver)
  {
    RunKeepsFp(c, states, steps, n);
    RunKeepsCascade(c, states, steps, n);
    assert FpJustified(states[n].log, k);
    var j, m :| FpBefore(states[n].log, k, j, m);
    assert LoginTrusted(c, states[0].identities, states[n].log, m);
  }

  // ---------- Where the chains end ----------

  /** Nobody changes role after provisioning, and the log names everyone's role truly. */
  ghost predicate RolesFixed(init: map<Id, Identity>, s: Staff) {
    && (forall id :: id in init ==> id in s.identities && s.identities[id].role == init[id].role)
    && forall k :: 0 <= k < |s.log| && (s.log[k].LoggedIn? || s.log[k].Activated?) ==>
         s.log[k].id in s.identities && s.identities[s.log[k].id].role == s.log[k].role
  }

  lemma StepKeepsRoles(c: CodeHash, init: map<Id, Identity>, s: Staff, step: Step)
    requires RolesFixed(init, s) && Enabled(s, step) && !step.Provision?
    ensures RolesFixed(init, Apply(c, s, step))
  {
  }

  lemma {:induction false} RunKeepsRoles(c: CodeHash, states: seq<Staff>, steps: seq<Step>, n: nat)
    requires IsRun(c, states, steps) && NoProvisioning(steps) && Init(states[0]) && n < |states|
    ensures RolesFixed(states[0].identities, states[n])
  {
    if n > 0 {
      RunKeepsRoles(c, states, steps, n - 1);
      StepKeepsRoles(c, states[0].identities, states[n - 1], steps[n - 1]);
    }
  }

  ghost predicate ProvisionedAs(init: map<Id, Identity>, id: Id, role: Role) {
    InitiallyActive(init, id) && init[id].role == role
  }

  /** A System Admin provisioned beforehand made `id` a Centre Admin before event `end`. */
  ghost predicate MadeAdmin(c: CodeHash, init: map<Id, Identity>, log: seq<Event>, id: Id, end: int) {
    exists k, i, l :: k < end && AuthorisedBy(c, log, k, i, l) && log[k].id == id && log[k].role == CentreAdmin
      && ProvisionedAs(init, log[i].approver, SystemAdmin)
  }

  /** Activation `k` rests on provisioned authority: of a System Admin directly, of a provisioned
      Centre Admin, or of one whom a provisioned System Admin had activated before. */
  ghost predicate Grounded(c: CodeHash, init: map<Id, Identity>, log: seq<Event>, k: int) {
    exists i, l :: AuthorisedBy(c, log, k, i, l)
      && (ProvisionedAs(init, log[i].approver, log[i].role)
          || (log[i].role == CentreAdmin && MadeAdmin(c, init, log, log[i].approver, l)))
  }

  lemma GroundedSystem(c: CodeHash, init: map<Id, Identity>, s: Staff, l: nat)
    requires RolesFixed(init, s) && l < |s.log| && s.log[l].LoggedIn? && s.log[l].role == SystemAdmin
    requires Trusted(c, init, s.log[..l], s.log[l].id)
    ensures ProvisionedAs(init, s.log[l].id, SystemAdmin)
  {
  }

  lemma AuthorisedPrefix(c: CodeHash, log: seq<Event>, n: nat, k: int, i: int, l: int)
    requires n <= |log| && AuthorisedBy(c, log[..n], k, i, l)
    ensures AuthorisedBy(c, log, k, i, l) && k < n
  {
    forall j | i < j < k ensures !Concerns(log[j], log[k].request) {
      assert log[j] == log[..n][j];
    }
  }

  lemma GroundedAdmin(c: CodeHash, init: map<Id, Identity>, s: Staff, l: nat)
    requires RolesFixed(init, s) && LoginsAreTrusted(c, init, s.log)
    requires l < |s.log| && s.log[l].LoggedIn? && s.log[l].role == CentreAdmin
    ensures ProvisionedAs(init, s.log[l].id, CentreAdmin) || MadeAdmin(c, init, s.log, s.log[l].id, l)
  {
    assert LoginTrusted(c, init, s.log, l);
    if !InitiallyActive(init, s.log[l].id) {
      var past := s.log[..l];
      var k, i, m :| AuthorisedBy(c, past, k, i, m) && past[k].id == s.log[l].id
        && Trusted(c, init, past[..m], past[i].approver);
      AuthorisedPrefix(c, s.log, l, k, i, m);
      assert s.log[k].role == CentreAdmin;
      assert past[..m] == s.log[..m];
      GroundedSystem(c, init, s, m);
    }
  }

  /** Every chain of approvals ends, after at most two links, at an identity of the approver's
      role that was ACTIVE before the run. */
  lemma ChainsAreGrounded(c: CodeHash, states: seq<Staff>, steps: seq<Step>, n: nat, k: nat)
    requires IsRun(c, states, steps) && NoProvisioning(steps) && Init(states[0]) && n < |states|
    requires k < |states[n].log| && states[n].log[k].Activated?
    ensures Grounded(c, states[0].identities, states[n].log, k)
  {
    var init, s := states[0].identities, states[n];
    RunKeepsCascade(c, states, steps, n);
    RunKeepsRoles(c, states, steps, n);
    assert Justified(c, init, s.log, k);
    var i, l :| AuthorisedBy(c, s.log, k, i, l) && Trusted(c, init, s.log[..l], s.log[i].approver);
    if s.log[l].role == SystemAdmin {
      GroundedSystem(c, init, s, l);
    } else {
      GroundedAdmin(c, init, s, l);
    }
  }

  /** No code activates twice: between two activations of one request a new code was issued. */
  lemma NoCodeTwice(c: CodeHash, states: seq<Staff>, steps: seq<Step>, n: nat, j: nat, k: nat)
    requires IsRun(c, states, steps) && NoProvisioning(steps) && Init(states[0]) && n < |states|
    requires j < k < |states[n].log| && states[n].log[j].Activated? && states[n].log[k].Activated?
    requires states[n].log[j].request == states[n].log[k].request
    ensures exists i :: j < i < k && states[n].log[i].Issued? && states[n].log[i].request == states[n].log[k].request
  {
    TrustCascade(c, states, steps, n);
    var log := states[n].log;
    var i, l :| AuthorisedBy(c, log, k, i, l);
    if i < j {
      assert Concerns(log[j], log[k].request);
    }
  }

  /** A superseded code does not activate: as long as what is typed does not verify against the hash
      issued last for the request, whatever earlier hashes it fits, activation changes nothing. */
  lemma SupersededCodeRefused(c: CodeHash, states: seq<Staff>, steps: seq<Step>, n: nat, i: nat, typed: string,
                              fp: bool)
    requires IsRun(c, states, steps) && NoProvisioning(steps) && Init(states[0]) && n < |states|
    requires i < |states[n].log| && states[n].log[i].Issued?
    requires forall j :: i < j < |states[n].log| && states[n].log[j].Issued?
               ==> states[n].log[j].request != states[n].log[i].request
    requires !c.verify(Normalize(typed), states[n].log[i].hash)
    ensures Apply(c, states[n], ActivateIdentity(states[n].log[i].request, typed, fp)) == states[n]
  {
    var s := states[n];
    var request := s.log[i].request;
    RunKeepsCascade(c, states, steps, n);
    if request in s.approvals && s.approvals[request].codeHash.Some? && !s.approvals[request].codeConsumed {
      assert RecordOk(s, request);
      var i', l :| CodeFrom(s.log, s.approvals[request], i', l);
      LastIssue(s.log, request, i, i');
    }
  }

  lemma LastIssue(log: seq<Event>, request: Id, i: int, j: int)
    requires 0 <= i < |log| && 0 <= j < |log| && log[i].Issued? && log[j].Issued?
      && log[i].request == log[j].request == request
    requires forall k :: i < k < |log| && log[k].Issued? ==> log[k].request != request
    requires forall k :: j < k < |log| ==> !Concerns(log[k], request)
    ensures i == j
  {
  }

  // ======================= Revocation =======================

  ghost predicate SessionsBounded(s: Staff) {
    forall t: Session :: t in s.sessions ==> t.exp <= s.clock + IDLE_MS
  }

  lemma StepKeepsSessionsBounded(c: CodeHash, s: Staff, step: Step)
    requires SessionsBounded(s) && Enabled(s, step)
    ensures SessionsBounded(Apply(c, s, step))
  {
  }

  /** `id` carries a revocation date, and its tokens end by `deadline`. */
  ghost predicate Ended(s: Staff, id: Id, deadline: int) {
    && id in s.identities && s.identities[id].revokedAt.Some?
    && forall t: Session :: t in s.sessions && t.sub == id ==> t.exp <= deadline
  }

  lemma StepKeepsEnded(c: CodeHash, s: Staff, step: Step, id: Id, deadline: int)
    requires Ended(s, id, deadline) && Enabled(s, step)
    ensures Ended(Apply(c, s, step), id, deadline)
  {
  }

  lemma {:induction false} RunKeepsSessionsBounded(c: CodeHash, states: seq<Staff>, steps: seq<Step>, n: nat)
    requires IsRun(c, states, steps) && SessionsBounded(states[0]) && n < |states|
    ensures SessionsBounded(states[n])
  {
    if n > 0 {
      RunKeepsSessionsBounded(c, states, steps, n - 1);
      StepKeepsSessionsBounded(c, states[n - 1], steps[n - 1]);
    }
  }

  lemma {:induction false} RunKeepsEnded(c: CodeHash, states: seq<Staff>, steps: seq<Step>, i: nat, j: nat, id: Id,
                                         deadline: int)
    requires IsRun(c, states, steps) && i <= j < |states| && Ended(states[i], id, deadline)
    ensures Ended(states[j], id, deadline)
  {
    if i < j {
      RunKeepsEnded(c, states, steps, i, j - 1, id, deadline);
      StepKeepsEnded(c, states[j - 1], steps[j - 1], id, deadline);
    }
  }

  /** Revocation is permanent: after a revoke step no login of that identity ever succeeds, through
      re-activations and re-provisioning, and IDLE_MS later none of its tokens is accepted. */
  lemma RevocationIsPermanent(c: CodeHash, states: seq<Staff>, steps: seq<Step>, i: nat, j: nat)
    requires IsRun(c, states, steps) && SessionsBounded(states[0]) && i < j < |states|
    requires steps[i].Revoke? && MayRevoke(states[i], steps[i].session, steps[i].target)
    ensures forall role: Role, terminal: Id, f: Factors :: !LoginSucceeds(states[j], role, terminal, steps[i].target, f)
    ensures forall t: Session ::
      t.sub == steps[i].target && states[j].clock > states[i].clock + IDLE_MS ==> !TokenAccepted(states[j], t)
  {
    RunKeepsSessionsBounded(c, states, steps, i);
    RunKeepsEnded(c, states, steps, i + 1, j, steps[i].target, states[i].clock + IDLE_MS);
  }

  /** The date is what makes it so. An identity without one is not revoked for good: a provisioning
      bundle can set its status back to ACTIVE, and then it counts as unrevoked. */
  lemma PermanentOnlyWithDate(c: CodeHash, s: Staff, id: Id, role: Role, centre: Id)
    requires id in s.identities && !SecondAdmin(s, id, role, Some(centre))
    ensures var s' := Apply(c, Apply(c, s, Provision(id, role, centre, Revoked)), Provision(id, role, centre, Active));
      IsRevoked(s'.identities[id]) <==> s.identities[id].revokedAt.Some?
  {
  }
}
