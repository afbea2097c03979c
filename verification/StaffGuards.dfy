/** Who may do what: every change of the staff tables traced to the request that made it, and every session
    to the login that earned it. */
module StaffGuards {
  import opened ByteStrings
  import opened OneTimeCode
  import opened StaffRules
  import opened StaffProtocol

  // ---------- Sessions ----------

  /** Login `j` of the run earned the session: an ACTIVE, never revoked identity of that role, bound to that
      terminal and to the address the request came from, with face, finger, device and time in order. */
  ghost predicate EarnedBy(states: seq<Staff>, steps: seq<Step>, j: nat, t: Session)
    requires j < |steps| && j < |states|
  {
    var s := states[j];
    && steps[j].Login? && steps[j].role == t.role && steps[j].terminal == t.terminal && t.sub in s.identities
    && var i, f := s.identities[t.sub], steps[j].factors;
    && i.role == t.role && i.boundTerminal == Some(t.terminal) && i.boundIp == Some(f.sourceIp)
    && i.status == Active && i.revokedAt.None?
    && f.faceScore >= 0.82 && f.fpScore >= 0.6 && f.tpmValid && f.elapsedMs <= 20000
    && t.centre == (if t.role == SystemAdmin then None else i.centre) && t.exp == s.clock + 480000
  }

  /** Nothing but a login makes a session. */
  lemma NewSession(c: CodeHash, states: seq<Staff>, steps: seq<Step>, k: nat, t: Session)
    requires IsRun(c, states, steps) && k < |steps| && t in states[k + 1].sessions && t !in states[k].sessions
    ensures EarnedBy(states, steps, k, t)
  {
    assert states[k + 1] == Apply(c, states[k], steps[k]);
  }

  /** Every session was earned. */
  lemma {:induction false} SessionWasEarned(c: CodeHash, states: seq<Staff>, steps: seq<Step>, n: nat, t: Session)
    requires IsRun(c, states, steps) && Init(states[0]) && n <= |steps| && t in states[n].sessions
    ensures exists j :: 0 <= j < n && EarnedBy(states, steps, j, t)
  {
    if t in states[n - 1].sessions {
      SessionWasEarned(c, states, steps, n - 1, t);
    } else {
      NewSession(c, states, steps, n - 1, t);
    }
  }

  /** And such a login of the newest identity of the role at the terminal always makes one, and logs it. */
  lemma LoginEarns(c: CodeHash, s: Staff, role: Role, terminal: Id, id: Id, f: Factors)
    requires id in s.identities && s.identities[id].role == role && s.identities[id].boundTerminal == Some(terminal)
    requires forall o ::
      o in s.identities && s.identities[o].role == role && s.identities[o].boundTerminal == Some(terminal) ==>
        s.identities[o].createdAt <= s.identities[id].createdAt
    ensures var i, s' := s.identities[id], Apply(c, s, Login(role, terminal, id, f));
      var centre := if role == SystemAdmin then None else i.centre;
      if && f.faceScore >= 0.82 && f.fpScore >= 0.6 && f.tpmValid && f.elapsedMs <= 20000
         && i.boundIp == Some(f.sourceIp) && i.status == Active && i.revokedAt.None?
      then s' == s.(sessions := s.sessions + {Session(id, terminal, role, centre, s.clock + 480000)},
                    log := s.log + [LoggedIn(id, role, centre, s.clock)])
      else s' == s
  {
  }

  // ---------- Identities ----------

  /** A Centre Admin with a live session of the target's centre. */
  ghost predicate OwnAdmin(s: Staff, t: Session, target: Identity) {
    && t in s.sessions && s.clock <= t.exp && t.role == CentreAdmin
    && t.centre.Some? && target.centre == t.centre
  }

  /** What a step may do to an identity that exists: revoke it, by an admin of its own centre, or make the
      applicant of an approved request ACTIVE; or provision it. */
  ghost predicate RightChange(s: Staff, step: Step, id: Id, before: Identity, after: Identity) {
    match step
    case Revoke(t, target) =>
      target == id && OwnAdmin(s, t, before) && after == before.(status := Revoked, revokedAt := Some(s.clock))
    case ActivateIdentity(request, _, matched) =>
      && request in s.approvals && s.approvals[request].applicant == id && s.approvals[request].fingerprintAuthorised
      && matched && after == before.(status := Active)
    case Provision(x, role, centre, status) =>
      x == id && after == before.(role := role, centre := Some(centre), status := status)
    case _ => false
  }

  lemma IdentityChanges(c: CodeHash, s: Staff, step: Step, id: Id)
    requires Enabled(s, step) && id in s.identities
    ensures var s' := Apply(c, s, step);
      id in s'.identities
      && (s'.identities[id] != s.identities[id] ==> RightChange(s, step, id, s.identities[id], s'.identities[id]))
  {
  }

  /** A new identity is a registration, pending and bound as requested, or comes with a bundle, unbound. */
  lemma IdentityAppears(c: CodeHash, s: Staff, step: Step, id: Id)
    requires Enabled(s, step) && id !in s.identities && id in Apply(c, s, step).identities
    ensures var i := Apply(c, s, step).identities[id];
      match step
      case Register(kind, identity, request, centre, ip, terminal) =>
        && id == identity && i == Identity(if kind == CentreAdminRegistration then CentreAdmin else Invigilator,
                                           Some(centre), PendingApproval, ip, terminal, s.clock, None)
        && Apply(c, s, step).approvals == s.approvals[request :=
             ApprovalRecord(request, kind, identity, Some(centre), None, None, false, false, PendingApproval)]
      case Provision(x, role, centre, status) =>
        id == x && i == Identity(role, Some(centre), status, None, None, s.clock, None)
      case _ => false
  {
  }

  /** In every run a revocation that no bundle brought was ordered by a Centre Admin of the same centre,
      in a session that a login had earned at most eight minutes before. */
  lemma RevocationWasOrdered(c: CodeHash, states: seq<Staff>, steps: seq<Step>, k: nat, id: Id)
    requires IsRun(c, states, steps) && Init(states[0]) && k < |steps| && !steps[k].Provision?
    requires id in states[k].identities && id in states[k + 1].identities
    requires var before, after := states[k].identities[id], states[k + 1].identities[id];
      before.revokedAt != after.revokedAt || (before.status != Revoked && after.status == Revoked)
    ensures steps[k].Revoke? && steps[k].target == id
    ensures var t := steps[k].session;
      && t.role == CentreAdmin && t.centre.Some? && t.centre == states[k].identities[id].centre
      && exists j :: 0 <= j < k && EarnedBy(states, steps, j, t)
           && states[j].identities[t.sub].centre == t.centre && states[k].clock <= states[j].clock + 480000
  {
    IdentityChanges(c, states[k], steps[k], id);
    var t := steps[k].session;
    SessionWasEarned(c, states, steps, k, t);
    var j :| 0 <= j < k && EarnedBy(states, steps, j, t);
    assert states[j].identities[t.sub].centre == t.centre && states[k].clock <= states[j].clock + 480000;
  }

  /** An order by such an admin always revokes, and any other order changes nothing. */
  lemma RevokeExactly(c: CodeHash, s: Staff, t: Session, target: Id)
    ensures Apply(c, s, Revoke(t, target)) ==
      if && t in s.sessions && s.clock <= t.exp && t.role == CentreAdmin && t.centre.Some?
         && target in s.identities && s.identities[target].centre == t.centre
      then s.(identities := s.identities[target :=
                s.identities[target].(status := Revoked, revokedAt := Some(s.clock))])
      else s
  {
  }

  // ---------- Requests ----------

  /** A live session that may approve the request: a System Admin a Centre Admin, a Centre Admin an
      invigilator of its own centre; on the system route only the first. */
  ghost predicate MayDecide(s: Staff, t: Session, r: ApprovalRecord, systemRoute: bool) {
    && t in s.sessions && s.clock <= t.exp
    && match r.kind
       case CentreAdminRegistration => t.role == SystemAdmin
       case InvigilatorRegistration =>
         t.role == CentreAdmin && t.centre.Some? && t.centre == r.centre && !systemRoute
  }

  /** What a step may do to a request: give it a new code, valid for ten minutes, authorise the finger, or
      use the code up. */
  ghost predicate RightDecision(c: CodeHash, s: Staff, step: Step, q: Id, before: ApprovalRecord,
                                after: ApprovalRecord) {
    match step
    case Issue(t, request, code, salt, systemRoute) =>
      && request == q && MayDecide(s, t, before, systemRoute)
      && after == before.(codeHash := Some(c.hash(Normalize(code), salt)), codeTtl := Some(s.clock + 600000),
                          codeConsumed := false)
    case AuthoriseFp(t, request, systemRoute) =>
      request == q && MayDecide(s, t, before, systemRoute) && after == before.(fingerprintAuthorised := true)
    case ActivateIdentity(request, code, matched) =>
      && request == q && before.codeHash.Some? && before.codeTtl.Some? && s.clock <= before.codeTtl.value
      && c.verify(Normalize(code), before.codeHash.value) && !before.codeConsumed && before.fingerprintAuthorised
      && matched && after == before.(codeConsumed := true, status := Active)
    case _ => false
  }

  lemma RequestChanges(c: CodeHash, s: Staff, step: Step, q: Id)
    requires Enabled(s, step) && q in s.approvals
    ensures var s' := Apply(c, s, step);
      q in s'.approvals
      && (s'.approvals[q] != s.approvals[q] ==> RightDecision(c, s, step, q, s.approvals[q], s'.approvals[q]))
  {
  }

  /** A decision that is allowed takes effect and is logged; any other leaves everything as it is. */
  lemma DecisionExactly(c: CodeHash, s: Staff, t: Session, q: Id, code: string, salt: Bytes, systemRoute: bool)
    ensures var issue, authorise := Issue(t, q, code, salt, systemRoute), AuthoriseFp(t, q, systemRoute);
      if q in s.approvals && MayDecide(s, t, s.approvals[q], systemRoute) then
        && q in Apply(c, s, issue).approvals && q in Apply(c, s, authorise).approvals
        && RightDecision(c, s, issue, q, s.approvals[q], Apply(c, s, issue).approvals[q])
        && RightDecision(c, s, authorise, q, s.approvals[q], Apply(c, s, authorise).approvals[q])
        && Apply(c, s, issue).log
           == s.log + [Issued(q, t.sub, t.role, t.centre, s.clock, c.hash(Normalize(code), salt))]
        && Apply(c, s, authorise).log == s.log + [FpAuthorised(q, t.sub, t.role, t.centre, s.clock)]
      else Apply(c, s, issue) == s && Apply(c, s, authorise) == s
  {
  }

  /** Another identity is the ACTIVE Centre Admin of the centre. */
  ghost predicate Occupied(s: Staff, id: Id, centre: Id) {
    exists o :: o in s.identities && o != id && s.identities[o].role == CentreAdmin
      && s.identities[o].centre == Some(centre) && s.identities[o].status == Active
  }

  /** An activation changes request and identity together or neither: the code is right, in time, not used,
      the finger authorised and matched, and no other ACTIVE Centre Admin is in the way. */
  lemma ActivationExactly(c: CodeHash, s: Staff, q: Id, code: string, matched: bool)
    requires q in s.approvals && s.approvals[q].applicant in s.identities
    ensures var r, s' := s.approvals[q], Apply(c, s, ActivateIdentity(q, code, matched));
      var i := s.identities[r.applicant];
      if && r.codeHash.Some? && r.codeTtl.Some? && s.clock <= r.codeTtl.value && !r.codeConsumed
         && c.verify(Normalize(code), r.codeHash.value) && r.fingerprintAuthorised && matched
         && !(i.role == CentreAdmin && i.centre.Some? && Occupied(s, r.applicant, i.centre.value))
      then
        && s'.approvals == s.approvals[q := r.(codeConsumed := true, status := Active)]
        && s'.identities == s.identities[r.applicant := i.(status := Active)]
        && s'.log == s.log + [Activated(q, r.applicant, i.role, i.centre, s.clock, code, matched)]
        && s'.sessions == s.sessions && s'.clock == s.clock
      else s' == s
  {
  }

  /** A bundle's row is refused exactly if it would make a second ACTIVE Centre Admin, and touches nothing
      but its identity. */
  lemma ProvisionExactly(c: CodeHash, s: Staff, id: Id, role: Role, centre: Id, status: Status)
    ensures var s' := Apply(c, s, Provision(id, role, centre, status));
      if status == Active && role == CentreAdmin && Occupied(s, id, centre) then s' == s
      else s'.identities.Keys == s.identities.Keys + {id} && s' == s.(identities := s'.identities)
           && s'.identities[id].role == role && s'.identities[id].centre == Some(centre)
           && s'.identities[id].status == status
           && forall o :: o in s.identities && o != id ==> s'.identities[o] == s.identities[o]
  {
  }
}
