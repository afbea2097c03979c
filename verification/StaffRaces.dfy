/** Approval handlers that interleave. Issuing a code, authorising a fingerprint and activating all read
    the approval record first and write every column of it back later, in a transaction that does not
    look again. Every activation is tied here to the issue whose code it used; `StaffCodes` says what
    follows. */
module StaffRaces {
  import opened ByteStrings
  import opened OneTimeCode
  import opened StaffRules
  import opened StaffProtocol

  /** What a handler is about to do with the record it has read. */
  datatype Work =
    | Issuing(session: Session, systemRoute: bool, code: string, salt: Bytes)
    | Authorising(session: Session, systemRoute: bool)
    | Activating(typed: string, matched: bool)

  /** A handler between its read and its transaction: the record as read and as it will be saved. The
      issue whose code the record held, as a place in the log, and the number of activations then
      are recorded to speak about runs; the program does not know them. */
  datatype Open = Open(record: ApprovalRecord, next: ApprovalRecord, work: Work, origin: Option<nat>, usesThen: nat)

  /** An activation, and the issue of the code it was granted on, as places in the log. */
  datatype Use = Use(event: nat, issue: nat)

  /** The staff, the issue that each request's stored code stems from, the open handlers, and the
      activations so far. */
  datatype Racing = Racing(staff: Staff, origin: map<Id, Option<nat>>, open: map<nat, Open>, uses: seq<Use>)

  datatype RaceStep =
    | Plain(step: Step)
    | ReadRecord(tx: nat, request: Id, work: Work)
    | CommitWork(tx: nat)
    | Drop(tx: nat)

  // ---------- Steps ----------

  /** The steps that do not save an approval record they read before. */
  predicate IsPlain(step: Step) {
    !step.Issue? && !step.AuthoriseFp? && !step.ActivateIdentity?
  }

  /** The handler's checks pass on the record as it is. */
  predicate MayBegin(c: CodeHash, s: Staff, request: Id, work: Work) {
    && request in s.approvals
    && match work
       case Issuing(t, systemRoute, _, _) => MayApprove(s, t, request, systemRoute)
       case Authorising(t, systemRoute) => MayApprove(s, t, request, systemRoute)
       case Activating(typed, matched) => Activate(c, s.approvals[request], typed, matched, s.clock).Granted?
  }

  /** The record as the handler will save it. */
  function Planned(c: CodeHash, record: ApprovalRecord, work: Work, now: int): ApprovalRecord {
    match work
    case Issuing(_, _, code, salt) => IssueCode(c, record, code, salt, now)
    case Authorising(_, _) => AuthoriseFingerprint(record)
    case Activating(_, _) => record.(codeConsumed := true, status := Active)
  }

  function EventOf(c: CodeHash, s: Staff, o: Open): Event
    requires o.record.applicant in s.identities
  {
    var id := o.record.applicant;
    match o.work
    case Issuing(t, _, code, salt) =>
      Issued(o.record.id, t.sub, t.role, t.centre, s.clock, c.hash(Normalize(code), salt))
    case Authorising(t, _) => FpAuthorised(o.record.id, t.sub, t.role, t.centre, s.clock)
    case Activating(typed, matched) =>
      Activated(o.record.id, id, s.identities[id].role, s.identities[id].centre, s.clock, typed, matched)
  }

  /** The unique index refuses the activation. */
  predicate Blocked(s: Staff, o: Open)
    requires o.record.applicant in s.identities
  {
    var i := s.identities[o.record.applicant];
    o.work.Activating? && SecondAdmin(s, o.record.applicant, i.role, i.centre)
  }

  /** `saveApproval` and what goes with it. */
  function Save(c: CodeHash, s: Staff, o: Open): Staff
    requires o.record.applicant in s.identities
  {
    var id := o.record.applicant;
    s.(approvals := s.approvals[o.record.id := o.next], log := s.log + [EventOf(c, s, o)],
       identities := if o.work.Activating? then s.identities[id := s.identities[id].(status := Active)]
         else s.identities)
  }

  /** The issue that the saved code stems from. */
  function OriginAfter(s: Racing, o: Open): Option<nat> {
    if o.work.Issuing? then Some(|s.staff.log|) else o.origin
  }

  function UsesAfter(s: Racing, o: Open): seq<Use> {
    if o.work.Activating? && o.origin.Some? then s.uses + [Use(|s.staff.log|, o.origin.value)] else s.uses
  }

  function DoCommit(c: CodeHash, s: Racing, tx: nat): Racing
    requires tx in s.open && s.open[tx].record.applicant in s.staff.identities
  {
    var o := s.open[tx];
    if Blocked(s.staff, o) then s.(open := s.open - {tx})
    else Racing(Save(c, s.staff, o), s.origin[o.record.id := OriginAfter(s, o)], s.open - {tx}, UsesAfter(s, o))
  }

  predicate RaceEnabled(c: CodeHash, s: Racing, step: RaceStep) {
    match step
    case Plain(p) => Enabled(s.staff, p) && IsPlain(p)
    case ReadRecord(tx, request, work) => tx !in s.open && request in s.origin && MayBegin(c, s.staff, request, work)
    case CommitWork(tx) => tx in s.open && s.open[tx].record.applicant in s.staff.identities
    case Drop(tx) => tx in s.open
  }

  function DoPlain(c: CodeHash, s: Racing, p: Step): Racing {
    s.(staff := Apply(c, s.staff, p), origin := if p.Register? then s.origin[p.request := None] else s.origin)
  }

  function DoRead(c: CodeHash, s: Racing, tx: nat, request: Id, work: Work): Racing
    requires request in s.origin && request in s.staff.approvals
  {
    var record := s.staff.approvals[request];
    s.(open := s.open[tx := Open(record, Planned(c, record, work, s.staff.clock), work, s.origin[request], |s.uses|)])
  }

  function RaceApply(c: CodeHash, s: Racing, step: RaceStep): Racing
    requires RaceEnabled(c, s, step)
  {
    match step
    case Plain(p) => DoPlain(c, s, p)
    case ReadRecord(tx, request, work) => DoRead(c, s, tx, request, work)
    case CommitWork(tx) => DoCommit(c, s, tx)
    case Drop(tx) => s.(open := s.open - {tx})
  }

  ghost predicate IsRace(c: CodeHash, states: seq<Racing>, steps: seq<RaceStep>) {
    && |states| == |steps| + 1
    && forall i :: 0 <= i < |steps|
         ==> RaceEnabled(c, states[i], steps[i]) && states[i + 1] == RaceApply(c, states[i], steps[i])
  }

  ghost predicate RaceInit(s: Racing) {
    Init(s.staff) && s.origin == map[] && s.open == map[] && s.uses == []
  }

  /** The handler that is one step: what a read and a commit without anything between them do. */
  function Atomic(work: Work, request: Id): Step {
    match work
    case Issuing(t, systemRoute, code, salt) => Issue(t, request, code, salt, systemRoute)
    case Authorising(t, systemRoute) => AuthoriseFp(t, request, systemRoute)
    case Activating(typed, matched) => ActivateIdentity(request, typed, matched)
  }

  // ---------- What every state keeps ----------

  /** The stored hash is the one that its issue put into the log. */
  ghost predicate Stems(log: seq<Event>, record: ApprovalRecord, origin: Option<nat>) {
    match origin
    case None => record.codeHash.None?
    case Some(i) => i < |log| && log[i].Issued? && log[i].request == record.id && record.codeHash == Some(log[i].hash)
  }

  /** An activation from number `m` on used the code of issue `i`. */
  ghost predicate UsedFrom(uses: seq<Use>, i: nat, m: nat) {
    exists u :: m <= u < |uses| && uses[u].issue == i
  }

  ghost predicate IsUsed(uses: seq<Use>, i: nat) { UsedFrom(uses, i, 0) }

  ghost predicate OriginUsed(uses: seq<Use>, origin: Option<nat>) {
    origin.Some? && IsUsed(uses, origin.value)
  }

  /** A record is consumed only if its code was used. */
  ghost predicate RecordStems(s: Racing, record: ApprovalRecord, origin: Option<nat>) {
    Stems(s.staff.log, record, origin) && (record.codeConsumed ==> OriginUsed(s.uses, origin))
  }

  ghost predicate TableAt(s: Racing, q: Id)
    requires q in s.staff.approvals
  {
    && q in s.origin && s.staff.approvals[q].id == q && RecordStems(s, s.staff.approvals[q], s.origin[q])
    && s.staff.approvals[q].applicant in s.staff.identities
  }

  /** What the handler's checks saw, and what it is going to save. */
  ghost predicate WorkOk(c: CodeHash, o: Open) {
    && o.next.id == o.record.id && o.next.applicant == o.record.applicant
    && match o.work
       case Issuing(_, _, code, salt) => o.next.codeHash == Some(c.hash(Normalize(code), salt)) && !o.next.codeConsumed
       case Authorising(_, _) => o.next.codeHash == o.record.codeHash && o.next.codeConsumed == o.record.codeConsumed
       case Activating(typed, matched) =>
         && o.next.codeHash == o.record.codeHash && o.next.codeConsumed && !o.record.codeConsumed && matched
         && o.record.codeHash.Some? && c.verify(Normalize(typed), o.record.codeHash.value)
  }

  ghost predicate OpenAt(c: CodeHash, s: Racing, o: Open) {
    && o.record.id in s.staff.approvals && o.record.applicant in s.staff.identities && o.usesThen <= |s.uses|
    && RecordStems(s, o.record, o.origin) && WorkOk(c, o)
  }

  /** Event `event` is an activation, and what was typed verifies against the hash of its issue. */
  ghost predicate UseAt(c: CodeHash, log: seq<Event>, u: Use) {
    && u.issue < u.event < |log| && log[u.event].Activated? && log[u.issue].Issued?
    && log[u.issue].request == log[u.event].request && log[u.event].matched
    && c.verify(Normalize(log[u.event].typed), log[u.issue].hash)
  }

  /** The places of the activations. */
  function Activations(log: seq<Event>): seq<nat> {
    if |log| == 0 then []
    else
      var n := |log| - 1;
      Activations(log[..n]) + if log[n].Activated? then [n] else []
  }

  function UseEvents(uses: seq<Use>): seq<nat> {
    seq(|uses|, u requires 0 <= u < |uses| => uses[u].event)
  }

  /** `uses` lists exactly the activations of the log, in order, with the issues they used. */
  ghost predicate UsesAreActivations(c: CodeHash, s: Racing) {
    && UseEvents(s.uses) == Activations(s.staff.log)
    && forall u :: 0 <= u < |s.uses| ==> UseAt(c, s.staff.log, s.uses[u])
  }

  ghost predicate TablesOk(s: Racing) {
    forall q :: q in s.staff.approvals ==> TableAt(s, q)
  }

  ghost predicate OpensOk(c: CodeHash, s: Racing) {
    forall tx :: tx in s.open ==> OpenAt(c, s, s.open[tx])
  }

  ghost predicate RaceInv(c: CodeHash, s: Racing) {
    TablesOk(s) && OpensOk(c, s) && UsesAreActivations(c, s)
  }

  lemma ActivationsAppend(log: seq<Event>, e: Event)
    ensures Activations(log + [e]) == Activations(log) + if e.Activated? then [|log|] else []
  {
    assert (log + [e])[..|log|] == log;
  }

  /** The log and the activations only grow. */
  ghost predicate Grows(s: Racing, s': Racing) {
    && s.staff.log <= s'.staff.log && s.uses <= s'.uses
    && s.staff.approvals.Keys <= s'.staff.approvals.Keys && s.staff.identities.Keys <= s'.staff.identities.Keys
  }

  lemma RecordGrows(s: Racing, s': Racing, record: ApprovalRecord, origin: Option<nat>)
    requires Grows(s, s') && RecordStems(s, record, origin)
    ensures RecordStems(s', record, origin)
  {
    if record.codeConsumed {
      var u :| 0 <= u < |s.uses| && s.uses[u].issue == origin.value;
      assert s'.uses[u] == s.uses[u];
    }
  }

  lemma OpenGrows(c: CodeHash, s: Racing, s': Racing, o: Open)
    requires Grows(s, s') && OpenAt(c, s, o)
    ensures OpenAt(c, s', o)
  {
    RecordGrows(s, s', o.record, o.origin);
  }

  lemma OpensGrow(c: CodeHash, s: Racing, s': Racing)
    requires Grows(s, s') && OpensOk(c, s) && forall tx :: tx in s'.open ==> tx in s.open && s'.open[tx] == s.open[tx]
    ensures OpensOk(c, s')
  {
    forall tx | tx in s'.open ensures OpenAt(c, s', s'.open[tx]) {
      OpenGrows(c, s, s', s.open[tx]);
    }
  }

  lemma TableStays(s: Racing, s': Racing, q: Id)
    requires Grows(s, s') && q in s.staff.approvals && TableAt(s, q)
    requires q in s'.staff.approvals && q in s'.origin
    requires s'.staff.approvals[q] == s.staff.approvals[q] && s'.origin[q] == s.origin[q]
    ensures TableAt(s', q)
  {
    RecordGrows(s, s', s.staff.approvals[q], s.origin[q]);
  }

  // ---------- Plain steps ----------

  /** What plain steps do to the log: nothing, or a login is added. */
  ghost predicate LogsAtMostLogin(s: Staff, s': Staff) {
    s'.log == s.log || (|s'.log| == |s.log| + 1 && s'.log == s.log + [s'.log[|s.log|]] && s'.log[|s.log|].LoggedIn?)
  }

  lemma LoginStaff(s: Staff, role: Role, terminal: Id, id: Id, f: Factors)
    ensures var s' := DoLogin(s, role, terminal, id, f);
      s'.identities == s.identities && s'.approvals == s.approvals && LogsAtMostLogin(s, s')
  {
  }

  lemma RevokeStaff(s: Staff, t: Session, target: Id)
    ensures var s' := DoRevoke(s, t, target);
      s.identities.Keys <= s'.identities.Keys && s'.approvals == s.approvals && s'.log == s.log
  {
  }

  lemma ProvisionStaff(s: Staff, id: Id, role: Role, centre: Id, status: Status)
    ensures var s' := DoProvision(s, id, role, centre, status);
      s.identities.Keys <= s'.identities.Keys && s'.approvals == s.approvals && s'.log == s.log
  {
  }

  lemma PlainStep(c: CodeHash, s: Staff, p: Step)
    requires Enabled(s, p) && IsPlain(p)
    ensures var s' := Apply(c, s, p);
      s.identities.Keys <= s'.identities.Keys && (p.Register? || s'.approvals == s.approvals) && LogsAtMostLogin(s, s')
  {
    match p
    case Login(role, terminal, id, f) => LoginStaff(s, role, terminal, id, f);
    case Revoke(t, target) => RevokeStaff(s, t, target);
    case Provision(id, role, centre, status) => ProvisionStaff(s, id, role, centre, status);
    case _ =>
  }

  lemma PlainStaff(c: CodeHash, s: Staff, p: Step)
    requires Enabled(s, p) && IsPlain(p)
    ensures var s' := Apply(c, s, p);
      && s.log <= s'.log && s.identities.Keys <= s'.identities.Keys
      && (p.Register? || s'.approvals == s.approvals)
      && Activations(s'.log) == Activations(s.log)
  {
    PlainStep(c, s, p);
    AtMostLogin(s, Apply(c, s, p));
  }

  lemma AtMostLogin(s: Staff, s': Staff)
    requires LogsAtMostLogin(s, s')
    ensures s.log <= s'.log && Activations(s'.log) == Activations(s.log)
  {
    if s'.log != s.log {
      ActivationsAppend(s.log, s'.log[|s.log|]);
    }
  }

  lemma UsesGrow(c: CodeHash, s: Racing, s': Racing)
    requires UsesAreActivations(c, s) && s.staff.log <= s'.staff.log && s'.uses == s.uses
    requires Activations(s'.staff.log) == Activations(s.staff.log)
    ensures UsesAreActivations(c, s')
  {
    forall u | 0 <= u < |s.uses| ensures UseAt(c, s'.staff.log, s.uses[u]) {
      assert UseAt(c, s.staff.log, s.uses[u]);
    }
  }

  lemma PlainKeepsRace(c: CodeHash, s: Racing, p: Step)
    requires RaceInv(c, s) && Enabled(s.staff, p) && IsPlain(p)
    ensures RaceInv(c, DoPlain(c, s, p))
  {
    var s' := DoPlain(c, s, p);
    PlainStaff(c, s.staff, p);
    assert Grows(s, s');
    UsesGrow(c, s, s');
    OpensGrow(c, s, s');
    forall q | q in s'.staff.approvals ensures TableAt(s', q) {
      if !(p.Register? && q == p.request) {
        TableStays(s, s', q);
      }
    }
  }

  // ---------- Reading and committing ----------

  lemma PlannedOk(c: CodeHash, s: Staff, request: Id, work: Work)
    requires MayBegin(c, s, request, work)
    ensures var r := s.approvals[request]; WorkOk(c, Open(r, Planned(c, r, work, s.clock), work, None, 0))
  {
  }

  lemma ReadKeepsRace(c: CodeHash, s: Racing, tx: nat, request: Id, work: Work)
    requires RaceInv(c, s) && RaceEnabled(c, s, ReadRecord(tx, request, work))
    ensures RaceInv(c, DoRead(c, s, tx, request, work))
  {
    var s' := DoRead(c, s, tx, request, work);
    assert TableAt(s, request);
    PlannedOk(c, s.staff, request, work);
    assert Grows(s, s');
    forall x | x in s'.open ensures OpenAt(c, s', s'.open[x]) {
      if x != tx {
        OpenGrows(c, s, s', s.open[x]);
      }
    }
    forall q | q in s'.staff.approvals ensures TableAt(s', q) {
      TableStays(s, s', q);
    }
    UsesGrow(c, s, s');
  }

  lemma CommitGrows(c: CodeHash, s: Racing, tx: nat)
    requires RaceInv(c, s) && tx in s.open
    ensures Grows(s, DoCommit(c, s, tx))
  {
    assert OpenAt(c, s, s.open[tx]);
  }

  /** The record that a commit saves stems from the issue named. */
  lemma SavedStems(c: CodeHash, s: Racing, tx: nat)
    requires RaceInv(c, s) && tx in s.open && !Blocked(s.staff, s.open[tx])
    ensures TableAt(DoCommit(c, s, tx), s.open[tx].record.id)
  {
    var o, s' := s.open[tx], DoCommit(c, s, tx);
    assert OpenAt(c, s, o);
    CommitGrows(c, s, tx);
    RecordGrows(s, s', o.record, o.origin);
    if o.work.Activating? {
      assert s'.uses[|s.uses|].issue == o.origin.value;
    }
  }

  lemma CommitKeepsUses(c: CodeHash, s: Racing, tx: nat)
    requires RaceInv(c, s) && tx in s.open && !Blocked(s.staff, s.open[tx])
    ensures UsesAreActivations(c, DoCommit(c, s, tx))
  {
    var o, s' := s.open[tx], DoCommit(c, s, tx);
    assert OpenAt(c, s, o);
    var e := EventOf(c, s.staff, o);
    ActivationsAppend(s.staff.log, e);
    if o.work.Activating? {
      assert UseEvents(s'.uses) == UseEvents(s.uses) + [|s.staff.log|];
      forall u | 0 <= u < |s'.uses| ensures UseAt(c, s'.staff.log, s'.uses[u]) {
        if u < |s.uses| {
          assert UseAt(c, s.staff.log, s.uses[u]);
        }
      }
    } else {
      UsesGrow(c, s, s');
    }
  }

  lemma CommitKeepsRace(c: CodeHash, s: Racing, tx: nat)
    requires RaceInv(c, s) && tx in s.open && s.open[tx].record.applicant in s.staff.identities
    ensures RaceInv(c, DoCommit(c, s, tx))
  {
    var o, s' := s.open[tx], DoCommit(c, s, tx);
    CommitGrows(c, s, tx);
    OpensGrow(c, s, s');
    if Blocked(s.staff, o) {
      UsesGrow(c, s, s');
      forall q | q in s'.staff.approvals ensures TableAt(s', q) {
        TableStays(s, s', q);
      }
    } else {
      assert OpenAt(c, s, o);
      CommitKeepsUses(c, s, tx);
      SavedStems(c, s, tx);
      forall q | q in s'.staff.approvals ensures TableAt(s', q) {
        if q != o.record.id {
          TableStays(s, s', q);
        }
      }
    }
  }

  lemma DropKeepsRace(c: CodeHash, s: Racing, tx: nat)
    requires RaceInv(c, s)
    ensures RaceInv(c, s.(open := s.open - {tx}))
  {
    var s' := s.(open := s.open - {tx});
    OpensGrow(c, s, s');
    UsesGrow(c, s, s');
    forall q | q in s'.staff.approvals ensures TableAt(s', q) {
      TableStays(s, s', q);
    }
  }

  lemma RaceKeepsInv(c: CodeHash, s: Racing, step: RaceStep)
    requires RaceInv(c, s) && RaceEnabled(c, s, step)
    ensures RaceInv(c, RaceApply(c, s, step))
  {
    match step
    case Plain(p) => PlainKeepsRace(c, s, p);
    case ReadRecord(tx, request, work) => ReadKeepsRace(c, s, tx, request, work);
    case CommitWork(tx) => CommitKeepsRace(c, s, tx);
    case Drop(tx) => DropKeepsRace(c, s, tx);
  }

  lemma RaceNext(c: CodeHash, states: seq<Racing>, steps: seq<RaceStep>, k: nat)
    requires IsRace(c, states, steps) && k < |steps|
    ensures RaceEnabled(c, states[k], steps[k]) && states[k + 1] == RaceApply(c, states[k], steps[k])
  {
  }

  lemma {:induction false} RunKeepsRaceInv(c: CodeHash, states: seq<Racing>, steps: seq<RaceStep>, n: nat)
    requires IsRace(c, states, steps) && RaceInit(states[0]) && n <= |steps|
    ensures RaceInv(c, states[n])
  {
    if n > 0 {
      RunKeepsRaceInv(c, states, steps, n - 1);
      RaceNext(c, states, steps, n - 1);
      RaceKeepsInv(c, states[n - 1], steps[n - 1]);
    }
  }

  /** A read and a commit with nothing between them are the atomic handler. */
  lemma AloneIsAtomic(c: CodeHash, s: Racing, tx: nat, request: Id, work: Work)
    requires RaceInv(c, s) && RaceEnabled(c, s, ReadRecord(tx, request, work))
    ensures RaceEnabled(c, DoRead(c, s, tx, request, work), CommitWork(tx))
    ensures DoCommit(c, DoRead(c, s, tx, request, work), tx).staff == Apply(c, s.staff, Atomic(work, request))
  {
    assert TableAt(s, request);
  }

  /** A handler that gives up has changed nothing. */
  lemma DropUndoes(c: CodeHash, s: Racing, tx: nat, request: Id, work: Work)
    requires RaceEnabled(c, s, ReadRecord(tx, request, work))
    ensures RaceApply(c, DoRead(c, s, tx, request, work), Drop(tx)) == s
  {
    assert DoRead(c, s, tx, request, work).open - {tx} == s.open;
  }
}
