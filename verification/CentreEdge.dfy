/** The Edge server of a centre: its tables as fields, its handlers as methods. A handler that runs
    concurrently with others is split where its transaction takes a lock. Each method does one step
    of the hall's or the staff's state machine, so their invariants hold between any two calls. */
module CentreEdge {
  import opened ByteStrings
  import opened StaffRules
  import Hall = HallProtocol
  import Seats = HallSeats
  import Staff = StaffProtocol
  import Hq = HqIngest
  import EndToEnd

  datatype SeatReply = SeatForbidden | NoFreeSeat | SeatLocked(seat: Id)

  datatype CandidateReply = LockedOut | RollNotBound | DobMismatch | SeatAttended

  datatype SubmitReply =
    | MissingFields | UnknownTerminal | SeatNotInExam(state: Hall.SeatState) | NoBindingForSeat | LockHeld

  datatype ReceiptReply = BadLeaf | UnknownLeaf | ReceiptFound(receipt: Hall.Receipt, chainValid: bool)

  datatype ExportReply =
    | ExportForbidden | MissingExam | EgressNotOpen | NothingToExport | Exported(bundle: Hq.SyncBundle)

  datatype LoginReply = NoIdentityForStation | LoginDenied(failures: seq<Failure>) | LoggedIn(token: Staff.Session)

  datatype ApproveReply = NoSession | UnknownRequest | NotAuthorised | Approved

  datatype ActivateReply = NoSuchRequest | ActivationDenied(reason: Denial) | DuplicateActiveAdmin | NowActive

  datatype RevokeReply = RevokeForbidden | NotInCentre | RevocationDone

  /** Every request is for a registered identity: the foreign key. */
  ghost predicate ApplicantsKnown(s: Staff.Staff) {
    forall r :: r in s.approvals ==> s.approvals[r].applicant in s.identities
  }

  lemma StepKeepsApplicants(c: CodeHash, s: Staff.Staff, step: Staff.Step)
    requires ApplicantsKnown(s) && Staff.Enabled(s, step)
    ensures ApplicantsKnown(Staff.Apply(c, s, step))
  {
  }

  const MAX_ATTEMPTS: nat := 3

  /** The seat's active binding is for this roll. */
  predicate BoundTo(binding: Option<Hall.Binding>, roll: string) {
    binding.Some? && binding.value.roll == roll
  }

  /** Making the identity ACTIVE would give its centre a second ACTIVE Centre Admin. */
  predicate WouldClash(s: Staff.Staff, id: Id)
    requires id in s.identities
  {
    Staff.SecondAdmin(s, id, s.identities[id].role, s.identities[id].centre)
  }

  /** The failures are exactly the clauses of the match-all rule that do not hold. */
  predicate Reported(failures: seq<Failure>, f: Factors, i: Staff.Identity) {
    forall x :: x in failures <==> Fails(x, f, Facts(i.boundIp, i.status, Staff.IsRevoked(i)))
  }

  class EdgeServer {
    const world: EndToEnd.World
    const codes: CodeHash

    var terminals: map<Id, Hall.Terminal>
    var bindings: seq<Hall.Binding>
    var ledger: seq<Hall.Row>
    var assigning: map<nat, Hall.AssignTx>
    var submitting: map<nat, Hall.SubmitTx>
    var attempts: map<Id, nat>

    var identities: map<Id, Staff.Identity>
    var approvals: map<Id, ApprovalRecord>
    var sessions: set<Staff.Session>
    var clock: int
    ghost var log: seq<Staff.Event>

    ghost function HallState(): Hall.Hall
      reads this
    {
      Hall.Hall(terminals, bindings, ledger, assigning, submitting, map[])
    }

    ghost function StaffState(): Staff.Staff
      reads this
    {
      Staff.Staff(identities, approvals, sessions, clock, log)
    }

    ghost predicate HallValid()
      reads this
    {
      Hall.LedgerInv(world.hall, HallState()) && Seats.SeatInv(HallState())
    }

    ghost predicate StaffValid()
      reads this
    {
      Staff.OneAdmin(StaffState()) && Staff.SessionsBounded(StaffState()) && ApplicantsKnown(StaffState())
    }

    ghost predicate Valid()
      reads this
    {
      HallValid() && StaffValid()
    }

    /** A centre before its exam: free seats, provisioned staff, empty tables. */
    constructor (world: EndToEnd.World, codes: CodeHash, seats: map<Id, Hall.Terminal>,
                 staff: map<Id, Staff.Identity>, now: int)
      requires forall t :: t in seats ==> seats[t].state == Hall.Available
      requires Staff.OneAdmin(Staff.Staff(staff, map[], {}, now, []))
      ensures Valid() && Hall.Init(HallState()) && Staff.Init(StaffState()) && attempts == map[]
      ensures terminals == seats && identities == staff && clock == now
      ensures this.world == world && this.codes == codes
    {
      this.world, this.codes := world, codes;
      terminals, bindings, ledger, assigning, submitting, attempts := seats, [], [], map[], map[], map[];
      identities, approvals, sessions, clock, log := staff, map[], {}, now, [];
      new;
      Hall.RunKeepsLedger(world.hall, [HallState()], [], 0);
      Seats.InitSeats(HallState());
    }

    // ---------- The hall ----------

    /** `POST /api/seat/assign` up to its row lock: any free, healthy, unlocked candidate seat. */
    method SelectSeat(tx: nat, t: Staff.Session, exam: Id, roll: string) returns (reply: SeatReply)
      requires Valid() && tx !in assigning
      modifies this`assigning
      ensures Valid()
      ensures reply.SeatForbidden?
        <==> !(t in sessions && clock <= t.exp && t.role == Invigilator && t.centre.Some?)
      ensures !reply.SeatForbidden? ==>
        (reply.NoFreeSeat? <==> forall seat :: !Hall.Selectable(old(HallState()), seat, t.centre.value))
      ensures reply.SeatLocked? ==>
        && reply.seat in terminals && terminals[reply.seat].centre == t.centre.value
        && terminals[reply.seat].candidateSeat && terminals[reply.seat].state == Hall.Available
        && terminals[reply.seat].healthy && (forall x :: x in old(assigning) ==> old(assigning)[x].seat != reply.seat)
        && assigning == old(assigning)[tx := Hall.AssignTx(reply.seat, exam, roll, t.sub)]
      ensures match reply
        case SeatLocked(seat) =>
          var step := Hall.SelectSeat(tx, seat, t.centre.value, exam, roll, t.sub);
          Hall.Enabled(world.hall, old(HallState()), step)
            && HallState() == Hall.Apply(world.hall, old(HallState()), step)
        case _ => HallState() == old(HallState())
    {
      if !(t in sessions && clock <= t.exp && t.role == Invigilator && t.centre.Some?) { return SeatForbidden; }
      var free := set seat | seat in terminals && terminals[seat].centre == t.centre.value
        && terminals[seat].candidateSeat
        && terminals[seat].state == Hall.Available && terminals[seat].healthy
        && forall x :: x in assigning ==> assigning[x].seat != seat;
      if free == {} {
        assert forall seat :: Hall.Selectable(HallState(), seat, t.centre.value) ==> seat in free;
        return NoFreeSeat;
      }
      var seat :| seat in free;
      ghost var step := Hall.SelectSeat(tx, seat, t.centre.value, exam, roll, t.sub);
      assert Hall.Enabled(world.hall, HallState(), step);
      Hall.StepKeepsLedger(world.hall, HallState(), step);
      Seats.StepKeepsSeats(world.hall, HallState(), step);
      assigning := assigning[tx := Hall.AssignTx(seat, exam, roll, t.sub)];
      return SeatLocked(seat);
    }

    /** The rest of the assignment: the seat becomes ASSIGNED and is bound to the roll. */
    method CommitAssignment(tx: nat) returns (seatNo: string)
      requires Valid() && tx in assigning
      modifies this`terminals, this`bindings, this`assigning
      ensures Valid() && HallState() == Hall.Apply(world.hall, old(HallState()), Hall.CommitAssign(tx))
      ensures terminals[old(assigning[tx].seat)].state == Hall.Assigned
        && seatNo == terminals[old(assigning[tx].seat)].seatNo
      ensures forall i :: 0 <= i < |old(bindings)| ==> old(bindings)[i].terminal != old(assigning[tx].seat)
      ensures var a := old(assigning[tx]);
        bindings == old(bindings)
          + [Hall.Binding(a.seat, old(terminals[a.seat].centre), a.exam, a.roll, a.invigilator, false)]
    {
      var a := assigning[tx];
      Hall.StepKeepsLedger(world.hall, HallState(), Hall.CommitAssign(tx));
      Seats.StepKeepsSeats(world.hall, HallState(), Hall.CommitAssign(tx));
      Seats.FreshSeatUnbound(HallState(), a.seat);
      var terminal := terminals[a.seat];
      seatNo := terminal.seatNo;
      terminals := terminals[a.seat := terminal.(state := Hall.Assigned)];
      bindings := bindings + [Hall.Binding(a.seat, terminal.centre, a.exam, a.roll, a.invigilator, false)];
      assigning := assigning - {tx};
    }

    /** `POST /api/candidate/login`. `dobOk` says whether the date of birth fits the roll in the bound
        exam. Three failures lock the seat: nothing but a success clears the count, and there is none
        after the third. */
    method CandidateLogin(terminal: Id, roll: string, dobOk: bool) returns (reply: CandidateReply)
      requires Valid()
      modifies this`terminals, this`bindings, this`attempts
      ensures Valid()
      ensures reply.LockedOut? <==> terminal in old(attempts) && old(attempts)[terminal] >= 3
      ensures reply.RollNotBound? <==> !reply.LockedOut? && !BoundTo(Hall.ActiveBinding(old(bindings), terminal), roll)
      ensures reply.DobMismatch? <==> !reply.LockedOut? && !reply.RollNotBound? && !dobOk
      ensures reply.SeatAttended? <==> !reply.LockedOut? && Hall.LoginSucceeds(old(HallState()), terminal, roll, dobOk)
      ensures HallState() == if reply.SeatAttended?
        then Hall.Apply(world.hall, old(HallState()), Hall.CandidateLogin(terminal, roll, dobOk)) else old(HallState())
      ensures attempts == match reply
        case LockedOut => old(attempts)
        case SeatAttended => old(attempts) - {terminal}
        case _ => old(attempts)[terminal := (if terminal in old(attempts) then old(attempts)[terminal] else 0) + 1]
      ensures reply.SeatAttended? ==> terminal in terminals && terminals[terminal].state == Hall.Attended
    {
      var used := if terminal in attempts then attempts[terminal] else 0;
      if used >= MAX_ATTEMPTS { return LockedOut; }
      var binding := Hall.ActiveBinding(bindings, terminal);
      if binding.None? || binding.value.roll != roll {
        attempts := attempts[terminal := used + 1];
        return RollNotBound;
      }
      if !dobOk {
        attempts := attempts[terminal := used + 1];
        return DobMismatch;
      }
      attempts := attempts - {terminal};
      ConsumeBindingAttend(terminal, roll);
      return SeatAttended;
    }

    /** `consumeBindingAttend`: the transaction of a successful candidate login. */
    method ConsumeBindingAttend(terminal: Id, ghost roll: string)
      requires Valid() && Hall.LoginSucceeds(HallState(), terminal, roll, true)
      modifies this`terminals, this`bindings
      ensures Valid()
        && HallState() == Hall.Apply(world.hall, old(HallState()), Hall.CandidateLogin(terminal, roll, true))
      ensures terminal in terminals && terminals[terminal].state == Hall.Attended
    {
      ghost var step := Hall.CandidateLogin(terminal, roll, true);
      Hall.StepKeepsLedger(world.hall, HallState(), step);
      Seats.StepKeepsSeats(world.hall, HallState(), step);
      ghost var i := Seats.ActiveFrom(bindings, terminal);
      assert Seats.BindingFits(terminals, bindings[i]);
      bindings := Hall.Consume(bindings, terminal);
      terminals := terminals[terminal := terminals[terminal].(state := Hall.Attended)];
    }

    /** `POST /api/answer/submit` up to the advisory lock, which the caller's turn has come to. */
    method BeginSubmit(tx: nat, terminal: Id, ct: string, iv: string, tag: string, wrappedDk: string)
      returns (reply: SubmitReply)
      requires Valid() && tx !in submitting
      requires terminal in terminals && Hall.ExamOf(bindings, terminal).Some? ==>
        Hall.LockFree(world.hall, HallState(), terminals[terminal].centre, Hall.ExamOf(bindings, terminal).value)
      modifies this`submitting
      ensures Valid()
      ensures reply.MissingFields? <==> terminal == "" || ct == "" || iv == "" || tag == "" || wrappedDk == ""
      ensures reply.UnknownTerminal? <==> !reply.MissingFields? && terminal !in terminals
      ensures reply.SeatNotInExam?
        <==> !reply.MissingFields? && terminal in terminals
             && terminals[terminal].state != Hall.Attended && terminals[terminal].state != Hall.InExam
      ensures reply.SeatNotInExam? ==> reply.state == terminals[terminal].state
      ensures !reply.NoBindingForSeat?
      ensures reply.LockHeld?
        <==> !reply.MissingFields? && terminal in terminals
             && (terminals[terminal].state == Hall.Attended || terminals[terminal].state == Hall.InExam)
      ensures reply.LockHeld? ==> Hall.ExamOf(bindings, terminal).Some?
      ensures if reply.LockHeld? then
          var step := Hall.BeginSubmit(tx, terminal, terminals[terminal].centre, Hall.ExamOf(bindings, terminal).value,
                                       terminals[terminal].seatNo,
                                       Hall.Envelope(FromHex(ct), FromHex(iv), FromHex(tag), FromHex(wrappedDk)));
          && Hall.Checked(old(HallState()), step) && Hall.Enabled(world.hall, old(HallState()), step)
          && HallState() == Hall.Apply(world.hall, old(HallState()), step)
        else HallState() == old(HallState())
    {
      if terminal == "" || ct == "" || iv == "" || tag == "" || wrappedDk == "" { return MissingFields; }
      if terminal !in terminals { return UnknownTerminal; }
      var term := terminals[terminal];
      if term.state != Hall.Attended && term.state != Hall.InExam { return SeatNotInExam(term.state); }
      var exam := Hall.ExamOf(bindings, terminal);
      if exam.None? { return NoBindingForSeat; }
      var envelope := Hall.Envelope(FromHex(ct), FromHex(iv), FromHex(tag), FromHex(wrappedDk));
      ghost var step := Hall.BeginSubmit(tx, terminal, term.centre, exam.value, term.seatNo, envelope);
      Hall.StepKeepsLedger(world.hall, HallState(), step);
      Seats.StepKeepsSeats(world.hall, HallState(), step);
      submitting := submitting[tx := Hall.SubmitTx(terminal, term.centre, exam.value, term.seatNo, envelope, None)];
      return LockHeld;
    }

    /** The query of `lockChainTail`, under the lock. */
    method ReadTail(tx: nat)
      requires Valid() && tx in submitting && submitting[tx].tail.None?
      modifies this`submitting
      ensures Valid() && HallState() == Hall.Apply(world.hall, old(HallState()), Hall.ReadTail(tx))
    {
      Hall.StepKeepsLedger(world.hall, HallState(), Hall.ReadTail(tx));
      Seats.StepKeepsSeats(world.hall, HallState(), Hall.ReadTail(tx));
      var t := submitting[tx];
      submitting := submitting[tx := t.(tail := Some(Hall.TailOf(ledger, t.centre, t.exam)))];
    }

    /** The rest of the submission: append, mark the seat, commit, answer with the receipt. */
    method CommitSubmit(tx: nat) returns (receipt: Hall.Receipt)
      requires Valid() && tx in submitting && submitting[tx].tail.Some?
      modifies this`terminals, this`ledger, this`submitting
      ensures Valid() && HallState() == Hall.Apply(world.hall, old(HallState()), Hall.CommitSubmit(tx))
      ensures |ledger| == |old(ledger)| + 1 && receipt == Hall.ReceiptOf(ledger[|old(ledger)|])
      ensures Hall.ReceiptValid(world.hall.hash, receipt)
      ensures var row := ledger[|old(ledger)|];
        receipt == Hall.Receipt(row.leafIndex, row.leaf, row.prevRoot, row.chainRoot, row.sig)
      ensures receipt.leafIndex == |Hall.ChainOf(old(ledger), old(submitting[tx].centre), old(submitting[tx].exam))|
    {
      var t := submitting[tx];
      Hall.StepKeepsLedger(world.hall, HallState(), Hall.CommitSubmit(tx));
      Seats.StepKeepsSeats(world.hall, HallState(), Hall.CommitSubmit(tx));
      assert Seats.SubmitFits(HallState(), t);
      Hall.NextIndex(world.hall, HallState(), tx);
      var row := Hall.NewRow(world.hall, t);
      ledger := ledger + [row];
      terminals := terminals[t.terminal := terminals[t.terminal].(state := Hall.Submitted)];
      submitting := submitting - {tx};
      return Hall.ReceiptOf(row);
    }

    /** `GET /api/answer/receipt/:leaf`: a leaf on the ledger is always found with a valid witness. */
    method Receipt(leaf: string) returns (reply: ReceiptReply)
      requires Valid()
      ensures reply.BadLeaf? <==> |leaf| != 64 || exists i :: 0 <= i < |leaf| && !IsHexDigit(leaf[i])
      ensures reply.UnknownLeaf?
        <==> !reply.BadLeaf? && forall k :: 0 <= k < |ledger| ==> ledger[k].leaf != FromHex(leaf)
      ensures reply.ReceiptFound? ==> reply.chainValid
      ensures reply.ReceiptFound? ==> exists k ::
        0 <= k < |ledger| && ledger[k].leaf == FromHex(leaf) && reply.receipt == Hall.ReceiptOf(ledger[k])
    {
      if |leaf| != 64 || exists i :: 0 <= i < |leaf| && !IsHexDigit(leaf[i]) { return BadLeaf; }
      for k := 0 to |ledger|
        invariant forall j :: 0 <= j < k ==> ledger[j].leaf != FromHex(leaf)
      {
        if ledger[k].leaf == FromHex(leaf) {
          Hall.LedgerRowValid(world.hall, HallState(), k);
          var receipt := Hall.ReceiptOf(ledger[k]);
          return ReceiptFound(receipt, Hall.ReceiptValid(world.hall.hash, receipt));
        }
      }
      return UnknownLeaf;
    }

    /** `POST /api/admin/ledger/export`. `egressOpen` is the egress gate's decision. */
    method ExportLedger(t: Staff.Session, exam: Id, egressOpen: bool, at: int) returns (reply: ExportReply)
      requires Valid()
      modifies this`ledger
      ensures Valid()
      ensures reply.ExportForbidden?
        <==> !(t in sessions && clock <= t.exp && t.role == CentreAdmin && t.centre.Some?)
      ensures reply.MissingExam? <==> !reply.ExportForbidden? && exam == ""
      ensures reply.EgressNotOpen? <==> !reply.ExportForbidden? && exam != "" && !egressOpen
      ensures !reply.ExportForbidden? && exam != "" && egressOpen ==>
        (reply.Exported? <==> EndToEnd.Export(old(ledger), t.centre.value, exam) != [])
      ensures match reply
        case Exported(bundle) =>
          var records := EndToEnd.Export(old(ledger), t.centre.value, exam);
          && bundle == EndToEnd.MakeBundle(world, t.centre.value, records, at)
          && bundle.manifest == Hq.Manifest(t.centre.value, |records|, records, at)
          && HallState() == Hall.Apply(world.hall, old(HallState()),
                                       Hall.MarkSynced(t.centre.value, EndToEnd.LeafSet(records)))
          && EndToEnd.Export(ledger, t.centre.value, exam) == []
        case _ => HallState() == old(HallState())
    {
      if !(t in sessions && clock <= t.exp && t.role == CentreAdmin && t.centre.Some?) { return ExportForbidden; }
      if exam == "" { return MissingExam; }
      if !egressOpen { return EgressNotOpen; }
      var centre := t.centre.value;
      var records := EndToEnd.Export(ledger, centre, exam);
      if records == [] { return NothingToExport; }
      var bundle := EndToEnd.MakeBundle(world, centre, records, at);
      ghost var step := Hall.MarkSynced(centre, EndToEnd.LeafSet(records));
      EndToEnd.ExportedOnce(world, HallState(), centre, exam);
      Hall.StepKeepsLedger(world.hall, HallState(), step);
      Seats.StepKeepsSeats(world.hall, HallState(), step);
      ledger := Hall.Mark(ledger, centre, EndToEnd.LeafSet(records));
      return Exported(bundle);
    }

    // ---------- The staff ----------

    ghost method StaffStep(step: Staff.Step)
      requires StaffValid() && Staff.Enabled(StaffState(), step)
      ensures var s' := Staff.Apply(codes, StaffState(), step);
        Staff.OneAdmin(s') && Staff.SessionsBounded(s') && ApplicantsKnown(s')
    {
      Staff.StepKeepsOneAdmin(codes, StaffState(), step);
      Staff.StepKeepsSessionsBounded(codes, StaffState(), step);
      StepKeepsApplicants(codes, StaffState(), step);
    }

    method Tick(now: int)
      requires Valid() && clock <= now
      modifies this`clock
      ensures Valid() && StaffState() == Staff.Apply(codes, old(StaffState()), Staff.Tick(now))
    {
      StaffStep(Staff.Tick(now));
      clock := now;
    }

    /** The two registration routes; the identifiers are the database's fresh ones. */
    method Register(kind: Kind, identity: Id, request: Id, centre: Id, ip: Option<string>, terminal: Option<Id>)
      requires Valid() && identity !in identities && request !in approvals
      modifies this`identities, this`approvals
      ensures Valid()
      ensures StaffState()
        == Staff.Apply(codes, old(StaffState()), Staff.Register(kind, identity, request, centre, ip, terminal))
    {
      StaffStep(Staff.Register(kind, identity, request, centre, ip, terminal));
      identities := identities[identity := Staff.Identity(Staff.RoleOf(kind), Some(centre), PendingApproval, ip,
                                                          terminal, clock, None)];
      approvals := approvals[request :=
        ApprovalRecord(request, kind, identity, Some(centre), None, None, false, false, PendingApproval)];
    }

    /** The three privileged logins. */
    method Login(role: Role, terminal: Id, f: Factors) returns (reply: LoginReply)
      requires Valid()
      modifies this`sessions, this`log
      ensures Valid()
      ensures reply.NoIdentityForStation? <==> forall id :: !Staff.AtStation(old(StaffState()), role, terminal, id)
      ensures match reply
        case LoggedIn(token) =>
          && Staff.LoginSucceeds(old(StaffState()), role, terminal, token.sub, f)
          && token == Staff.SessionFor(old(StaffState()), role, terminal, token.sub)
          && StaffState() == Staff.Apply(codes, old(StaffState()), Staff.Login(role, terminal, token.sub, f))
        case LoginDenied(failures) => StaffState() == old(StaffState()) && failures != []
          && exists id :: Staff.AtStation(old(StaffState()), role, terminal, id)
               && Reported(failures, f, old(identities)[id])
        case NoIdentityForStation => StaffState() == old(StaffState())
    {
      var found := FindStaffByStation(role, terminal);
      if found.None? { return NoIdentityForStation; }
      var id := found.value;
      var i := identities[id];
      var ok, failures := EvaluateMatchAll(f, Facts(i.boundIp, i.status, Staff.IsRevoked(i)));
      if !ok { return LoginDenied(failures); }
      StaffStep(Staff.Login(role, terminal, id, f));
      var token := Staff.Session(id, terminal, role, if role == SystemAdmin then None else i.centre,
                                 clock + Staff.IDLE_MS);
      sessions := sessions + {token};
      log := log + [Staff.LoggedIn(id, role, token.centre, clock)];
      return LoggedIn(token);
    }

    /** `ORDER BY created_at DESC LIMIT 1` over the identities bound to the station. */
    method FindStaffByStation(role: Role, terminal: Id) returns (found: Option<Id>)
      ensures found.Some? ==> Staff.AtStation(StaffState(), role, terminal, found.value)
      ensures found.None? ==> forall id :: !Staff.AtStation(StaffState(), role, terminal, id)
    {
      var todo := set id | id in identities && identities[id].role == role
        && identities[id].boundTerminal == Some(terminal);
      ghost var all := todo;
      found := None;
      while todo != {}
        invariant todo <= all
        invariant found.None? <==> todo == all
        invariant found.Some? ==> found.value in all
        invariant found.Some? ==> forall o ::
          o in all && o !in todo ==> identities[o].createdAt <= identities[found.value].createdAt
        decreases |todo|
      {
        var id :| id in todo;
        if found.None? || identities[found.value].createdAt <= identities[id].createdAt { found := Some(id); }
        todo := todo - {id};
      }
      assert forall id :: Staff.AtStation(StaffState(), role, terminal, id) ==> id in all;
    }

    /** `issue-code` on the system or the admin route; a fresh code and salt are arguments. */
    method IssueOneTimeCode(t: Staff.Session, request: Id, code: string, salt: Bytes, systemRoute: bool)
      returns (reply: ApproveReply)
      requires Valid()
      modifies this`approvals, this`log
      ensures Valid()
      ensures reply.Approved? <==> Staff.MayApprove(old(StaffState()), t, request, systemRoute)
      ensures StaffState() == Staff.Apply(codes, old(StaffState()), Staff.Issue(t, request, code, salt, systemRoute))
    {
      StaffStep(Staff.Issue(t, request, code, salt, systemRoute));
      reply := MayApprove(t, request, systemRoute);
      if !reply.Approved? { return; }
      approvals := approvals[request := IssueCode(codes, approvals[request], code, salt, clock)];
      log := log + [Staff.Issued(request, t.sub, t.role, t.centre, clock, approvals[request].codeHash.value)];
    }

    /** The guard of the two approval handlers, in the order of their refusals. */
    method MayApprove(t: Staff.Session, request: Id, systemRoute: bool) returns (reply: ApproveReply)
      ensures reply.Approved? <==> Staff.MayApprove(StaffState(), t, request, systemRoute)
      ensures reply.NoSession? <==> !(t in sessions && clock <= t.exp) || (systemRoute && t.role != SystemAdmin)
      ensures reply.UnknownRequest? <==> !reply.NoSession? && request !in approvals
    {
      if !(t in sessions && clock <= t.exp) || (systemRoute && t.role != SystemAdmin) { return NoSession; }
      if request !in approvals { return UnknownRequest; }
      var record := approvals[request];
      if systemRoute && record.kind != CentreAdminRegistration { return NotAuthorised; }
      if !CanApprove(t.role, record.kind, t.centre, record.centre) { return NotAuthorised; }
      return Approved;
    }

    /** `authorise-fp` on either route. */
    method AuthoriseFp(t: Staff.Session, request: Id, systemRoute: bool) returns (reply: ApproveReply)
      requires Valid()
      modifies this`approvals, this`log
      ensures Valid()
      ensures reply.Approved? <==> Staff.MayApprove(old(StaffState()), t, request, systemRoute)
      ensures StaffState() == Staff.Apply(codes, old(StaffState()), Staff.AuthoriseFp(t, request, systemRoute))
    {
      StaffStep(Staff.AuthoriseFp(t, request, systemRoute));
      reply := MayApprove(t, request, systemRoute);
      if reply.Approved? {
        approvals := approvals[request := AuthoriseFingerprint(approvals[request])];
        log := log + [Staff.FpAuthorised(request, t.sub, t.role, t.centre, clock)];
      }
    }

    /** `activate`: the rule, then one transaction that the unique index may roll back. */
    method ActivateIdentity(request: Id, code: string, fingerprintMatches: bool) returns (reply: ActivateReply)
      requires Valid()
      modifies this`approvals, this`identities, this`log
      ensures Valid()
      ensures reply.NoSuchRequest? <==> request !in old(approvals)
      ensures reply.ActivationDenied? <==>
        request in old(approvals) && Activate(codes, old(approvals)[request], code, fingerprintMatches, clock).Denied?
      ensures reply.ActivationDenied? ==>
        Activate(codes, old(approvals)[request], code, fingerprintMatches, clock) == Denied(reply.reason)
      ensures StaffState()
        == Staff.Apply(codes, old(StaffState()), Staff.ActivateIdentity(request, code, fingerprintMatches))
      ensures reply.NowActive?
        <==> request in old(approvals) && !reply.ActivationDenied? && !reply.DuplicateActiveAdmin?
      ensures request in old(approvals) && !reply.ActivationDenied? ==>
        (reply.DuplicateActiveAdmin? <==> WouldClash(old(StaffState()), old(approvals)[request].applicant))
      ensures reply.NowActive?
        ==> identities[old(approvals)[request].applicant].status == Active && approvals[request].codeConsumed
      ensures !reply.NowActive? ==> StaffState() == old(StaffState())
    {
      if request !in approvals { return NoSuchRequest; }
      var result := Activate(codes, approvals[request], code, fingerprintMatches, clock);
      if result.Denied? { return ActivationDenied(result.reason); }
      var done := CommitActivation(request, result.record, code, fingerprintMatches);
      return if done then NowActive else DuplicateActiveAdmin;
    }

    /** The transaction of an activation: consume the code, make the identity ACTIVE. The unique index
        rolls both back. */
    method CommitActivation(request: Id, record: ApprovalRecord, ghost code: string, ghost fingerprintMatches: bool)
      returns (done: bool)
      requires Valid() && request in approvals
      requires Activate(codes, approvals[request], code, fingerprintMatches, clock) == Granted(record)
      modifies this`approvals, this`identities, this`log
      ensures Valid()
      ensures StaffState()
        == Staff.Apply(codes, old(StaffState()), Staff.ActivateIdentity(request, code, fingerprintMatches))
      ensures done ==> approvals[request] == record && identities[record.applicant].status == Active
      ensures !done ==> StaffState() == old(StaffState())
      ensures done <==> !WouldClash(old(StaffState()), record.applicant)
    {
      StaffStep(Staff.ActivateIdentity(request, code, fingerprintMatches));
      var id := record.applicant;
      var i := identities[id];
      if i.role == CentreAdmin && i.centre.Some?
        && exists o :: o in identities && o != id && identities[o].role == CentreAdmin
             && identities[o].centre == i.centre && identities[o].status == Active
      {
        return false;
      }
      approvals := approvals[request := record];
      identities := identities[id := i.(status := Active)];
      log := log + [Staff.Activated(request, id, i.role, i.centre, clock, code, fingerprintMatches)];
      return true;
    }

    /** One staff row of a provisioning bundle: an upsert that never touches the revocation date. */
    method ProvisionStaff(id: Id, role: Role, centre: Id, status: Status) returns (ok: bool)
      requires Valid()
      modifies this`identities
      ensures Valid()
        && StaffState() == Staff.Apply(codes, old(StaffState()), Staff.Provision(id, role, centre, status))
      ensures ok <==> !(status == Active && Staff.SecondAdmin(old(StaffState()), id, role, Some(centre)))
      ensures ok ==> id in identities && identities[id].status == status
      ensures id in old(identities) ==> identities[id].revokedAt == old(identities)[id].revokedAt
    {
      StaffStep(Staff.Provision(id, role, centre, status));
      if status == Active && role == CentreAdmin
        && exists o :: o in identities && o != id && identities[o].role == CentreAdmin
             && identities[o].centre == Some(centre) && identities[o].status == Active
      {
        return false;
      }
      if id in identities {
        identities := identities[id := identities[id].(role := role, centre := Some(centre), status := status)];
      } else {
        identities := identities[id := Staff.Identity(role, Some(centre), status, None, None, clock, None)];
      }
      return true;
    }

    /** `revoke`: by a Centre Admin, in its own centre. */
    method Revoke(t: Staff.Session, target: Id) returns (reply: RevokeReply)
      requires Valid()
      modifies this`identities
      ensures Valid()
      ensures reply.RevokeForbidden? <==> !(t in sessions && clock <= t.exp && t.role == CentreAdmin && t.centre.Some?)
      ensures reply.NotInCentre? <==>
        && !reply.RevokeForbidden? && (target !in old(identities) || old(identities)[target].centre != t.centre)
      ensures reply.RevocationDone? <==> !reply.RevokeForbidden? && !reply.NotInCentre?
      ensures identities == if reply.RevocationDone? then
          old(identities)[target := old(identities)[target].(status := Revoked, revokedAt := Some(clock))]
        else old(identities)
      ensures StaffState() == Staff.Apply(codes, old(StaffState()), Staff.Revoke(t, target))
    {
      StaffStep(Staff.Revoke(t, target));
      if !(t in sessions && clock <= t.exp && t.role == CentreAdmin && t.centre.Some?) { return RevokeForbidden; }
      if target !in identities || identities[target].centre != t.centre { return NotInCentre; }
      identities := identities[target := identities[target].(status := Revoked, revokedAt := Some(clock))];
      return RevocationDone;
    }
  }
}
