/** The seats of the hall: bindings, seat states, and the correspondence between an exam's ledger and
    its submitted seats. The last depends on the check that a submission makes before it asks for the
    lock, and this module says exactly how. */
module HallSeats {
  import opened ByteStrings
  import opened HallProtocol

  /** No seat is bound twice. */
  ghost predicate BoundOnce(bindings: seq<Binding>) {
    forall i, j :: 0 <= i < j < |bindings| ==> bindings[i].terminal != bindings[j].terminal
  }

  /** A bound seat has left AVAILABLE, and its binding is unconsumed exactly while it is ASSIGNED. */
  predicate BindingFits(terminals: map<Id, Terminal>, b: Binding) {
    && b.terminal in terminals && terminals[b.terminal].centre == b.centre
    && terminals[b.terminal].state != Available
    && (b.consumed <==> terminals[b.terminal].state != Assigned)
  }

  ghost predicate BindingsFit(terminals: map<Id, Terminal>, bindings: seq<Binding>) {
    forall i :: 0 <= i < |bindings| ==> BindingFits(terminals, bindings[i])
  }

  ghost predicate OccupiedAreBound(terminals: map<Id, Terminal>, bindings: seq<Binding>) {
    forall t :: t in terminals && terminals[t].state != Available ==> LatestBinding(bindings, t).Some?
  }

  /** A locked seat is free, and locked once. */
  ghost predicate LockedAreFree(terminals: map<Id, Terminal>, assigning: map<nat, AssignTx>) {
    && (forall x :: x in assigning
          ==> assigning[x].seat in terminals && terminals[assigning[x].seat].state == Available)
    && (forall x, y :: x in assigning && y in assigning && x != y ==> assigning[x].seat != assigning[y].seat)
  }

  /** The seat exists, is the one submitted for, and its candidate has logged in; it may have
      submitted since. */
  predicate Belongs(s: Hall, terminal: Id, c: Id, e: Id, seatNo: string) {
    && terminal in s.terminals && s.terminals[terminal].centre == c && s.terminals[terminal].seatNo == seatNo
    && (s.terminals[terminal].state == Attended || s.terminals[terminal].state == InExam
      || s.terminals[terminal].state == Submitted)
    && ExamOf(s.bindings, terminal) == Some(e)
  }

  ghost predicate SubmitBelongs(s: Hall, t: SubmitTx) {
    Belongs(s, t.terminal, t.centre, t.exam, t.seatNo)
  }

  ghost predicate SubmitsBelong(s: Hall) {
    forall x :: x in s.submitting ==> SubmitBelongs(s, s.submitting[x])
  }

  /** The handler's check of an open submission still holds. */
  ghost predicate SubmitFits(s: Hall, t: SubmitTx) {
    SubmitChecks(s, t.terminal, t.centre, t.exam, t.seatNo)
  }

  ghost predicate SubmitsFit(s: Hall) {
    forall x :: x in s.submitting ==> SubmitFits(s, s.submitting[x])
  }

  /** The seats of (centre, exam) that have submitted. */
  function SubmittedSeats(terminals: map<Id, Terminal>, bindings: seq<Binding>, c: Id, e: Id): set<Id> {
    set t | t in terminals && terminals[t].state == Submitted && terminals[t].centre == c
      && ExamOf(bindings, t) == Some(e)
  }

  function SeatNumbers(terminals: map<Id, Terminal>, seats: set<Id>): set<string>
    requires seats <= terminals.Keys
  {
    set t | t in seats :: terminals[t].seatNo
  }

  function RowSeatNumbers(rows: seq<Row>): set<string> {
    set i | 0 <= i < |rows| :: rows[i].seatNo
  }

  /** The ledger of (centre, exam) and its submitted seats correspond: as many rows as seats, and
      the same seat numbers. */
  ghost predicate RowsAreSeats(terminals: map<Id, Terminal>, bindings: seq<Binding>, ledger: seq<Row>, c: Id, e: Id) {
    var seats := SubmittedSeats(terminals, bindings, c, e);
    |ChainOf(ledger, c, e)| == |seats| && RowSeatNumbers(ChainOf(ledger, c, e)) == SeatNumbers(terminals, seats)
  }

  ghost predicate LedgerIsSeats(s: Hall) {
    forall c, e :: RowsAreSeats(s.terminals, s.bindings, s.ledger, c, e)
  }

  /** The seat exists and has been bound. */
  predicate IsBound(s: Hall, terminal: Id) {
    terminal in s.terminals && s.terminals[terminal].state != Available
  }

  ghost predicate LoginsBound(s: Hall) {
    forall x :: x in s.loggingIn ==> IsBound(s, s.loggingIn[x])
  }

  /** What holds even if submissions are checked too early and logins commit too late. */
  ghost predicate SeatCore(s: Hall) {
    && BoundOnce(s.bindings) && BindingsFit(s.terminals, s.bindings) && OccupiedAreBound(s.terminals, s.bindings)
    && LockedAreFree(s.terminals, s.assigning) && SubmitsBelong(s) && LoginsBound(s)
  }

  ghost predicate SeatInv(s: Hall) {
    SeatCore(s) && SubmitsFit(s) && LedgerIsSeats(s)
  }

  lemma {:induction false} LatestIs(bindings: seq<Binding>, i: nat)
    requires BoundOnce(bindings) && i < |bindings|
    ensures LatestBinding(bindings, bindings[i].terminal) == Some(bindings[i])
  {
    var n := |bindings| - 1;
    if i < n {
      LatestIs(bindings[..n], i);
    }
  }

  lemma {:induction false} LatestFrom(bindings: seq<Binding>, t: Id) returns (i: nat)
    requires LatestBinding(bindings, t).Some?
    ensures i < |bindings| && bindings[i].terminal == t && LatestBinding(bindings, t) == Some(bindings[i])
  {
    var n := |bindings| - 1;
    if bindings[n].terminal == t {
      i := n;
    } else {
      i := LatestFrom(bindings[..n], t);
    }
  }

  lemma {:induction false} ActiveFrom(bindings: seq<Binding>, t: Id) returns (i: nat)
    requires ActiveBinding(bindings, t).Some?
    ensures i < |bindings| && bindings[i].terminal == t && !bindings[i].consumed
      && ActiveBinding(bindings, t) == Some(bindings[i])
  {
    var n := |bindings| - 1;
    if bindings[n].terminal == t && !bindings[n].consumed {
      i := n;
    } else {
      i := ActiveFrom(bindings[..n], t);
    }
  }

  lemma {:induction false} ActiveExists(bindings: seq<Binding>, i: nat)
    requires i < |bindings| && !bindings[i].consumed
    ensures ActiveBinding(bindings, bindings[i].terminal).Some?
  {
    var n := |bindings| - 1;
    if i < n {
      ActiveExists(bindings[..n], i);
    }
  }

  lemma {:induction false} ConsumeKeepsExam(bindings: seq<Binding>, t: Id, u: Id)
    ensures ExamOf(Consume(bindings, t), u) == ExamOf(bindings, u)
    ensures LatestBinding(Consume(bindings, t), u).Some? <==> LatestBinding(bindings, u).Some?
  {
    if |bindings| > 0 {
      var n := |bindings| - 1;
      ConsumeKeepsExam(bindings[..n], t, u);
      assert Consume(bindings, t)[..n] == Consume(bindings[..n], t);
    }
  }

  /** A seat is ASSIGNED exactly when it has an unconsumed binding, which is then its only one. */
  lemma AssignedIffActive(s: Hall, t: Id)
    requires SeatCore(s) && t in s.terminals
    ensures s.terminals[t].state == Assigned <==> ActiveBinding(s.bindings, t).Some?
    ensures forall i, j ::
      0 <= i < |s.bindings| && 0 <= j < |s.bindings| && s.bindings[i].terminal == s.bindings[j].terminal ==> i == j
  {
    if s.terminals[t].state == Assigned {
      var i := LatestFrom(s.bindings, t);
      assert BindingFits(s.terminals, s.bindings[i]);
      ActiveExists(s.bindings, i);
    }
    if ActiveBinding(s.bindings, t).Some? {
      var i := ActiveFrom(s.bindings, t);
      assert BindingFits(s.terminals, s.bindings[i]);
    }
  }

  lemma FreshSeatUnbound(s: Hall, seat: Id)
    requires SeatCore(s) && seat in s.terminals && s.terminals[seat].state == Available
    ensures forall i :: 0 <= i < |s.bindings| ==> s.bindings[i].terminal != seat
  {
    forall i | 0 <= i < |s.bindings| ensures s.bindings[i].terminal != seat {
      assert BindingFits(s.terminals, s.bindings[i]);
    }
  }

  // ---------- Bindings and seat states, step by step ----------

  /** Steps that touch neither seats nor bindings. */
  predicate IsQuiet(step: Step) {
    !step.CommitAssign? && !step.CandidateLogin? && !step.CommitLogin? && !step.CommitSubmit? && !step.Heartbeat?
  }

  lemma QuietStep(env: Env, s: Hall, step: Step)
    requires Enabled(env, s, step) && IsQuiet(step)
    ensures Apply(env, s, step).terminals == s.terminals && Apply(env, s, step).bindings == s.bindings
    ensures !step.MarkSynced? ==> Apply(env, s, step).ledger == s.ledger
  {
  }

  lemma LatestAfterAssign(s: Hall, tx: nat, t: Id)
    requires SeatCore(s) && tx in s.assigning && t != s.assigning[tx].seat
    ensures LatestBinding(DoCommitAssign(s, tx).bindings, t) == LatestBinding(s.bindings, t)
  {
    assert DoCommitAssign(s, tx).bindings[..|s.bindings|] == s.bindings;
  }

  lemma CommitAssignKeepsCore(s: Hall, tx: nat)
    requires SeatCore(s) && tx in s.assigning
    ensures SeatCore(DoCommitAssign(s, tx))
  {
    var s' := DoCommitAssign(s, tx);
    var seat := s.assigning[tx].seat;
    FreshSeatUnbound(s, seat);
    forall t | t != seat ensures LatestBinding(s'.bindings, t) == LatestBinding(s.bindings, t) {
      LatestAfterAssign(s, tx, t);
    }
    forall i | 0 <= i < |s'.bindings| ensures BindingFits(s'.terminals, s'.bindings[i]) {
      if i < |s.bindings| {
        assert BindingFits(s.terminals, s.bindings[i]);
      }
    }
    forall x | x in s'.submitting ensures SubmitBelongs(s', s'.submitting[x]) {
      assert SubmitBelongs(s, s.submitting[x]);
    }
  }

  /** The transaction of a login keeps the bindings in order on every seat that has been bound. */
  lemma AttendKeepsCore(s: Hall, terminal: Id)
    requires SeatCore(s) && IsBound(s, terminal)
    ensures SeatCore(Attend(s, terminal))
  {
    AttendBindings(s, terminal);
    forall u ensures ExamOf(Consume(s.bindings, terminal), u) == ExamOf(s.bindings, u)
      && (LatestBinding(Consume(s.bindings, terminal), u).Some? <==> LatestBinding(s.bindings, u).Some?)
    {
      ConsumeKeepsExam(s.bindings, terminal, u);
    }
    forall x | x in s.submitting ensures SubmitBelongs(Attend(s, terminal), s.submitting[x]) {
      AttendBelongs(s, terminal, s.submitting[x]);
    }
  }

  lemma AttendBindings(s: Hall, terminal: Id)
    requires SeatCore(s) && IsBound(s, terminal)
    ensures BoundOnce(Attend(s, terminal).bindings)
      && BindingsFit(Attend(s, terminal).terminals, Attend(s, terminal).bindings)
  {
    var s' := Attend(s, terminal);
    forall i | 0 <= i < |s'.bindings| ensures BindingFits(s'.terminals, s'.bindings[i]) {
      assert BindingFits(s.terminals, s.bindings[i]);
    }
  }

  lemma AttendBelongs(s: Hall, terminal: Id, t: SubmitTx)
    requires SeatCore(s) && IsBound(s, terminal) && SubmitBelongs(s, t)
    ensures SubmitBelongs(Attend(s, terminal), t)
    ensures SubmitFits(s, t) ==> SubmitFits(Attend(s, terminal), t)
  {
    ConsumeKeepsExam(s.bindings, terminal, t.terminal);
  }

  lemma LoginSeat(s: Hall, terminal: Id, roll: string, dobOk: bool)
    requires SeatCore(s) && LoginSucceeds(s, terminal, roll, dobOk)
    ensures terminal in s.terminals && s.terminals[terminal].state == Assigned
    ensures DoCandidateLogin(s, terminal, roll, dobOk) == Attend(s, terminal)
  {
    var k := ActiveFrom(s.bindings, terminal);
    assert BindingFits(s.terminals, s.bindings[k]);
  }

  lemma CommitSubmitKeepsCore(env: Env, s: Hall, tx: nat)
    requires SeatCore(s) && tx in s.submitting && s.submitting[tx].tail.Some?
    ensures SeatCore(DoCommitSubmit(env, s, tx))
  {
    var s' := DoCommitSubmit(env, s, tx);
    assert SubmitBelongs(s, s.submitting[tx]);
    forall i | 0 <= i < |s'.bindings| ensures BindingFits(s'.terminals, s'.bindings[i]) {
      assert BindingFits(s.terminals, s.bindings[i]);
    }
    forall x | x in s'.submitting ensures SubmitBelongs(s', s'.submitting[x]) {
      assert SubmitBelongs(s, s.submitting[x]);
    }
  }

  /** Steps that change neither seats nor bindings. */
  lemma QuietKeepsCore(s: Hall, s': Hall)
    requires SeatCore(s) && s'.terminals == s.terminals && s'.bindings == s.bindings
    requires LockedAreFree(s'.terminals, s'.assigning)
    requires forall x :: x in s'.submitting ==>
      Belongs(s, s'.submitting[x].terminal, s'.submitting[x].centre, s'.submitting[x].exam, s'.submitting[x].seatNo)
    requires forall x :: x in s'.loggingIn ==> IsBound(s, s'.loggingIn[x])
    ensures SeatCore(s')
  {
  }

  lemma CommitLoginKeepsCore(s: Hall, tx: nat)
    requires SeatCore(s) && tx in s.loggingIn
    ensures SeatCore(DoCommitLogin(s, tx))
  {
    assert IsBound(s, s.loggingIn[tx]);
    var s' := Attend(s, s.loggingIn[tx]);
    AttendKeepsCore(s, s.loggingIn[tx]);
    forall x | x in s'.submitting
      ensures Belongs(s', s'.submitting[x].terminal, s'.submitting[x].centre, s'.submitting[x].exam,
                      s'.submitting[x].seatNo)
    {
      assert SubmitBelongs(s', s'.submitting[x]);
    }
    QuietKeepsCore(s', DoCommitLogin(s, tx));
  }

  lemma OpenLoginKeepsCore(env: Env, s: Hall, step: Step)
    requires SeatCore(s) && Enabled(env, s, step) && (step.ReadBinding? || step.RollbackLogin?)
    ensures SeatCore(Apply(env, s, step))
  {
    if step.ReadBinding? {
      LoginSeat(s, step.terminal, step.roll, step.dobOk);
    }
    forall x | x in s.submitting
      ensures Belongs(s, s.submitting[x].terminal, s.submitting[x].centre, s.submitting[x].exam, s.submitting[x].seatNo)
    {
      assert SubmitBelongs(s, s.submitting[x]);
    }
    QuietKeepsCore(s, Apply(env, s, step));
  }

  lemma HeartbeatKeepsCore(s: Hall, terminal: Id, healthy: bool)
    requires SeatCore(s) && terminal in s.terminals
    ensures SeatCore(s.(terminals := s.terminals[terminal := s.terminals[terminal].(healthy := healthy)]))
  {
    var s' := s.(terminals := s.terminals[terminal := s.terminals[terminal].(healthy := healthy)]);
    forall i | 0 <= i < |s'.bindings| ensures BindingFits(s'.terminals, s'.bindings[i]) {
      assert BindingFits(s.terminals, s.bindings[i]);
    }
    forall x | x in s'.submitting ensures SubmitBelongs(s', s'.submitting[x]) {
      assert SubmitBelongs(s, s.submitting[x]);
    }
  }

  lemma OpenSubmitKeepsCore(env: Env, s: Hall, step: Step)
    requires SeatCore(s) && Enabled(env, s, step) && (step.BeginSubmit? || step.ReadTail? || step.RollbackSubmit?)
    requires step.BeginSubmit? ==> Belongs(s, step.terminal, step.centre, step.exam, step.seatNo)
    ensures SeatCore(Apply(env, s, step))
  {
    var s' := Apply(env, s, step);
    forall x | x in s'.submitting
      ensures Belongs(s, s'.submitting[x].terminal, s'.submitting[x].centre, s'.submitting[x].exam,
                      s'.submitting[x].seatNo)
    {
      if x in s.submitting {
        assert SubmitBelongs(s, s.submitting[x]);
      }
    }
    QuietKeepsCore(s, s');
  }

  lemma OpenAssignKeepsCore(env: Env, s: Hall, step: Step)
    requires SeatCore(s) && Enabled(env, s, step) && (step.SelectSeat? || step.RollbackAssign? || step.MarkSynced?)
    ensures SeatCore(Apply(env, s, step))
  {
    forall x | x in s.submitting
      ensures Belongs(s, s.submitting[x].terminal, s.submitting[x].centre, s.submitting[x].exam, s.submitting[x].seatNo)
    {
      assert SubmitBelongs(s, s.submitting[x]);
    }
    QuietKeepsCore(s, Apply(env, s, step));
  }

  /** Every enabled step keeps seats and bindings in order; of a submission it is only asked that its
      check held once. */
  lemma StepKeepsCore(env: Env, s: Hall, step: Step)
    requires SeatCore(s) && Enabled(env, s, step)
    requires step.BeginSubmit? ==> Belongs(s, step.terminal, step.centre, step.exam, step.seatNo)
    ensures SeatCore(Apply(env, s, step))
  {
    if IsQuiet(step) {
      QuietStepKeepsCore(env, s, step);
    } else if step.CommitAssign? {
      CommitAssignKeepsCore(s, step.tx);
    } else if step.CommitLogin? {
      CommitLoginKeepsCore(s, step.tx);
    } else if step.CommitSubmit? {
      CommitSubmitKeepsCore(env, s, step.tx);
    } else {
      OtherKeepsCore(env, s, step);
    }
  }

  lemma QuietStepKeepsCore(env: Env, s: Hall, step: Step)
    requires SeatCore(s) && Enabled(env, s, step) && IsQuiet(step)
    requires step.BeginSubmit? ==> Belongs(s, step.terminal, step.centre, step.exam, step.seatNo)
    ensures SeatCore(Apply(env, s, step))
  {
    if step.BeginSubmit? || step.ReadTail? || step.RollbackSubmit? {
      OpenSubmitKeepsCore(env, s, step);
    } else if step.ReadBinding? || step.RollbackLogin? {
      OpenLoginKeepsCore(env, s, step);
    } else {
      OpenAssignKeepsCore(env, s, step);
    }
  }

  lemma OtherKeepsCore(env: Env, s: Hall, step: Step)
    requires SeatCore(s) && Enabled(env, s, step) && (step.CandidateLogin? || step.Heartbeat?)
    ensures SeatCore(Apply(env, s, step))
  {
    if step.CandidateLogin? {
      if LoginSucceeds(s, step.terminal, step.roll, step.dobOk) {
        LoginSeat(s, step.terminal, step.roll, step.dobOk);
        AttendKeepsCore(s, step.terminal);
      }
    } else if step.terminal in s.terminals {
      HeartbeatKeepsCore(s, step.terminal, step.healthy);
    }
  }

  // ---------- Rows and submitted seats, step by step ----------

  /** If no seat enters or leaves SUBMITTED, the submitted seats and their numbers stay. */
  lemma SameSubmitted(ts: map<Id, Terminal>, bs: seq<Binding>, ts': map<Id, Terminal>, bs': seq<Binding>, c: Id, e: Id)
    requires ts.Keys == ts'.Keys
    requires forall t :: t in ts ==> ts'[t].centre == ts[t].centre && ts'[t].seatNo == ts[t].seatNo
    requires forall t :: t in ts ==> (ts'[t].state == Submitted <==> ts[t].state == Submitted)
    requires forall t :: t in ts && ts[t].state == Submitted ==> ExamOf(bs', t) == ExamOf(bs, t)
    ensures SubmittedSeats(ts', bs', c, e) == SubmittedSeats(ts, bs, c, e)
    ensures SeatNumbers(ts', SubmittedSeats(ts', bs', c, e)) == SeatNumbers(ts, SubmittedSeats(ts, bs, c, e))
  {
    assert SubmittedSeats(ts', bs', c, e) == SubmittedSeats(ts, bs, c, e);
  }

  /** A seat that submits joins the submitted seats of its own (centre, exam) and no others. */
  lemma SubmittedJoins(ts: map<Id, Terminal>, bindings: seq<Binding>, seat: Id, c: Id, e: Id)
    requires seat in ts && ts[seat].state != Submitted
    ensures SubmittedSeats(ts[seat := ts[seat].(state := Submitted)], bindings, c, e)
         == SubmittedSeats(ts, bindings, c, e)
           + (if ts[seat].centre == c && ExamOf(bindings, seat) == Some(e) then {seat} else {})
    ensures seat !in SubmittedSeats(ts, bindings, c, e)
  {
  }

  lemma SeatNumbersJoin(ts: map<Id, Terminal>, seats: set<Id>, seat: Id)
    requires seats <= ts.Keys && seat in ts
    ensures SeatNumbers(ts, seats + {seat}) == SeatNumbers(ts, seats) + {ts[seat].seatNo}
  {
  }

  lemma SeatNumbersKeep(ts: map<Id, Terminal>, ts': map<Id, Terminal>, seats: set<Id>)
    requires seats <= ts.Keys && seats <= ts'.Keys && forall t :: t in seats ==> ts'[t].seatNo == ts[t].seatNo
    ensures SeatNumbers(ts', seats) == SeatNumbers(ts, seats)
  {
  }

  /** The row and the seat of one submission are added to the same (centre, exam). */
  lemma SubmittedGrows(s: Hall, ts': map<Id, Terminal>, row: Row, seat: Id, c: Id, e: Id)
    requires seat in s.terminals && s.terminals[seat].state != Submitted
    requires ts' == s.terminals[seat := s.terminals[seat].(state := Submitted)]
    requires row.centre == s.terminals[seat].centre && ExamOf(s.bindings, seat) == Some(row.exam)
    requires row.seatNo == s.terminals[seat].seatNo
    requires RowsAreSeats(s.terminals, s.bindings, s.ledger, c, e)
    ensures RowsAreSeats(ts', s.bindings, s.ledger + [row], c, e)
  {
    var seats := SubmittedSeats(s.terminals, s.bindings, c, e);
    SubmittedJoins(s.terminals, s.bindings, seat, c, e);
    ChainOfAppend(s.ledger, row, c, e);
    SeatNumbersKeep(s.terminals, ts', seats);
    if row.centre == c && row.exam == e {
      RowSeatsAppend(ChainOf(s.ledger, c, e), row);
      SeatNumbersJoin(ts', seats, seat);
    }
  }

  lemma RowSeatsAppend(rows: seq<Row>, row: Row)
    ensures RowSeatNumbers(rows + [row]) == RowSeatNumbers(rows) + {row.seatNo}
  {
    var rows' := rows + [row];
    forall n | n in RowSeatNumbers(rows) ensures n in RowSeatNumbers(rows') {
      var i :| 0 <= i < |rows| && rows[i].seatNo == n;
      assert rows'[i].seatNo == n;
    }
    assert rows'[|rows|].seatNo == row.seatNo;
    forall n | n in RowSeatNumbers(rows') ensures n in RowSeatNumbers(rows) + {row.seatNo} {
      var i :| 0 <= i < |rows'| && rows'[i].seatNo == n;
      assert i < |rows| ==> rows[i].seatNo == n;
    }
  }

  /** A login commits late, on a seat that has submitted. */
  predicate Reopens(s: Hall, step: Step) {
    && step.CommitLogin? && step.tx in s.loggingIn && s.loggingIn[step.tx] in s.terminals
    && s.terminals[s.loggingIn[step.tx]].state == Submitted
  }

  /** A submission is committed for a seat that has submitted already. */
  predicate Resubmits(s: Hall, step: Step) {
    && step.CommitSubmit? && step.tx in s.submitting && s.submitting[step.tx].terminal in s.terminals
    && s.terminals[s.submitting[step.tx].terminal].state == Submitted
  }

  /** Between states with the same submitted seats and the same chains, but for marks. */
  lemma SameRows(s: Hall, s': Hall)
    requires LedgerIsSeats(s) && s'.ledger == s.ledger && s.terminals.Keys == s'.terminals.Keys
    requires forall t :: t in s.terminals
               ==> s'.terminals[t].centre == s.terminals[t].centre && s'.terminals[t].seatNo == s.terminals[t].seatNo
    requires forall t :: t in s.terminals
               ==> (s'.terminals[t].state == Submitted <==> s.terminals[t].state == Submitted)
    requires forall t :: t in s.terminals && s.terminals[t].state == Submitted
               ==> ExamOf(s'.bindings, t) == ExamOf(s.bindings, t)
    ensures LedgerIsSeats(s')
  {
    forall c, e ensures RowsAreSeats(s'.terminals, s'.bindings, s'.ledger, c, e) {
      assert RowsAreSeats(s.terminals, s.bindings, s.ledger, c, e);
      SameSubmitted(s.terminals, s.bindings, s'.terminals, s'.bindings, c, e);
    }
  }

  lemma CommitAssignKeepsRows(s: Hall, tx: nat)
    requires SeatCore(s) && LedgerIsSeats(s) && tx in s.assigning
    ensures LedgerIsSeats(DoCommitAssign(s, tx))
  {
    var s' := DoCommitAssign(s, tx);
    forall t | t in s.terminals && s.terminals[t].state == Submitted
      ensures ExamOf(s'.bindings, t) == ExamOf(s.bindings, t)
    {
      LatestAfterAssign(s, tx, t);
    }
    SameRows(s, s');
  }

  lemma SubmittedLeaves(s: Hall, terminal: Id)
    requires SeatCore(s) && LedgerIsSeats(s) && terminal in s.terminals && s.terminals[terminal].state == Submitted
    requires forall u :: ExamOf(Attend(s, terminal).bindings, u) == ExamOf(s.bindings, u)
    ensures !LedgerIsSeats(Attend(s, terminal))
  {
    var s' := Attend(s, terminal);
    assert LatestBinding(s.bindings, terminal).Some?;
    var c, e := s.terminals[terminal].centre, ExamOf(s.bindings, terminal).value;
    assert SubmittedSeats(s.terminals, s.bindings, c, e)
      == SubmittedSeats(s'.terminals, s'.bindings, c, e) + {terminal};
    assert RowsAreSeats(s.terminals, s.bindings, s.ledger, c, e);
    assert !RowsAreSeats(s'.terminals, s'.bindings, s'.ledger, c, e);
  }

  /** The transaction of a login keeps the correspondence exactly on seats that have not submitted. */
  lemma AttendRowsIff(s: Hall, terminal: Id)
    requires SeatCore(s) && LedgerIsSeats(s) && IsBound(s, terminal)
    ensures LedgerIsSeats(Attend(s, terminal)) <==> s.terminals[terminal].state != Submitted
  {
    var s' := Attend(s, terminal);
    forall u ensures ExamOf(s'.bindings, u) == ExamOf(s.bindings, u) {
      ConsumeKeepsExam(s.bindings, terminal, u);
    }
    if s.terminals[terminal].state != Submitted {
      SameRows(s, s');
    } else {
      SubmittedLeaves(s, terminal);
    }
  }

  lemma LoginKeepsRows(s: Hall, terminal: Id, roll: string, dobOk: bool)
    requires SeatCore(s) && LedgerIsSeats(s)
    ensures LedgerIsSeats(DoCandidateLogin(s, terminal, roll, dobOk))
  {
    if LoginSucceeds(s, terminal, roll, dobOk) {
      LoginSeat(s, terminal, roll, dobOk);
      AttendRowsIff(s, terminal);
    }
  }

  lemma MarkKeepsRows(s: Hall, c': Id, leaves: set<Bytes>)
    requires LedgerIsSeats(s)
    ensures LedgerIsSeats(s.(ledger := Mark(s.ledger, c', leaves)))
  {
    var s' := s.(ledger := Mark(s.ledger, c', leaves));
    forall c, e ensures RowsAreSeats(s'.terminals, s'.bindings, s'.ledger, c, e) {
      assert RowsAreSeats(s.terminals, s.bindings, s.ledger, c, e);
      ChainOfMark(s.ledger, c', leaves, c, e);
      var rows := ChainOf(s.ledger, c, e);
      assert forall i :: 0 <= i < |rows| ==> Mark(rows, c', leaves)[i].seatNo == rows[i].seatNo;
      assert RowSeatNumbers(Mark(rows, c', leaves)) == RowSeatNumbers(rows);
    }
  }

  /** A first submission of a seat adds one row and one seat. */
  lemma FirstSubmitKeepsRows(env: Env, s: Hall, tx: nat)
    requires SeatCore(s) && LedgerIsSeats(s) && tx in s.submitting && s.submitting[tx].tail.Some?
    requires !Resubmits(s, CommitSubmit(tx))
    ensures LedgerIsSeats(DoCommitSubmit(env, s, tx))
  {
    var t := s.submitting[tx];
    assert SubmitBelongs(s, t);
    forall c, e ensures RowsAreSeats(DoCommitSubmit(env, s, tx).terminals, s.bindings,
                                     DoCommitSubmit(env, s, tx).ledger, c, e) {
      assert RowsAreSeats(s.terminals, s.bindings, s.ledger, c, e);
      SubmittedGrows(s, DoCommitSubmit(env, s, tx).terminals, NewRow(env, t), t.terminal, c, e);
    }
  }

  /** A second one adds a row and no seat. */
  lemma ResubmitBreaksRows(env: Env, s: Hall, tx: nat)
    requires SeatCore(s) && LedgerIsSeats(s) && tx in s.submitting && s.submitting[tx].tail.Some?
    requires Resubmits(s, CommitSubmit(tx))
    ensures !LedgerIsSeats(DoCommitSubmit(env, s, tx))
  {
    var t := s.submitting[tx];
    var s' := DoCommitSubmit(env, s, tx);
    assert s'.terminals == s.terminals;
    ChainOfAppend(s.ledger, NewRow(env, t), t.centre, t.exam);
    assert RowsAreSeats(s.terminals, s.bindings, s.ledger, t.centre, t.exam);
    assert !RowsAreSeats(s'.terminals, s'.bindings, s'.ledger, t.centre, t.exam);
  }

  /** The two ways to break the correspondence. */
  predicate BreaksRows(s: Hall, step: Step) {
    Resubmits(s, step) || Reopens(s, step)
  }

  /** From a state in which rows and seats correspond, a step leads to such a state exactly if it
      neither commits a submission for a seat that has submitted nor a login on such a seat. */
  lemma StepRowsIff(env: Env, s: Hall, step: Step)
    requires SeatCore(s) && LedgerIsSeats(s) && Enabled(env, s, step)
    ensures LedgerIsSeats(Apply(env, s, step)) <==> !BreaksRows(s, step)
  {
    if IsQuiet(step) {
      QuietRows(env, s, step);
    } else if step.CommitLogin? {
      CommitLoginRows(s, step.tx);
    } else if step.CommitSubmit? {
      CommitSubmitRows(env, s, step.tx);
    } else {
      OtherRows(env, s, step);
    }
  }

  lemma QuietRows(env: Env, s: Hall, step: Step)
    requires LedgerIsSeats(s) && Enabled(env, s, step) && IsQuiet(step)
    ensures LedgerIsSeats(Apply(env, s, step))
  {
    if step.MarkSynced? {
      MarkKeepsRows(s, step.centre, step.leaves);
    } else {
      QuietStep(env, s, step);
      SameRows(s, Apply(env, s, step));
    }
  }

  lemma OtherRows(env: Env, s: Hall, step: Step)
    requires SeatCore(s) && LedgerIsSeats(s) && Enabled(env, s, step)
    requires step.CommitAssign? || step.CandidateLogin? || step.Heartbeat?
    ensures LedgerIsSeats(Apply(env, s, step))
  {
    if step.CommitAssign? {
      CommitAssignKeepsRows(s, step.tx);
    } else if step.CandidateLogin? {
      LoginKeepsRows(s, step.terminal, step.roll, step.dobOk);
    } else {
      SameRows(s, Apply(env, s, step));
    }
  }

  lemma CommitLoginRows(s: Hall, tx: nat)
    requires SeatCore(s) && LedgerIsSeats(s) && tx in s.loggingIn
    ensures LedgerIsSeats(DoCommitLogin(s, tx)) <==> !Reopens(s, CommitLogin(tx))
  {
    assert IsBound(s, s.loggingIn[tx]);
    AttendRowsIff(s, s.loggingIn[tx]);
  }

  lemma CommitSubmitRows(env: Env, s: Hall, tx: nat)
    requires SeatCore(s) && LedgerIsSeats(s) && tx in s.submitting && s.submitting[tx].tail.Some?
    ensures LedgerIsSeats(DoCommitSubmit(env, s, tx)) <==> !Resubmits(s, CommitSubmit(tx))
  {
    assert SubmitBelongs(s, s.submitting[tx]);
    if Resubmits(s, CommitSubmit(tx)) {
      ResubmitBreaksRows(env, s, tx);
    } else {
      FirstSubmitKeepsRows(env, s, tx);
    }
  }

  // ---------- Runs whose checks may be stale and whose logins may be late ----------

  /** Each submission's check held at the step that takes the lock or at some step before. */
  ghost predicate OnceChecked(states: seq<Hall>, steps: seq<Step>) {
    |states| > |steps| && forall k :: 0 <= k < |steps| && steps[k].BeginSubmit? ==> CheckedBefore(states, steps[k], k)
  }

  ghost predicate CheckedBefore(states: seq<Hall>, step: Step, k: int) {
    exists j :: 0 <= j <= k < |states| && Checked(states[j], step)
  }

  lemma OthersBelong(env: Env, s: Hall, step: Step, t: SubmitTx)
    requires SeatCore(s) && Enabled(env, s, step) && SubmitBelongs(s, t)
    requires step.CommitAssign? || step.CommitSubmit? || step.Heartbeat?
    ensures SubmitBelongs(Apply(env, s, step), t)
    ensures SubmitFits(s, t) && (step.CommitSubmit? ==> s.submitting[step.tx].terminal != t.terminal)
      ==> SubmitFits(Apply(env, s, step), t)
  {
    if step.CommitAssign? {
      LatestAfterAssign(s, step.tx, t.terminal);
    }
  }

  /** A seat that has been logged in to keeps its candidate, whatever happens; and a check that holds
      keeps holding unless the seat itself submits. */
  lemma BelongsStays(env: Env, s: Hall, step: Step, t: SubmitTx)
    requires SeatCore(s) && Enabled(env, s, step) && SubmitBelongs(s, t)
    ensures SubmitBelongs(Apply(env, s, step), t)
    ensures SubmitFits(s, t) && (step.CommitSubmit? ==> s.submitting[step.tx].terminal != t.terminal)
      ==> SubmitFits(Apply(env, s, step), t)
  {
    if IsQuiet(step) {
      QuietStep(env, s, step);
    } else if step.CommitLogin? {
      assert IsBound(s, s.loggingIn[step.tx]);
      AttendBelongs(s, s.loggingIn[step.tx], t);
    } else if step.CandidateLogin? {
      if LoginSucceeds(s, step.terminal, step.roll, step.dobOk) {
        LoginSeat(s, step.terminal, step.roll, step.dobOk);
        AttendBelongs(s, step.terminal, t);
      }
    } else {
      OthersBelong(env, s, step, t);
    }
  }

  ghost predicate CoresUpTo(states: seq<Hall>, n: int) {
    n < |states| && forall m :: 0 <= m <= n ==> SeatCore(states[m])
  }

  lemma BelongsNext(env: Env, states: seq<Hall>, steps: seq<Step>, k: nat, t: SubmitTx)
    requires IsRun(env, states, steps) && k < |steps| && SeatCore(states[k]) && SubmitBelongs(states[k], t)
    ensures SubmitBelongs(states[k + 1], t)
  {
    BelongsStays(env, states[k], steps[k], t);
  }

  lemma {:induction false} BelongsLater(env: Env, states: seq<Hall>, steps: seq<Step>, j: nat, n: nat, t: SubmitTx)
    requires IsRun(env, states, steps) && j <= n && CoresUpTo(states, n) && SubmitBelongs(states[j], t)
    ensures SubmitBelongs(states[n], t)
  {
    if j < n {
      BelongsLater(env, states, steps, j, n - 1, t);
      assert SeatCore(states[n - 1]);
      BelongsNext(env, states, steps, n - 1, t);
    }
  }

  /** The submission that a step opens. */
  function Opened(step: Step): SubmitTx
    requires step.BeginSubmit?
  {
    SubmitTx(step.terminal, step.centre, step.exam, step.seatNo, step.envelope, None)
  }

  lemma CheckedBelongs(env: Env, states: seq<Hall>, steps: seq<Step>, n: nat)
    requires IsRun(env, states, steps) && OnceChecked(states, steps) && n < |steps| && CoresUpTo(states, n)
    requires steps[n].BeginSubmit?
    ensures SubmitBelongs(states[n], Opened(steps[n]))
  {
    assert CheckedBefore(states, steps[n], n);
    var j :| 0 <= j <= n < |states| && Checked(states[j], steps[n]);
    BelongsLater(env, states, steps, j, n, Opened(steps[n]));
  }

  lemma {:induction false} RunKeepsCore(env: Env, states: seq<Hall>, steps: seq<Step>, n: nat)
    requires IsRun(env, states, steps) && OnceChecked(states, steps) && Init(states[0]) && n < |states|
    ensures CoresUpTo(states, n)
  {
    if n > 0 {
      RunKeepsCore(env, states, steps, n - 1);
      if steps[n - 1].BeginSubmit? {
        CheckedBelongs(env, states, steps, n - 1);
      }
      assert SeatCore(states[n - 1]);
      StepKeepsCore(env, states[n - 1], steps[n - 1]);
    }
  }

  lemma InitRows(s: Hall)
    requires Init(s)
    ensures LedgerIsSeats(s)
  {
    forall c, e ensures RowsAreSeats(s.terminals, s.bindings, s.ledger, c, e) {
      assert SubmittedSeats(s.terminals, s.bindings, c, e) == {};
      assert RowSeatNumbers([]) == {};
    }
  }

  lemma InitSeats(s: Hall)
    requires Init(s)
    ensures SeatInv(s)
  {
    InitRows(s);
  }

  ghost predicate NeverBreaks(states: seq<Hall>, steps: seq<Step>, n: int) {
    n <= |steps| < |states| && forall k :: 0 <= k < n ==> !BreaksRows(states[k], steps[k])
  }

  ghost predicate RowsUpTo(states: seq<Hall>, n: int) {
    n < |states| && forall m :: 0 <= m <= n ==> LedgerIsSeats(states[m])
  }

  lemma OneStateMore(env: Env, states: seq<Hall>, steps: seq<Step>, n: nat)
    requires IsRun(env, states, steps) && n < |steps| && SeatCore(states[n]) && RowsUpTo(states, n)
    ensures RowsUpTo(states, n + 1) <==> !BreaksRows(states[n], steps[n])
  {
    StepRowsIff(env, states[n], steps[n]);
    assert states[n + 1] == Apply(env, states[n], steps[n]);
    assert RowsUpTo(states, n + 1) <==> LedgerIsSeats(states[n + 1]);
  }

  /** The check before a submission and the order of a login's steps matter in exactly one way. In every
      run in which each submission was checked at some time before it took the lock, each exam's
      ledger rows correspond to its submitted seats in all states up to `n` if and only if until then
      neither a submission nor a login was committed for a seat that had submitted already. */
  lemma {:induction false} RowsIffNeverBroken(env: Env, states: seq<Hall>, steps: seq<Step>, n: nat)
    requires IsRun(env, states, steps) && OnceChecked(states, steps) && Init(states[0]) && n <= |steps|
    ensures RowsUpTo(states, n) <==> NeverBreaks(states, steps, n)
  {
    if n == 0 {
      InitRows(states[0]);
    } else {
      RowsIffNeverBroken(env, states, steps, n - 1);
      RunKeepsCore(env, states, steps, n - 1);
      if RowsUpTo(states, n - 1) {
        OneStateMore(env, states, steps, n - 1);
      }
    }
  }

  // ---------- Runs whose checks hold under the lock ----------

  /** Because equal seats take equal locks, no other open submission is for the same seat. */
  lemma OneSubmitPerSeat(env: Env, s: Hall, x: nat, y: nat)
    requires SubmitsFit(s) && LocksExclusive(env, s.submitting) && x in s.submitting && y in s.submitting && x != y
    ensures s.submitting[x].terminal != s.submitting[y].terminal
  {
    assert SubmitFits(s, s.submitting[x]) && SubmitFits(s, s.submitting[y]);
  }

  lemma StepKeepsFits(env: Env, s: Hall, step: Step)
    requires SeatCore(s) && SubmitsFit(s) && LocksExclusive(env, s.submitting) && Enabled(env, s, step)
      && Checked(s, step)
    ensures SubmitsFit(Apply(env, s, step))
  {
    var s' := Apply(env, s, step);
    forall x | x in s'.submitting ensures SubmitFits(s', s'.submitting[x]) {
      if x in s.submitting {
        assert SubmitFits(s, s.submitting[x]);
        if step.CommitSubmit? {
          OneSubmitPerSeat(env, s, x, step.tx);
        }
        BelongsStays(env, s, step, s.submitting[x]);
      }
    }
  }

  lemma CheckedNeverResubmits(s: Hall, step: Step)
    requires SubmitsFit(s)
    ensures !Resubmits(s, step)
  {
    if step.CommitSubmit? && step.tx in s.submitting {
      assert SubmitFits(s, s.submitting[step.tx]);
    }
  }

  /** Every enabled step whose submissions are checked under the lock keeps the seat protocol, late
      logins on submitted seats aside. */
  lemma StepKeepsSeats(env: Env, s: Hall, step: Step)
    requires SeatInv(s) && LocksExclusive(env, s.submitting) && Enabled(env, s, step) && Checked(s, step)
    ensures SeatInv(Apply(env, s, step)) <==> !Reopens(s, step)
  {
    StepKeepsCore(env, s, step);
    StepKeepsFits(env, s, step);
    CheckedNeverResubmits(s, step);
    StepRowsIff(env, s, step);
  }

  ghost predicate AllChecked(states: seq<Hall>, steps: seq<Step>) {
    |states| > |steps| && forall i :: 0 <= i < |steps| ==> Checked(states[i], steps[i])
  }

  lemma CheckedOnce(states: seq<Hall>, steps: seq<Step>)
    requires AllChecked(states, steps)
    ensures OnceChecked(states, steps)
  {
    forall k | 0 <= k < |steps| && steps[k].BeginSubmit? ensures CheckedBefore(states, steps[k], k) {
      assert Checked(states[k], steps[k]);
    }
  }

  lemma {:induction false} RunKeepsFits(env: Env, states: seq<Hall>, steps: seq<Step>, i: nat)
    requires IsRun(env, states, steps) && AllChecked(states, steps) && Init(states[0]) && i < |states|
    ensures SeatCore(states[i]) && SubmitsFit(states[i])
  {
    CheckedOnce(states, steps);
    RunKeepsCore(env, states, steps, i);
    assert SeatCore(states[i]);
    if i > 0 {
      RunKeepsFits(env, states, steps, i - 1);
      RunKeepsLedger(env, states, steps, i - 1);
      StepKeepsFits(env, states[i - 1], steps[i - 1]);
    }
  }

  ghost predicate NeverReopens(states: seq<Hall>, steps: seq<Step>, n: int) {
    n <= |steps| < |states| && forall k :: 0 <= k < n ==> !Reopens(states[k], steps[k])
  }

  /** What the seat protocol promises in every reachable state if submissions are checked under the
      lock: one binding a seat, ASSIGNED exactly while it is unconsumed; and rows and submitted seats
      correspond up to a state exactly if no late login was committed on a submitted seat by then. */
  lemma SeatProtocol(env: Env, states: seq<Hall>, steps: seq<Step>, n: nat)
    requires IsRun(env, states, steps) && AllChecked(states, steps) && Init(states[0]) && n <= |steps|
    ensures BoundOnce(states[n].bindings)
    ensures forall t :: t in states[n].terminals ==>
      (states[n].terminals[t].state == Assigned <==> ActiveBinding(states[n].bindings, t).Some?)
    ensures RowsUpTo(states, n) <==> NeverReopens(states, steps, n)
  {
    RunKeepsFits(env, states, steps, n);
    forall t | t in states[n].terminals
      ensures states[n].terminals[t].state == Assigned <==> ActiveBinding(states[n].bindings, t).Some?
    {
      AssignedIffActive(states[n], t);
    }
    CheckedOnce(states, steps);
    RowsIffNeverBroken(env, states, steps, n);
    forall k | 0 <= k < n ensures BreaksRows(states[k], steps[k]) <==> Reopens(states[k], steps[k]) {
      RunKeepsFits(env, states, steps, k);
      CheckedNeverResubmits(states[k], steps[k]);
    }
  }

  // ---------- Seats only move forward ----------

  predicate Moves(from: SeatState, to: SeatState) {
    || from == to || (from == Available && to == Assigned) || (from == Assigned && to == Attended)
    || ((from == Attended || from == InExam) && to == Submitted)
  }

  function Rank(state: SeatState): nat {
    match state case Available => 0 case Assigned => 1 case Attended => 2 case InExam => 3 case Submitted => 4
  }

  /** A login commits on a seat that has gone past ATTENDED since its binding was read. */
  predicate MovesBack(s: Hall, step: Step) {
    && step.CommitLogin? && step.tx in s.loggingIn && s.loggingIn[step.tx] in s.terminals
    && Rank(s.terminals[s.loggingIn[step.tx]].state) > Rank(Attended)
  }

  /** One step moves a seat along AVAILABLE, ASSIGNED, ATTENDED, SUBMITTED by at most one place, late
      logins aside. */
  lemma StepMovesSeats(env: Env, s: Hall, step: Step, t: Id)
    requires SeatCore(s) && Enabled(env, s, step) && t in s.terminals && !MovesBack(s, step)
    ensures t in Apply(env, s, step).terminals
    ensures Moves(s.terminals[t].state, Apply(env, s, step).terminals[t].state)
  {
    if IsQuiet(step) {
      QuietStep(env, s, step);
    } else if step.CandidateLogin? {
      if LoginSucceeds(s, step.terminal, step.roll, step.dobOk) {
        LoginSeat(s, step.terminal, step.roll, step.dobOk);
      }
    } else {
      OthersMove(env, s, step, t);
    }
  }

  lemma OthersMove(env: Env, s: Hall, step: Step, t: Id)
    requires SeatCore(s) && Enabled(env, s, step) && t in s.terminals && !MovesBack(s, step)
    requires step.CommitAssign? || step.CommitLogin? || step.CommitSubmit? || step.Heartbeat?
    ensures t in Apply(env, s, step).terminals
    ensures Moves(s.terminals[t].state, Apply(env, s, step).terminals[t].state)
  {
    if step.CommitLogin? {
      assert IsBound(s, s.loggingIn[step.tx]);
    } else if step.CommitSubmit? {
      assert SubmitBelongs(s, s.submitting[step.tx]);
    }
  }

  lemma MovesRank(from: SeatState, to: SeatState)
    requires Moves(from, to)
    ensures Rank(from) <= Rank(to)
  {
  }

  /** No seat is further back in `s'` than in `s`. */
  ghost predicate NoneBack(s: Hall, s': Hall) {
    forall t :: t in s.terminals ==> t in s'.terminals && Rank(s.terminals[t].state) <= Rank(s'.terminals[t].state)
  }

  /** A step moves some seat back exactly if it is such a late login. */
  lemma StepBackIff(env: Env, s: Hall, step: Step)
    requires SeatCore(s) && Enabled(env, s, step)
    ensures NoneBack(s, Apply(env, s, step)) <==> !MovesBack(s, step)
  {
    if !MovesBack(s, step) {
      forall t | t in s.terminals
        ensures t in Apply(env, s, step).terminals
          && Rank(s.terminals[t].state) <= Rank(Apply(env, s, step).terminals[t].state)
      {
        StepMovesSeats(env, s, step, t);
        MovesRank(s.terminals[t].state, Apply(env, s, step).terminals[t].state);
      }
    }
  }

  ghost predicate NeverMovesBack(states: seq<Hall>, steps: seq<Step>, n: int) {
    n <= |steps| < |states| && forall k :: 0 <= k < n ==> !MovesBack(states[k], steps[k])
  }

  ghost predicate OnlyForward(states: seq<Hall>, n: int) {
    n < |states| && forall i, j :: 0 <= i <= j <= n ==> NoneBack(states[i], states[j])
  }

  lemma NoneBackTransitive(a: Hall, b: Hall, c: Hall)
    requires NoneBack(a, b) && NoneBack(b, c)
    ensures NoneBack(a, c)
  {
  }

  lemma ForwardStep(env: Env, states: seq<Hall>, steps: seq<Step>, k: nat)
    requires IsRun(env, states, steps) && k < |steps| && SeatCore(states[k])
    ensures NoneBack(states[k], states[k + 1]) <==> !MovesBack(states[k], steps[k])
  {
    StepBackIff(env, states[k], steps[k]);
    assert states[k + 1] == Apply(env, states[k], steps[k]);
  }

  ghost predicate StepsForward(states: seq<Hall>, n: int) {
    n < |states| && forall k :: 0 <= k < n ==> NoneBack(states[k], states[k + 1])
  }

  lemma {:induction false} ForwardFrom(states: seq<Hall>, n: int, i: nat, j: nat)
    requires StepsForward(states, n) && i <= j <= n
    ensures NoneBack(states[i], states[j])
  {
    if i < j {
      ForwardFrom(states, n, i, j - 1);
      NoneBackTransitive(states[i], states[j - 1], states[j]);
    }
  }

  lemma BackShows(env: Env, states: seq<Hall>, steps: seq<Step>, n: nat, k: nat)
    requires IsRun(env, states, steps) && k < n <= |steps| && CoresUpTo(states, n) && MovesBack(states[k], steps[k])
    ensures !OnlyForward(states, n)
  {
    assert SeatCore(states[k]);
    ForwardStep(env, states, steps, k);
    assert !NoneBack(states[k], states[k + 1]);
  }

  /** In every run, stale checks included, seats only move forward up to a state exactly if no login was
      committed by then on a seat that had gone past ATTENDED. */
  lemma RunMovesForwardIff(env: Env, states: seq<Hall>, steps: seq<Step>, n: nat)
    requires IsRun(env, states, steps) && OnceChecked(states, steps) && Init(states[0]) && n <= |steps|
    ensures OnlyForward(states, n) <==> NeverMovesBack(states, steps, n)
  {
    RunKeepsCore(env, states, steps, n);
    if NeverMovesBack(states, steps, n) {
      forall k | 0 <= k < n ensures NoneBack(states[k], states[k + 1]) {
        assert SeatCore(states[k]);
        ForwardStep(env, states, steps, k);
      }
      forall i, j | 0 <= i <= j <= n ensures NoneBack(states[i], states[j]) {
        ForwardFrom(states, n, i, j);
      }
    } else {
      var k :| 0 <= k < n && MovesBack(states[k], steps[k]);
      BackShows(env, states, steps, n, k);
    }
  }

  // ---------- One submission alone ----------

  /** A submission that runs alone, from taking the lock to the commit. */
  function SubmitAlone(env: Env, s: Hall, terminal: Id, c: Id, e: Id, seatNo: string, v: Envelope): (s': Hall)
    requires s.submitting == map[]
    ensures s'.submitting == map[] && s'.bindings == s.bindings && s'.terminals == WithState(s, terminal, Submitted)
    ensures s'.loggingIn == s.loggingIn
  {
    var s1 := Apply(env, s, BeginSubmit(0, terminal, c, e, seatNo, v));
    DoCommitSubmit(env, Apply(env, s1, ReadTail(0)), 0)
  }

  /** For a seat with a candidate, a submission that meets no other keeps the correspondence exactly
      if the handler's check still holds when it takes the lock. */
  lemma AloneIffChecked(env: Env, s: Hall, terminal: Id, c: Id, e: Id, seatNo: string, v: Envelope)
    requires SeatCore(s) && LedgerIsSeats(s) && s.submitting == map[] && Belongs(s, terminal, c, e, seatNo)
    ensures LedgerIsSeats(SubmitAlone(env, s, terminal, c, e, seatNo, v)) <==> SubmitChecks(s, terminal, c, e, seatNo)
    ensures SeatCore(SubmitAlone(env, s, terminal, c, e, seatNo, v))
    ensures Belongs(SubmitAlone(env, s, terminal, c, e, seatNo, v), terminal, c, e, seatNo)
    ensures !SubmitChecks(SubmitAlone(env, s, terminal, c, e, seatNo, v), terminal, c, e, seatNo)
  {
    OpenAlone(env, s, terminal, c, e, seatNo, v);
    CommitAlone(env, Apply(env, Apply(env, s, BeginSubmit(0, terminal, c, e, seatNo, v)), ReadTail(0)));
  }

  lemma CommitAlone(env: Env, s: Hall)
    requires SeatCore(s) && LedgerIsSeats(s) && 0 in s.submitting && s.submitting[0].tail.Some?
    ensures var t, s' := s.submitting[0], DoCommitSubmit(env, s, 0);
      && (LedgerIsSeats(s') <==> SubmitFits(s, t)) && SeatCore(s') && SubmitBelongs(s', t) && !SubmitFits(s', t)
  {
    assert SubmitBelongs(s, s.submitting[0]);
    CommitSubmitKeepsCore(env, s, 0);
    CommitSubmitRows(env, s, 0);
  }

  lemma OpenAlone(env: Env, s: Hall, terminal: Id, c: Id, e: Id, seatNo: string, v: Envelope)
    requires SeatCore(s) && LedgerIsSeats(s) && s.submitting == map[] && Belongs(s, terminal, c, e, seatNo)
    ensures var s2 := Apply(env, Apply(env, s, BeginSubmit(0, terminal, c, e, seatNo, v)), ReadTail(0));
      SeatCore(s2) && LedgerIsSeats(s2)
  {
    var begin := BeginSubmit(0, terminal, c, e, seatNo, v);
    StepKeepsCore(env, s, begin);
    StepRowsIff(env, s, begin);
    StepKeepsCore(env, Apply(env, s, begin), ReadTail(0));
    StepRowsIff(env, Apply(env, s, begin), ReadTail(0));
  }

  /** So two requests for one seat that both passed the check before either took the lock break it. */
  lemma StaleCheckSubmitsTwice(env: Env, s: Hall, terminal: Id, c: Id, e: Id, seatNo: string, v: Envelope, v': Envelope)
    requires SeatInv(s) && s.submitting == map[] && SubmitChecks(s, terminal, c, e, seatNo)
    ensures var once := SubmitAlone(env, s, terminal, c, e, seatNo, v);
      LedgerIsSeats(once) && !LedgerIsSeats(SubmitAlone(env, once, terminal, c, e, seatNo, v'))
  {
    AloneIffChecked(env, s, terminal, c, e, seatNo, v);
    AloneIffChecked(env, SubmitAlone(env, s, terminal, c, e, seatNo, v), terminal, c, e, seatNo, v');
  }

  /** And a login that reads its binding, is overtaken by another login and a submission of the same
      seat, and then commits, opens the submitted seat again. */
  lemma LateLoginReopens(env: Env, s: Hall, x: nat, terminal: Id, roll: string, v: Envelope)
    returns (s2: Hall, s3: Hall)
    requires SeatInv(s) && s.submitting == map[] && x !in s.loggingIn && LoginSucceeds(s, terminal, roll, true)
    ensures terminal in s.terminals && ExamOf(s.bindings, terminal).Some?
    ensures s2 == Apply(env, Apply(env, s, ReadBinding(x, terminal, roll, true)), CandidateLogin(terminal, roll, true))
    ensures s2.submitting == map[]
      && s3 == SubmitAlone(env, s2, terminal, s.terminals[terminal].centre, ExamOf(s.bindings, terminal).value,
                           s.terminals[terminal].seatNo, v)
    ensures LedgerIsSeats(s3) && Enabled(env, s3, CommitLogin(x)) && Reopens(s3, CommitLogin(x))
      && MovesBack(s3, CommitLogin(x))
    ensures !LedgerIsSeats(Apply(env, s3, CommitLogin(x)))
  {
    LoginSeat(s, terminal, roll, true);
    assert LatestBinding(s.bindings, terminal).Some?;
    var c, e, seatNo := s.terminals[terminal].centre, ExamOf(s.bindings, terminal).value, s.terminals[terminal].seatNo;
    s2 := Overtaken(env, s, x, terminal, roll);
    s3 := SubmittedAfter(env, s2, x, terminal, c, e, seatNo, v);
    StepRowsIff(env, s3, CommitLogin(x));
  }

  lemma SubmittedAfter(env: Env, s: Hall, x: nat, terminal: Id, c: Id, e: Id, seatNo: string, v: Envelope)
    returns (s': Hall)
    requires SeatCore(s) && LedgerIsSeats(s) && s.submitting == map[] && SubmitChecks(s, terminal, c, e, seatNo)
    requires x in s.loggingIn && s.loggingIn[x] == terminal
    ensures s' == SubmitAlone(env, s, terminal, c, e, seatNo, v) && SeatCore(s') && LedgerIsSeats(s')
    ensures Enabled(env, s', CommitLogin(x)) && Reopens(s', CommitLogin(x)) && MovesBack(s', CommitLogin(x))
  {
    AloneIffChecked(env, s, terminal, c, e, seatNo, v);
    s' := SubmitAlone(env, s, terminal, c, e, seatNo, v);
  }

  lemma Overtaken(env: Env, s: Hall, x: nat, terminal: Id, roll: string) returns (s2: Hall)
    requires SeatCore(s) && LedgerIsSeats(s) && s.submitting == map[] && x !in s.loggingIn
      && LoginSucceeds(s, terminal, roll, true)
    requires terminal in s.terminals && ExamOf(s.bindings, terminal).Some?
    ensures s2 == Apply(env, Apply(env, s, ReadBinding(x, terminal, roll, true)), CandidateLogin(terminal, roll, true))
    ensures SeatCore(s2) && LedgerIsSeats(s2) && s2.submitting == map[] && x in s2.loggingIn
      && s2.loggingIn[x] == terminal
    ensures SubmitChecks(s2, terminal, s.terminals[terminal].centre, ExamOf(s.bindings, terminal).value,
                         s.terminals[terminal].seatNo)
  {
    var s1 := Apply(env, s, ReadBinding(x, terminal, roll, true));
    OpenLoginKeepsCore(env, s, ReadBinding(x, terminal, roll, true));
    LoginSeat(s1, terminal, roll, true);
    AttendKeepsCore(s1, terminal);
    AttendRowsIff(s1, terminal);
    ConsumeKeepsExam(s.bindings, terminal, terminal);
    s2 := Attend(s1, terminal);
  }
}
