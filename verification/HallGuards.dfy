/** What ends up in the tables of the hall, traced to the requests: a seat is bound to the roll and exam that
    were asked for, and a ledger row is the submission that was begun. */
module HallGuards {
  import opened ByteStrings
  import opened MerkleChain
  import opened HallProtocol
  import Hq = HqIngest
  import EndToEnd

  lemma Next(env: Env, states: seq<Hall>, steps: seq<Step>, k: nat)
    requires IsRun(env, states, steps) && k < |steps|
    ensures Enabled(env, states[k], steps[k]) && states[k + 1] == Apply(env, states[k], steps[k])
  {
  }

  // ---------- Bindings in force ----------

  /** Binding `k` is for this seat and not consumed, and all later ones for it are. */
  predicate InForce(bindings: seq<Binding>, t: Id, k: int) {
    && 0 <= k < |bindings| && bindings[k].terminal == t && !bindings[k].consumed
    && forall m :: k < m < |bindings| && bindings[m].terminal == t ==> bindings[m].consumed
  }

  lemma {:induction false} ActiveBindingIs(bindings: seq<Binding>, t: Id, b: Binding)
    ensures ActiveBinding(bindings, t) == Some(b) <==> exists k :: InForce(bindings, t, k) && bindings[k] == b
  {
    if |bindings| > 0 {
      var n := |bindings| - 1;
      if bindings[n].terminal == t && !bindings[n].consumed {
        assert InForce(bindings, t, n);
      } else {
        ActiveBindingIs(bindings[..n], t, b);
        forall k | 0 <= k < n ensures InForce(bindings, t, k) <==> InForce(bindings[..n], t, k) {
        }
        assert forall k :: InForce(bindings[..n], t, k) ==> bindings[..n][k] == bindings[k];
      }
    }
  }

  /** Binding `k` is the last one for this seat. */
  predicate LastFor(bindings: seq<Binding>, t: Id, k: int) {
    0 <= k < |bindings| && bindings[k].terminal == t && forall m :: k < m < |bindings| ==> bindings[m].terminal != t
  }

  lemma {:induction false} ExamOfIs(bindings: seq<Binding>, t: Id, e: Id)
    ensures ExamOf(bindings, t) == Some(e) <==> exists k :: LastFor(bindings, t, k) && bindings[k].exam == e
  {
    if |bindings| > 0 {
      var n := |bindings| - 1;
      if bindings[n].terminal == t {
        assert LastFor(bindings, t, n);
      } else {
        ExamOfIs(bindings[..n], t, e);
        forall k | 0 <= k < n ensures LastFor(bindings, t, k) <==> LastFor(bindings[..n], t, k) {
        }
        assert forall k :: LastFor(bindings[..n], t, k) ==> bindings[..n][k] == bindings[k];
      }
    }
  }

  // ---------- Seats ----------

  /** Only these requests change a seat, and nothing else of it. */
  lemma SeatChanges(env: Env, s: Hall, step: Step, t: Id)
    requires Enabled(env, s, step) && t in s.terminals
    ensures t in Apply(env, s, step).terminals
    ensures var before, after := s.terminals[t], Apply(env, s, step).terminals[t];
      after != before ==>
        match step
        case CommitAssign(tx) => s.assigning[tx].seat == t && after == before.(state := Assigned)
        case CandidateLogin(x, roll, dobOk) => x == t && dobOk && after == before.(state := Attended)
        case CommitLogin(tx) => s.loggingIn[tx] == t && after == before.(state := Attended)
        case CommitSubmit(tx) => s.submitting[tx].terminal == t && after == before.(state := Submitted)
        case Heartbeat(x, healthy) => x == t && after == before.(healthy := healthy)
        case _ => false
  {
  }

  /** A candidate gets in exactly with the roll of the binding in force and a fitting date of birth; then the
      seat is attended and its bindings are used up. */
  lemma LoginExactly(env: Env, s: Hall, t: Id, roll: string, dobOk: bool)
    requires t in s.terminals
    ensures var s', b := Apply(env, s, CandidateLogin(t, roll, dobOk)), ActiveBinding(s.bindings, t);
      if dobOk && b.Some? && b.value.roll == roll then
        && s' == s.(terminals := s.terminals[t := s.terminals[t].(state := Attended)], bindings := s'.bindings)
        && |s'.bindings| == |s.bindings|
        && forall k :: 0 <= k < |s.bindings| ==>
             s'.bindings[k] == if s.bindings[k].terminal == t then s.bindings[k].(consumed := true) else s.bindings[k]
      else s' == s
  {
  }

  /** The seat is where it was, with its number. */
  predicate SamePlace(s: Hall, s': Hall, t: Id) {
    && t in s.terminals && t in s'.terminals
    && s'.terminals[t].centre == s.terminals[t].centre && s'.terminals[t].seatNo == s.terminals[t].seatNo
  }

  lemma StepPlace(env: Env, s: Hall, step: Step, t: Id)
    requires Enabled(env, s, step) && t in s.terminals
    ensures SamePlace(s, Apply(env, s, step), t)
  {
    SeatChanges(env, s, step, t);
  }

  lemma PlaceNext(env: Env, states: seq<Hall>, steps: seq<Step>, k: nat, t: Id)
    requires IsRun(env, states, steps) && k < |steps| && t in states[k].terminals
    ensures SamePlace(states[k], states[k + 1], t)
  {
    Next(env, states, steps, k);
    StepPlace(env, states[k], steps[k], t);
  }

  lemma {:induction false} TerminalStays(env: Env, states: seq<Hall>, steps: seq<Step>, i: nat, j: nat, t: Id)
    requires IsRun(env, states, steps) && i <= j <= |steps| && t in states[i].terminals
    ensures SamePlace(states[i], states[j], t)
  {
    if i < j {
      TerminalStays(env, states, steps, i, j - 1, t);
      PlaceNext(env, states, steps, j - 1, t);
    }
  }

  // ---------- Assignments ----------

  predicate EndsAssignment(step: Step, tx: nat) {
    (step.CommitAssign? || step.RollbackAssign?) && step.tx == tx
  }

  lemma AssignmentWaits(env: Env, s: Hall, step: Step, tx: nat)
    requires Enabled(env, s, step) && tx in s.assigning && !EndsAssignment(step, tx)
    ensures tx in Apply(env, s, step).assigning && Apply(env, s, step).assigning[tx] == s.assigning[tx]
  {
  }

  lemma AssignmentNext(env: Env, states: seq<Hall>, steps: seq<Step>, k: nat, tx: nat)
    requires IsRun(env, states, steps) && k < |steps| && tx in states[k].assigning && !EndsAssignment(steps[k], tx)
    ensures tx in states[k + 1].assigning && states[k + 1].assigning[tx] == states[k].assigning[tx]
  {
    Next(env, states, steps, k);
    AssignmentWaits(env, states[k], steps[k], tx);
  }

  lemma {:induction false} AssignmentOpen(env: Env, states: seq<Hall>, steps: seq<Step>, i: nat, j: nat, tx: nat)
    requires IsRun(env, states, steps) && i <= j <= |steps| && tx in states[i].assigning
    requires forall k :: i <= k < j ==> !EndsAssignment(steps[k], tx)
    ensures tx in states[j].assigning && states[j].assigning[tx] == states[i].assigning[tx]
  {
    if i < j {
      AssignmentOpen(env, states, steps, i, j - 1, tx);
      AssignmentNext(env, states, steps, j - 1, tx);
    }
  }

  /** What was asked for is what is bound: whatever happens between the choice of the seat and the commit, from
      then on exactly this roll gets in there, to this exam, and the binding names who made it. */
  lemma AssignmentBinds(env: Env, states: seq<Hall>, steps: seq<Step>, i: nat, j: nat)
    requires IsRun(env, states, steps) && i < j < |steps| && steps[i].SelectSeat?
      && steps[j] == CommitAssign(steps[i].tx)
    requires forall k :: i < k < j ==> !EndsAssignment(steps[k], steps[i].tx)
    ensures var a, s' := steps[i], states[j + 1];
      && |s'.bindings| > 0
      && s'.bindings[|s'.bindings| - 1] == Binding(a.seat, a.centre, a.exam, a.roll, a.invigilator, false)
      && (forall roll :: LoginSucceeds(s', a.seat, roll, true) <==> roll == a.roll)
      && ExamOf(s'.bindings, a.seat) == Some(a.exam)
      && a.seat in s'.terminals && s'.terminals[a.seat].state == Assigned
    ensures var before := states[i].terminals;
      && steps[i].seat in before && before[steps[i].seat].centre == steps[i].centre
      && before[steps[i].seat].candidateSeat && before[steps[i].seat].state == Available
      && before[steps[i].seat].healthy
  {
    Next(env, states, steps, i);
    AssignmentOpen(env, states, steps, i + 1, j, steps[i].tx);
    TerminalStays(env, states, steps, i, j, steps[i].seat);
    Next(env, states, steps, j);
  }

  // ---------- Submissions ----------

  /** The submission `x` was begun at step `i`. */
  ghost predicate BegunAt(steps: seq<Step>, i: nat, x: nat, t: SubmitTx)
    requires i < |steps|
  {
    && steps[i].BeginSubmit? && steps[i].tx == x
    && t.(tail := None) == SubmitTx(steps[i].terminal, steps[i].centre, steps[i].exam, steps[i].seatNo,
                                    steps[i].envelope, None)
  }

  lemma SubmissionStep(env: Env, s: Hall, step: Step, x: nat)
    requires Enabled(env, s, step) && x in Apply(env, s, step).submitting
    ensures if step.BeginSubmit? && step.tx == x then Apply(env, s, step).submitting[x] ==
              SubmitTx(step.terminal, step.centre, step.exam, step.seatNo, step.envelope, None)
            else x in s.submitting && Apply(env, s, step).submitting[x].(tail := None) == s.submitting[x].(tail := None)
  {
  }

  lemma {:induction false} SubmissionWasBegun(env: Env, states: seq<Hall>, steps: seq<Step>, n: nat, x: nat)
    returns (i: nat)
    requires IsRun(env, states, steps) && Init(states[0]) && n <= |steps| && x in states[n].submitting
    ensures i < n && BegunAt(steps, i, x, states[n].submitting[x])
  {
    Next(env, states, steps, n - 1);
    SubmissionStep(env, states[n - 1], steps[n - 1], x);
    if steps[n - 1].BeginSubmit? && steps[n - 1].tx == x {
      i := n - 1;
    } else {
      i := SubmissionWasBegun(env, states, steps, n - 1, x);
    }
  }

  /** The row of a submission: what was submitted, after the last row of its centre and exam. */
  function RowFor(env: Env, ledger: seq<Row>, begun: Step): Row
    requires begun.BeginSubmit?
  {
    var rows, v := ChainOf(ledger, begun.centre, begun.exam), begun.envelope;
    var prev: Bytes := if |rows| == 0 then Zeros(32) else rows[|rows| - 1].chainRoot;
    var leaf := env.hash(v.ct + v.iv + v.tag + v.wrappedDk);
    var root := env.hash(prev + leaf);
    Row(begun.centre, begun.exam, begun.seatNo, |rows|, leaf, prev, root, env.sign(root), v, false)
  }

  /** Step `j` commits what step `i` began: exactly its row is appended, and its seat has submitted. */
  ghost predicate Recorded(env: Env, states: seq<Hall>, steps: seq<Step>, i: nat, j: nat)
    requires i < |steps| && j < |steps| < |states|
  {
    && steps[i].BeginSubmit? && steps[j] == CommitSubmit(steps[i].tx)
    && states[j + 1].ledger == states[j].ledger + [RowFor(env, states[j].ledger, steps[i])]
    && (steps[i].terminal in states[j].terminals ==>
          steps[i].terminal in states[j + 1].terminals && states[j + 1].terminals[steps[i].terminal].state == Submitted)
  }

  lemma CommittedRow(env: Env, s: Hall, x: nat, begun: Step)
    requires LedgerInv(env, s) && x in s.submitting && s.submitting[x].tail.Some? && begun.BeginSubmit?
    requires s.submitting[x].(tail := None)
          == SubmitTx(begun.terminal, begun.centre, begun.exam, begun.seatNo, begun.envelope, None)
    ensures NewRow(env, s.submitting[x]) == RowFor(env, s.ledger, begun)
  {
    NextIndex(env, s, x);
    LinkedMax(env.hash, ChainOf(s.ledger, begun.centre, begun.exam));
  }

  /** In every run each commit records a submission that was begun before, as it was begun. */
  lemma CommitRecords(env: Env, states: seq<Hall>, steps: seq<Step>, j: nat) returns (i: nat)
    requires IsRun(env, states, steps) && Init(states[0]) && j < |steps| && steps[j].CommitSubmit?
    ensures i < j && Recorded(env, states, steps, i, j)
  {
    Next(env, states, steps, j);
    RunKeepsLedger(env, states, steps, j);
    i := SubmissionWasBegun(env, states, steps, j, steps[j].tx);
    CommittedRow(env, states[j], steps[j].tx, steps[i]);
  }

  lemma LedgerStep(env: Env, s: Hall, step: Step)
    requires Enabled(env, s, step)
    ensures |Apply(env, s, step).ledger| == |s.ledger| + if step.CommitSubmit? then 1 else 0
  {
  }

  /** And every row of the ledger is such a record, sync marks aside. */
  lemma {:induction false} RowWasSubmitted(env: Env, states: seq<Hall>, steps: seq<Step>, n: nat, k: nat)
    returns (i: nat, j: nat)
    requires IsRun(env, states, steps) && Init(states[0]) && n <= |steps| && k < |states[n].ledger|
    ensures i < j < n && Recorded(env, states, steps, i, j) && |states[j].ledger| == k
    ensures states[n].ledger[k].(synced := false) == RowFor(env, states[j].ledger, steps[i])
  {
    Next(env, states, steps, n - 1);
    LedgerStep(env, states[n - 1], steps[n - 1]);
    if k < |states[n - 1].ledger| {
      i, j := RowWasSubmitted(env, states, steps, n - 1, k);
      StepExtends(env, states[n - 1], steps[n - 1]);
    } else {
      j := n - 1;
      i := CommitRecords(env, states, steps, j);
    }
  }

  // ---------- Rolling back ----------

  /** A transaction that is rolled back leaves no trace. */
  lemma RollbackUndoes(env: Env, s: Hall, begin: Step)
    requires Enabled(env, s, begin) && (begin.SelectSeat? || begin.ReadBinding? || begin.BeginSubmit?)
    ensures var end := if begin.SelectSeat? then RollbackAssign(begin.tx)
                       else if begin.ReadBinding? then RollbackLogin(begin.tx) else RollbackSubmit(begin.tx);
      Enabled(env, Apply(env, s, begin), end) && Apply(env, Apply(env, s, begin), end) == s
  {
    var s' := Apply(env, s, begin);
    assert s'.assigning - {begin.tx} == s.assigning - {begin.tx};
    assert s'.loggingIn - {begin.tx} == s.loggingIn - {begin.tx};
    assert s'.submitting - {begin.tx} == s.submitting - {begin.tx};
    assert begin.SelectSeat? ==> s.assigning - {begin.tx} == s.assigning;
    assert begin.ReadBinding? ==> s.loggingIn - {begin.tx} == s.loggingIn;
    assert begin.BeginSubmit? ==> s.submitting - {begin.tx} == s.submitting;
  }

  // ---------- The export ----------

  /** Marking sets the mark of the centre's rows with these leaves, and changes nothing else, least of all
      rows of another centre. */
  lemma MarkExactly(env: Env, s: Hall, c: Id, leaves: set<Bytes>)
    ensures var s' := Apply(env, s, MarkSynced(c, leaves));
      && s' == s.(ledger := s'.ledger) && |s'.ledger| == |s.ledger|
      && forall k :: 0 <= k < |s.ledger| ==>
           s'.ledger[k] == s.ledger[k].(synced := s.ledger[k].synced
             || (s.ledger[k].centre == c && s.ledger[k].leaf in leaves))
  {
  }

  /** And nothing else marks a row. */
  lemma MarkedBy(env: Env, s: Hall, step: Step, k: nat)
    requires Enabled(env, s, step) && k < |s.ledger| && Apply(env, s, step).ledger[k] != s.ledger[k]
    ensures step.MarkSynced? && s.ledger[k].centre == step.centre && s.ledger[k].leaf in step.leaves
  {
  }

  /** Row `k` is of this centre and exam, not marked, and this record shows it. */
  ghost predicate ShowsRow(ledger: seq<Row>, c: Id, e: Id, k: int, r: Hq.ExportRecord) {
    && 0 <= k < |ledger| && ledger[k].centre == c && ledger[k].exam == e && !ledger[k].synced
    && var row := ledger[k];
    r == Hq.ExportRecord(e, Some(row.seatNo), row.leafIndex, ToHex(row.leaf), ToHex(row.prevRoot), ToHex(row.chainRoot),
                         ToHex(row.sig), ToHex(row.envelope.ct), ToHex(row.envelope.iv), ToHex(row.envelope.tag),
                         ToHex(row.envelope.wrappedDk))
  }

  lemma {:induction false} ChainOfHas(ledger: seq<Row>, c: Id, e: Id)
    ensures forall r :: r in ChainOf(ledger, c, e) <==> r in ledger && r.centre == c && r.exam == e
  {
    if |ledger| > 0 {
      var n := |ledger| - 1;
      ChainOfHas(ledger[..n], c, e);
      assert ledger == ledger[..n] + [ledger[n]];
    }
  }

  lemma ShownRow(ledger: seq<Row>, c: Id, e: Id, r: Hq.ExportRecord) returns (k: int)
    requires r in EndToEnd.ToExports(EndToEnd.Unsynced(ChainOf(ledger, c, e)))
    ensures ShowsRow(ledger, c, e, k, r)
  {
    var unsynced := EndToEnd.Unsynced(ChainOf(ledger, c, e));
    EndToEnd.UnsyncedIs(ChainOf(ledger, c, e));
    ChainOfHas(ledger, c, e);
    var m :| 0 <= m < |unsynced| && r == EndToEnd.ToExports(unsynced)[m];
    assert unsynced[m] in ledger;
    k :| 0 <= k < |ledger| && ledger[k] == unsynced[m];
  }

  lemma RowShown(ledger: seq<Row>, c: Id, e: Id, k: int, r: Hq.ExportRecord)
    requires ShowsRow(ledger, c, e, k, r)
    ensures r in EndToEnd.ToExports(EndToEnd.Unsynced(ChainOf(ledger, c, e)))
  {
    var unsynced := EndToEnd.Unsynced(ChainOf(ledger, c, e));
    EndToEnd.UnsyncedIs(ChainOf(ledger, c, e));
    ChainOfHas(ledger, c, e);
    assert ledger[k] in unsynced;
    var m :| 0 <= m < |unsynced| && unsynced[m] == ledger[k];
    assert EndToEnd.ToExports(unsynced)[m] == r;
  }

  /** An export shows exactly the unmarked rows of the centre and exam, field by field, in order of index. */
  lemma ExportShows(h: Hash, ledger: seq<Row>, c: Id, e: Id)
    requires Linked(h, ChainOf(ledger, c, e))
    ensures forall r :: r in EndToEnd.Export(ledger, c, e) <==> exists k :: ShowsRow(ledger, c, e, k, r)
    ensures Hq.Ascending(EndToEnd.Export(ledger, c, e))
  {
    var records := EndToEnd.ToExports(EndToEnd.Unsynced(ChainOf(ledger, c, e)));
    EndToEnd.ExportIs(h, ledger, c, e);
    Hq.SortSpec(records);
    forall r ensures r in records <==> exists k :: ShowsRow(ledger, c, e, k, r) {
      if r in records {
        var k := ShownRow(ledger, c, e, r);
      }
      if k :| ShowsRow(ledger, c, e, k, r) {
        RowShown(ledger, c, e, k, r);
      }
    }
  }
}
