/** The exam hall of a centre: seats, bindings and the answer ledger, as a state machine whose steps
    are the points at which concurrent transactions can interleave. Row locks and the advisory lock
    of the ledger are held from the step that takes them to the commit or rollback. */
module HallProtocol {
  import opened ByteStrings
  import opened MerkleChain

  type Id = string

  datatype SeatState = Available | Assigned | Attended | InExam | Submitted

  datatype Terminal = Terminal(centre: Id, seatNo: string, candidateSeat: bool, state: SeatState, healthy: bool)

  datatype Binding = Binding(terminal: Id, centre: Id, exam: Id, roll: string, boundBy: Id, consumed: bool)

  datatype Envelope = Envelope(ct: Bytes, iv: Bytes, tag: Bytes, wrappedDk: Bytes)

  datatype Row = Row(centre: Id, exam: Id, seatNo: string, leafIndex: int, leaf: Bytes, prevRoot: Bytes,
                     chainRoot: Bytes, sig: Bytes, envelope: Envelope, synced: bool)

  /** A seat assignment between its `SELECT .. FOR UPDATE SKIP LOCKED` and its commit. */
  datatype AssignTx = AssignTx(seat: Id, exam: Id, roll: string, invigilator: Id)

  /** The tail of a chain: its highest leaf index and the root there. */
  type Tail = Option<(int, Bytes)>

  /** A submission that holds the advisory lock; `tail` is `Some` once it has been read. */
  datatype SubmitTx = SubmitTx(terminal: Id, centre: Id, exam: Id, seatNo: string, envelope: Envelope,
                               tail: Option<Tail>)

  datatype Hall = Hall(terminals: map<Id, Terminal>, bindings: seq<Binding>, ledger: seq<Row>,
                       assigning: map<nat, AssignTx>, submitting: map<nat, SubmitTx>, loggingIn: map<nat, Id>)

  /** SHA-256, the node's signature, and the number the advisory lock of a (centre, exam) hashes to. */
  datatype Env = Env(hash: Hash, sign: Bytes -> Bytes, lockKey: (Id, Id) -> int)

  datatype Step =
    | SelectSeat(tx: nat, seat: Id, centre: Id, exam: Id, roll: string, invigilator: Id)
    | CommitAssign(tx: nat)
    | RollbackAssign(tx: nat)
    | CandidateLogin(terminal: Id, roll: string, dobOk: bool)
    | ReadBinding(tx: nat, terminal: Id, roll: string, dobOk: bool)
    | CommitLogin(tx: nat)
    | RollbackLogin(tx: nat)
    | BeginSubmit(tx: nat, terminal: Id, centre: Id, exam: Id, seatNo: string, envelope: Envelope)
    | ReadTail(tx: nat)
    | CommitSubmit(tx: nat)
    | RollbackSubmit(tx: nat)
    | MarkSynced(centre: Id, leaves: set<Bytes>)
    | Heartbeat(terminal: Id, healthy: bool)

  // ---------- Queries ----------

  /** The ledger rows of one (centre, exam), in insertion order. */
  function ChainOf(ledger: seq<Row>, c: Id, e: Id): seq<Row> {
    if |ledger| == 0 then []
    else
      var init, last := ChainOf(ledger[..|ledger| - 1], c, e), ledger[|ledger| - 1];
      if last.centre == c && last.exam == e then init + [last] else init
  }

  /** `ORDER BY leaf_index DESC LIMIT 1`. */
  function MaxRow(rows: seq<Row>): Option<Row> {
    if |rows| == 0 then None
    else
      var last := rows[|rows| - 1];
      match MaxRow(rows[..|rows| - 1])
      case None => Some(last)
      case Some(r) => if r.leafIndex > last.leafIndex then Some(r) else Some(last)
  }

  /** The query of `lockChainTail`. */
  function TailOf(ledger: seq<Row>, c: Id, e: Id): Tail {
    match MaxRow(ChainOf(ledger, c, e))
    case None => None
    case Some(r) => Some((r.leafIndex, r.chainRoot))
  }

  /** `getLatestBinding`. */
  function LatestBinding(bindings: seq<Binding>, t: Id): Option<Binding> {
    if |bindings| == 0 then None
    else if bindings[|bindings| - 1].terminal == t then Some(bindings[|bindings| - 1])
    else LatestBinding(bindings[..|bindings| - 1], t)
  }

  /** The exam of the latest binding. */
  function ExamOf(bindings: seq<Binding>, t: Id): Option<Id> {
    match LatestBinding(bindings, t) case None => None case Some(b) => Some(b.exam)
  }

  /** `getActiveBinding`: the latest one not yet consumed. */
  function ActiveBinding(bindings: seq<Binding>, t: Id): Option<Binding> {
    if |bindings| == 0 then None
    else
      var last := bindings[|bindings| - 1];
      if last.terminal == t && !last.consumed then Some(last) else ActiveBinding(bindings[..|bindings| - 1], t)
  }

  /** `leaf = SHA-256(ct || iv || tag || wrappedDk)`, recomputed on the Edge. */
  function EnvelopeLeaf(h: Hash, v: Envelope): Digest {
    h(v.ct + v.iv + v.tag + v.wrappedDk)
  }

  // ---------- Steps ----------

  /** The rows `SELECT .. FOR UPDATE SKIP LOCKED` may return: free, healthy and not locked. */
  predicate Selectable(s: Hall, seat: Id, centre: Id) {
    && seat in s.terminals && s.terminals[seat].centre == centre && s.terminals[seat].candidateSeat
    && s.terminals[seat].state == Available && s.terminals[seat].healthy
    && forall tx :: tx in s.assigning ==> s.assigning[tx].seat != seat
  }

  /** The advisory lock of (centre, exam) is free. */
  predicate LockFree(env: Env, s: Hall, c: Id, e: Id) {
    forall tx :: tx in s.submitting ==> env.lockKey(s.submitting[tx].centre, s.submitting[tx].exam) != env.lockKey(c, e)
  }

  /** What the database lets happen. */
  predicate Enabled(env: Env, s: Hall, step: Step) {
    match step
    case SelectSeat(tx, seat, centre, _, _, _) => tx !in s.assigning && Selectable(s, seat, centre)
    case CommitAssign(tx) => tx in s.assigning
    case RollbackAssign(tx) => tx in s.assigning
    case BeginSubmit(tx, _, c, e, _, _) => tx !in s.submitting && LockFree(env, s, c, e)
    case ReadTail(tx) => tx in s.submitting && s.submitting[tx].tail.None?
    case CommitSubmit(tx) => tx in s.submitting && s.submitting[tx].tail.Some?
    case RollbackSubmit(tx) => tx in s.submitting
    case ReadBinding(tx, terminal, roll, dobOk) => tx !in s.loggingIn && LoginSucceeds(s, terminal, roll, dobOk)
    case CommitLogin(tx) => tx in s.loggingIn
    case RollbackLogin(tx) => tx in s.loggingIn
    case _ => true
  }

  /** What the submit handler checks before its transaction: an authenticated seat, and the centre,
      exam and seat number it submits for. */
  predicate SubmitChecks(s: Hall, terminal: Id, c: Id, e: Id, seatNo: string) {
    && terminal in s.terminals && s.terminals[terminal].centre == c && s.terminals[terminal].seatNo == seatNo
    && (s.terminals[terminal].state == Attended || s.terminals[terminal].state == InExam)
    && ExamOf(s.bindings, terminal) == Some(e)
  }

  predicate Checked(s: Hall, step: Step) {
    step.BeginSubmit? ==> SubmitChecks(s, step.terminal, step.centre, step.exam, step.seatNo)
  }

  function WithState(s: Hall, t: Id, state: SeatState): map<Id, Terminal> {
    if t in s.terminals then s.terminals[t := s.terminals[t].(state := state)] else s.terminals
  }

  function DoCommitAssign(s: Hall, tx: nat): Hall
    requires tx in s.assigning
  {
    var a := s.assigning[tx];
    var centre := if a.seat in s.terminals then s.terminals[a.seat].centre else "";
    s.(terminals := WithState(s, a.seat, Assigned),
       bindings := s.bindings + [Binding(a.seat, centre, a.exam, a.roll, a.invigilator, false)],
       assigning := s.assigning - {tx})
  }

  /** `UPDATE seat_bindings SET consumed_at = NOW() WHERE terminal_id = .. AND consumed_at IS NULL`. */
  function Consume(bindings: seq<Binding>, t: Id): (r: seq<Binding>)
    ensures |r| == |bindings|
    ensures forall i :: 0 <= i < |r|
              ==> r[i] == if bindings[i].terminal == t then bindings[i].(consumed := true) else bindings[i]
  {
    seq(|bindings|, i requires 0 <= i < |bindings| =>
      if bindings[i].terminal == t then bindings[i].(consumed := true) else bindings[i])
  }

  /** The candidate login succeeds: the seat's active binding names this roll and the date of
      birth matched. */
  predicate LoginSucceeds(s: Hall, terminal: Id, roll: string, dobOk: bool) {
    var b := ActiveBinding(s.bindings, terminal);
    b.Some? && b.value.roll == roll && dobOk
  }

  /** `consumeBindingAttend`, the transaction of a candidate login: it reads nothing again. */
  function Attend(s: Hall, terminal: Id): Hall {
    s.(terminals := WithState(s, terminal, Attended), bindings := Consume(s.bindings, terminal))
  }

  /** A login that nothing interrupts. */
  function DoCandidateLogin(s: Hall, terminal: Id, roll: string, dobOk: bool): Hall {
    if LoginSucceeds(s, terminal, roll, dobOk) then Attend(s, terminal) else s
  }

  /** The transaction of a login that read its binding some steps before. */
  function DoCommitLogin(s: Hall, tx: nat): Hall
    requires tx in s.loggingIn
  {
    Attend(s, s.loggingIn[tx]).(loggingIn := s.loggingIn - {tx})
  }

  /** The row a submission appends after the tail it read. */
  function NewRow(env: Env, t: SubmitTx): Row
    requires t.tail.Some?
  {
    var prevRoot: Bytes := match t.tail.value case None => GENESIS case Some(p) => p.1;
    var leafIndex := match t.tail.value case None => 0 case Some(p) => p.0 + 1;
    var leaf := EnvelopeLeaf(env.hash, t.envelope);
    var chainRoot := NextRoot(env.hash, prevRoot, leaf);
    Row(t.centre, t.exam, t.seatNo, leafIndex, leaf, prevRoot, chainRoot, env.sign(chainRoot), t.envelope, false)
  }

  function DoCommitSubmit(env: Env, s: Hall, tx: nat): Hall
    requires tx in s.submitting && s.submitting[tx].tail.Some?
  {
    var t := s.submitting[tx];
    s.(terminals := WithState(s, t.terminal, Submitted), ledger := s.ledger + [NewRow(env, t)],
       submitting := s.submitting - {tx})
  }

  function MarkRow(r: Row, c: Id, leaves: set<Bytes>): Row {
    if r.centre == c && r.leaf in leaves then r.(synced := true) else r
  }

  /** `markSynced`: by centre and leaf, whatever the exam. */
  function Mark(ledger: seq<Row>, c: Id, leaves: set<Bytes>): (r: seq<Row>)
    ensures |r| == |ledger| && forall i :: 0 <= i < |r| ==> r[i] == MarkRow(ledger[i], c, leaves)
  {
    seq(|ledger|, i requires 0 <= i < |ledger| => MarkRow(ledger[i], c, leaves))
  }

  function Apply(env: Env, s: Hall, step: Step): Hall
    requires Enabled(env, s, step)
  {
    match step
    case SelectSeat(tx, seat, _, exam, roll, invigilator) =>
      s.(assigning := s.assigning[tx := AssignTx(seat, exam, roll, invigilator)])
    case CommitAssign(tx) => DoCommitAssign(s, tx)
    case RollbackAssign(tx) => s.(assigning := s.assigning - {tx})
    case CandidateLogin(terminal, roll, dobOk) => DoCandidateLogin(s, terminal, roll, dobOk)
    case ReadBinding(tx, terminal, _, _) => s.(loggingIn := s.loggingIn[tx := terminal])
    case CommitLogin(tx) => DoCommitLogin(s, tx)
    case RollbackLogin(tx) => s.(loggingIn := s.loggingIn - {tx})
    case BeginSubmit(tx, terminal, c, e, seatNo, envelope) =>
      s.(submitting := s.submitting[tx := SubmitTx(terminal, c, e, seatNo, envelope, None)])
    case ReadTail(tx) =>
      var t := s.submitting[tx];
      s.(submitting := s.submitting[tx := t.(tail := Some(TailOf(s.ledger, t.centre, t.exam)))])
    case CommitSubmit(tx) => DoCommitSubmit(env, s, tx)
    case RollbackSubmit(tx) => s.(submitting := s.submitting - {tx})
    case MarkSynced(c, leaves) => s.(ledger := Mark(s.ledger, c, leaves))
    case Heartbeat(terminal, healthy) =>
      if terminal in s.terminals
      then s.(terminals := s.terminals[terminal := s.terminals[terminal].(healthy := healthy)])
      else s
  }

  /** A run: every step is enabled and leads to the next state. */
  ghost predicate IsRun(env: Env, states: seq<Hall>, steps: seq<Step>) {
    && |states| == |steps| + 1
    && forall i :: 0 <= i < |steps|
         ==> Enabled(env, states[i], steps[i]) && states[i + 1] == Apply(env, states[i], steps[i])
  }

  /** Before the exam: all seats free, nothing bound, nothing submitted, no transaction open. */
  ghost predicate Init(s: Hall) {
    && (forall t :: t in s.terminals ==> s.terminals[t].state == Available)
    && s.bindings == [] && s.ledger == [] && s.assigning == map[] && s.submitting == map[] && s.loggingIn == map[]
  }

  // ======================= The ledger =======================

  predicate RowLinked(h: Hash, rows: seq<Row>, i: nat)
    requires i < |rows|
  {
    var r := rows[i];
    && r.leafIndex == i
    && r.prevRoot == (if i == 0 then GENESIS else rows[i - 1].chainRoot)
    && r.leaf == EnvelopeLeaf(h, r.envelope)
    && r.chainRoot == NextRoot(h, r.prevRoot, r.leaf)
  }

  /** Indices `0 .. n-1` without gap or repeat, from GENESIS, each root linking to the one before. */
  predicate Linked(h: Hash, rows: seq<Row>) {
    forall i :: 0 <= i < |rows| ==> RowLinked(h, rows, i)
  }

  ghost predicate ChainsLinked(h: Hash, ledger: seq<Row>) {
    forall c, e :: Linked(h, ChainOf(ledger, c, e))
  }

  /** Two open submissions never share a lock. */
  ghost predicate LocksExclusive(env: Env, submitting: map<nat, SubmitTx>) {
    forall x, y :: x in submitting && y in submitting && x != y ==>
      env.lockKey(submitting[x].centre, submitting[x].exam) != env.lockKey(submitting[y].centre, submitting[y].exam)
  }

  /** A tail that was read under the lock is still the tail. */
  ghost predicate TailsFresh(ledger: seq<Row>, submitting: map<nat, SubmitTx>) {
    forall x :: x in submitting && submitting[x].tail.Some? ==>
      submitting[x].tail.value == TailOf(ledger, submitting[x].centre, submitting[x].exam)
  }

  ghost predicate LedgerInv(env: Env, s: Hall) {
    ChainsLinked(env.hash, s.ledger) && LocksExclusive(env, s.submitting) && TailsFresh(s.ledger, s.submitting)
  }

  lemma {:induction false} LinkedMax(h: Hash, rows: seq<Row>)
    requires Linked(h, rows)
    ensures MaxRow(rows) == if |rows| == 0 then None else Some(rows[|rows| - 1])
  {
    if |rows| > 1 {
      var init := rows[..|rows| - 1];
      forall i | 0 <= i < |init| ensures RowLinked(h, init, i) {
        assert RowLinked(h, rows, i);
      }
      LinkedMax(h, init);
      assert RowLinked(h, rows, |rows| - 1) && RowLinked(h, rows, |rows| - 2);
    }
  }

  lemma ChainOfAppend(ledger: seq<Row>, r: Row, c: Id, e: Id)
    ensures ChainOf(ledger + [r], c, e) == if r.centre == c && r.exam == e then ChainOf(ledger, c, e) + [r]
      else ChainOf(ledger, c, e)
  {
    assert (ledger + [r])[..|ledger|] == ledger;
  }

  lemma AppendLinked(env: Env, rows: seq<Row>, t: SubmitTx)
    requires Linked(env.hash, rows) && t.tail.Some?
    requires t.tail.value == match MaxRow(rows) case None => None case Some(r) => Some((r.leafIndex, r.chainRoot))
    ensures Linked(env.hash, rows + [NewRow(env, t)])
  {
    LinkedMax(env.hash, rows);
    var rows' := rows + [NewRow(env, t)];
    if |rows| > 0 {
      assert RowLinked(env.hash, rows, |rows| - 1);
    }
    forall i | 0 <= i < |rows'| ensures RowLinked(env.hash, rows', i) {
      if i < |rows| {
        assert RowLinked(env.hash, rows, i);
      }
    }
  }

  lemma CommitSubmitKeepsLedger(env: Env, s: Hall, tx: nat)
    requires LedgerInv(env, s) && tx in s.submitting && s.submitting[tx].tail.Some?
    ensures LedgerInv(env, DoCommitSubmit(env, s, tx))
  {
    var s' := DoCommitSubmit(env, s, tx);
    var t := s.submitting[tx];
    var row := NewRow(env, t);
    forall c, e ensures Linked(env.hash, ChainOf(s'.ledger, c, e)) {
      ChainOfAppend(s.ledger, row, c, e);
      assert Linked(env.hash, ChainOf(s.ledger, c, e));
      if t.centre == c && t.exam == e {
        AppendLinked(env, ChainOf(s.ledger, c, e), t);
      }
    }
    forall x | x in s'.submitting && s'.submitting[x].tail.Some?
      ensures s'.submitting[x].tail.value == TailOf(s'.ledger, s'.submitting[x].centre, s'.submitting[x].exam)
    {
      ChainOfAppend(s.ledger, row, s.submitting[x].centre, s.submitting[x].exam);
    }
  }

  /** Marking rows synced changes a chain in nothing but the marks. */
  lemma {:induction false} ChainOfMark(ledger: seq<Row>, c': Id, leaves: set<Bytes>, c: Id, e: Id)
    ensures ChainOf(Mark(ledger, c', leaves), c, e) == Mark(ChainOf(ledger, c, e), c', leaves)
  {
    if |ledger| > 0 {
      var n := |ledger| - 1;
      ChainOfMark(ledger[..n], c', leaves, c, e);
      assert Mark(ledger, c', leaves)[..n] == Mark(ledger[..n], c', leaves);
    }
  }

  lemma MarkLinked(h: Hash, rows: seq<Row>, c: Id, leaves: set<Bytes>)
    requires Linked(h, rows)
    ensures Linked(h, Mark(rows, c, leaves))
  {
    forall i | 0 <= i < |rows| ensures RowLinked(h, Mark(rows, c, leaves), i) {
      assert RowLinked(h, rows, i);
    }
  }

  lemma MarkTail(h: Hash, ledger: seq<Row>, c': Id, leaves: set<Bytes>, c: Id, e: Id)
    requires Linked(h, ChainOf(ledger, c, e))
    ensures TailOf(Mark(ledger, c', leaves), c, e) == TailOf(ledger, c, e)
  {
    var rows := ChainOf(ledger, c, e);
    ChainOfMark(ledger, c', leaves, c, e);
    MarkLinked(h, rows, c', leaves);
    LinkedMax(h, rows);
    LinkedMax(h, Mark(rows, c', leaves));
  }

  lemma MarkKeepsLedger(env: Env, s: Hall, c': Id, leaves: set<Bytes>)
    requires LedgerInv(env, s)
    ensures LedgerInv(env, s.(ledger := Mark(s.ledger, c', leaves)))
  {
    forall c, e ensures Linked(env.hash, ChainOf(Mark(s.ledger, c', leaves), c, e)) {
      ChainOfMark(s.ledger, c', leaves, c, e);
      MarkLinked(env.hash, ChainOf(s.ledger, c, e), c', leaves);
    }
    forall x | x in s.submitting && s.submitting[x].tail.Some?
      ensures s.submitting[x].tail.value
        == TailOf(Mark(s.ledger, c', leaves), s.submitting[x].centre, s.submitting[x].exam)
    {
      MarkTail(env.hash, s.ledger, c', leaves, s.submitting[x].centre, s.submitting[x].exam);
    }
  }

  /** Every enabled step keeps the ledger well-formed. Nothing is asked of what a submission
      claims to submit for: the advisory lock alone is enough. */
  lemma StepKeepsLedger(env: Env, s: Hall, step: Step)
    requires LedgerInv(env, s) && Enabled(env, s, step)
    ensures LedgerInv(env, Apply(env, s, step))
  {
    match step
    case CommitSubmit(tx) => CommitSubmitKeepsLedger(env, s, tx);
    case MarkSynced(c, leaves) => MarkKeepsLedger(env, s, c, leaves);
    case _ =>
  }

  lemma {:induction false} RunKeepsLedger(env: Env, states: seq<Hall>, steps: seq<Step>, i: nat)
    requires IsRun(env, states, steps) && Init(states[0]) && i < |states|
    ensures LedgerInv(env, states[i])
  {
    if i == 0 {
      forall c, e ensures Linked(env.hash, ChainOf(states[0].ledger, c, e)) {
      }
    } else {
      RunKeepsLedger(env, states, steps, i - 1);
      StepKeepsLedger(env, states[i - 1], steps[i - 1]);
    }
  }

  // ---------- Append-only ----------

  /** `later` keeps every row of `earlier` in place; only the sync mark may have been set. */
  ghost predicate Extends(earlier: seq<Row>, later: seq<Row>) {
    && |earlier| <= |later|
    && forall i :: 0 <= i < |earlier| ==>
         later[i].(synced := false) == earlier[i].(synced := false) && (earlier[i].synced ==> later[i].synced)
  }

  lemma StepExtends(env: Env, s: Hall, step: Step)
    requires Enabled(env, s, step)
    ensures Extends(s.ledger, Apply(env, s, step).ledger)
  {
  }

  ghost predicate Growing(states: seq<Hall>) {
    forall i :: 0 <= i < |states| - 1 ==> Extends(states[i].ledger, states[i + 1].ledger)
  }

  lemma RunGrows(env: Env, states: seq<Hall>, steps: seq<Step>)
    requires IsRun(env, states, steps)
    ensures Growing(states)
  {
    forall i | 0 <= i < |states| - 1 ensures Extends(states[i].ledger, states[i + 1].ledger) {
      StepExtends(env, states[i], steps[i]);
    }
  }

  lemma {:induction false} GrowingExtends(states: seq<Hall>, i: nat, j: nat)
    requires Growing(states) && i <= j < |states|
    ensures Extends(states[i].ledger, states[j].ledger)
  {
    if i < j {
      GrowingExtends(states, i, j - 1);
      ExtendsTransitive(states[i].ledger, states[j - 1].ledger, states[j].ledger);
    }
  }

  /** Over a whole run the ledger is append-only, sync marks aside. */
  lemma RunExtends(env: Env, states: seq<Hall>, steps: seq<Step>, i: nat, j: nat)
    requires IsRun(env, states, steps) && i <= j < |states|
    ensures Extends(states[i].ledger, states[j].ledger)
  {
    RunGrows(env, states, steps);
    GrowingExtends(states, i, j);
  }

  lemma ExtendsTransitive(a: seq<Row>, b: seq<Row>, c: seq<Row>)
    requires Extends(a, b) && Extends(b, c)
    ensures Extends(a, c)
  {
  }

  // ---------- Receipts ----------

  datatype Receipt = Receipt(leafIndex: int, leaf: Bytes, prevRoot: Bytes, root: Bytes, sig: Bytes)

  function ReceiptOf(r: Row): Receipt {
    Receipt(r.leafIndex, r.leaf, r.prevRoot, r.chainRoot, r.sig)
  }

  predicate ReceiptValid(h: Hash, r: Receipt) {
    r.root == NextRoot(h, r.prevRoot, r.leaf)
  }

  lemma {:induction false} RowInChain(ledger: seq<Row>, k: nat) returns (i: nat)
    requires k < |ledger|
    ensures i < |ChainOf(ledger, ledger[k].centre, ledger[k].exam)|
    ensures ChainOf(ledger, ledger[k].centre, ledger[k].exam)[i] == ledger[k]
  {
    var n := |ledger| - 1;
    if k < n {
      i := RowInChain(ledger[..n], k);
    } else {
      i := |ChainOf(ledger[..n], ledger[k].centre, ledger[k].exam)|;
    }
  }

  /** Every row on the ledger is a valid receipt. */
  lemma LedgerRowValid(env: Env, s: Hall, k: nat)
    requires LedgerInv(env, s) && k < |s.ledger|
    ensures ReceiptValid(env.hash, ReceiptOf(s.ledger[k]))
  {
    var i := RowInChain(s.ledger, k);
    assert Linked(env.hash, ChainOf(s.ledger, s.ledger[k].centre, s.ledger[k].exam));
    assert RowLinked(env.hash, ChainOf(s.ledger, s.ledger[k].centre, s.ledger[k].exam), i);
  }

  lemma LedgerLeaf(env: Env, s: Hall, k: nat)
    requires LedgerInv(env, s) && k < |s.ledger|
    ensures s.ledger[k].leaf == EnvelopeLeaf(env.hash, s.ledger[k].envelope)
  {
    var i := RowInChain(s.ledger, k);
    assert Linked(env.hash, ChainOf(s.ledger, s.ledger[k].centre, s.ledger[k].exam));
    assert RowLinked(env.hash, ChainOf(s.ledger, s.ledger[k].centre, s.ledger[k].exam), i);
  }

  /** A submission gets the number of rows before it as its index. */
  lemma NextIndex(env: Env, s: Hall, tx: nat)
    requires LedgerInv(env, s) && tx in s.submitting && s.submitting[tx].tail.Some?
    ensures NewRow(env, s.submitting[tx]).leafIndex
      == |ChainOf(s.ledger, s.submitting[tx].centre, s.submitting[tx].exam)|
  {
    var rows := ChainOf(s.ledger, s.submitting[tx].centre, s.submitting[tx].exam);
    LinkedMax(env.hash, rows);
    if |rows| > 0 {
      assert RowLinked(env.hash, rows, |rows| - 1);
    }
  }

  /** The receipt a submission returned stays on the ledger in its place and valid, and whatever
      row a later lookup by its leaf finds is valid too. */
  lemma ReceiptsStand(env: Env, states: seq<Hall>, steps: seq<Step>, i: nat, j: nat)
    requires IsRun(env, states, steps) && Init(states[0]) && i < j < |states| && steps[i].CommitSubmit?
    ensures var receipt := ReceiptOf(NewRow(env, states[i].submitting[steps[i].tx]));
      var k := |states[i].ledger|;
      && k < |states[j].ledger| && ReceiptOf(states[j].ledger[k]) == receipt && ReceiptValid(env.hash, receipt)
      && forall m :: 0 <= m < |states[j].ledger| ==> ReceiptValid(env.hash, ReceiptOf(states[j].ledger[m]))
  {
    RunExtends(env, states, steps, i + 1, j);
    var k := |states[i].ledger|;
    assert states[i + 1].ledger[k] == NewRow(env, states[i].submitting[steps[i].tx]);
    assert states[j].ledger[k].(synced := false) == states[i + 1].ledger[k].(synced := false);
    RunKeepsLedger(env, states, steps, j);
    var ledger := states[j].ledger;
    forall m | 0 <= m < |ledger| ensures ReceiptValid(env.hash, ReceiptOf(ledger[m])) {
      LedgerRowValid(env, states[j], m);
    }
  }
}
