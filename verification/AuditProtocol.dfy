/** Audit appends that interleave. `appendAudit` reads the last hash of its centre and inserts without a
    lock, inside the caller's transaction. The table's numbers are drawn at the insert, the row is
    seen at the commit. This module says exactly when the logs still verify. */
module AuditProtocol {
  import opened ByteStrings
  import opened JsonText
  import opened AuditLog
  import Chain = MerkleChain

  /** An append that has read the tail: the row to insert and the hash it continues. */
  datatype Reading = Reading(row: Row, prev: Bytes)

  /** Committed rows in the order of their numbers, the next number, and the open appends. */
  datatype Audit = Audit(table: seq<Entry>, next: nat, reading: map<nat, Reading>, inserted: map<nat, Entry>)

  datatype Step =
    | ReadTail(tx: nat, row: Row)
    | Insert(tx: nat)
    | Commit(tx: nat)
    | Rollback(tx: nat)

  function Tail(log: seq<Entry>): Bytes {
    PrevHash(log, |log|)
  }

  /** The committed rows with one more, in its place by number. */
  function BySeq(table: seq<Entry>, e: Entry): (t: seq<Entry>)
    ensures |t| == |table| + 1
  {
    var n := |table| - 1;
    if |table| == 0 || table[n].seqNo < e.seqNo then table + [e] else BySeq(table[..n], e) + [table[n]]
  }

  predicate Enabled(env: Env, s: Audit, step: Step) {
    match step
    case ReadTail(tx, row) => tx !in s.reading && tx !in s.inserted && env.accepts(row)
    case Insert(tx) => tx in s.reading && tx !in s.inserted
    case Commit(tx) => tx in s.inserted
    case Rollback(tx) => true
  }

  function Apply(env: Env, s: Audit, step: Step): Audit
    requires Enabled(env, s, step)
  {
    match step
    case ReadTail(tx, row) => s.(reading := s.reading[tx := Reading(row, Tail(LogOf(s.table, row.centre)))])
    case Insert(tx) =>
      s.(inserted := s.inserted[tx := NewEntry(env, s.next, s.reading[tx].row, s.reading[tx].prev)],
         reading := s.reading - {tx}, next := s.next + 1)
    case Commit(tx) => s.(table := BySeq(s.table, s.inserted[tx]), inserted := s.inserted - {tx})
    case Rollback(tx) => s.(reading := s.reading - {tx}, inserted := s.inserted - {tx})
  }

  ghost predicate IsRun(env: Env, states: seq<Audit>, steps: seq<Step>) {
    && |states| == |steps| + 1
    && forall i :: 0 <= i < |steps|
         ==> Enabled(env, states[i], steps[i]) && states[i + 1] == Apply(env, states[i], steps[i])
  }

  ghost predicate Init(s: Audit) {
    s.table == [] && s.reading == map[] && s.inserted == map[]
  }

  /** The rows given are values. */
  ghost predicate RowsValid(steps: seq<Step>) {
    forall i :: 0 <= i < |steps| && steps[i].ReadTail? ==> Valid(steps[i].row.details)
  }

  // ---------- What every state keeps ----------

  predicate Sorted(table: seq<Entry>) {
    forall i, j :: 0 <= i < j < |table| ==> table[i].seqNo < table[j].seqNo
  }

  /** The stored hash is that of the stored row after the stored previous hash. */
  predicate Sealed(env: Env, e: Entry) {
    e.entryHash == EntryHash(env, e.prevHash, e.row) && |e.prevHash| == 32
  }

  ghost predicate TableInv(env: Env, s: Audit) {
    Sorted(s.table) && forall i :: 0 <= i < |s.table| ==> Sealed(env, s.table[i]) && s.table[i].seqNo < s.next
  }

  ghost predicate OpenInv(env: Env, s: Audit) {
    && (forall tx :: tx in s.reading
          ==> |s.reading[tx].prev| == 32 && Valid(s.reading[tx].row.details) && env.accepts(s.reading[tx].row))
    && (forall tx :: tx in s.inserted ==> Sealed(env, s.inserted[tx]) && s.inserted[tx].seqNo < s.next)
    && (forall x, y :: x in s.inserted && y in s.inserted && x != y ==> s.inserted[x].seqNo != s.inserted[y].seqNo)
    && (forall tx, i :: tx in s.inserted && 0 <= i < |s.table| ==> s.inserted[tx].seqNo != s.table[i].seqNo)
  }

  ghost predicate Inv(env: Env, s: Audit) {
    TableInv(env, s) && OpenInv(env, s)
  }

  lemma {:induction false} BySeqMembers(table: seq<Entry>, e: Entry)
    ensures forall x :: x in BySeq(table, e) <==> x == e || x in table
  {
    var n := |table| - 1;
    if |table| > 0 && table[n].seqNo >= e.seqNo {
      BySeqMembers(table[..n], e);
      assert table == table[..n] + [table[n]];
    }
  }

  lemma SortedAppend(table: seq<Entry>, e: Entry)
    requires Sorted(table) && forall x :: x in table ==> x.seqNo < e.seqNo
    ensures Sorted(table + [e])
  {
  }

  lemma {:induction false} BySeqSorted(table: seq<Entry>, e: Entry)
    requires Sorted(table) && forall x :: x in table ==> x.seqNo != e.seqNo
    ensures Sorted(BySeq(table, e))
  {
    var n := |table| - 1;
    if |table| == 0 || table[n].seqNo < e.seqNo {
      SortedAppend(table, e);
    } else {
      BySeqSorted(table[..n], e);
      BySeqMembers(table[..n], e);
      SortedAppend(BySeq(table[..n], e), table[n]);
    }
  }

  lemma {:induction false} LogOfMembers(table: seq<Entry>, centre: Option<string>)
    ensures forall x :: x in LogOf(table, centre) ==> x in table && x.row.centre == centre
  {
    if |table| > 0 {
      LogOfMembers(table[..|table| - 1], centre);
    }
  }

  /** A committed row joins its own centre's log in its place by number, and no other. */
  lemma {:induction false} LogOfBySeq(table: seq<Entry>, e: Entry, centre: Option<string>)
    requires Sorted(table)
    ensures LogOf(BySeq(table, e), centre) == if e.row.centre == centre then BySeq(LogOf(table, centre), e)
      else LogOf(table, centre)
  {
    var n := |table| - 1;
    if |table| == 0 || table[n].seqNo < e.seqNo {
      assert (table + [e])[..|table|] == table;
      LogOfMembers(table, centre);
      var log := LogOf(table, centre);
      if |log| > 0 {
        assert log[|log| - 1] in table;
      }
    } else {
      LogOfBySeq(table[..n], e, centre);
      var t := BySeq(table[..n], e);
      assert (t + [table[n]])[..|t|] == t;
      if table[n].row.centre == centre {
        var log := LogOf(table[..n], centre);
        assert (log + [table[n]])[..|log|] == log;
      }
    }
  }

  lemma TailIsDigest(env: Env, s: Audit, centre: Option<string>)
    requires TableInv(env, s)
    ensures |Tail(LogOf(s.table, centre))| == 32
  {
    var log := LogOf(s.table, centre);
    LogOfMembers(s.table, centre);
    if |log| > 0 {
      var e := log[|log| - 1];
      assert e in s.table;
      var i :| 0 <= i < |s.table| && s.table[i] == e;
      assert Sealed(env, s.table[i]);
    }
  }

  lemma CommitKeepsInv(env: Env, s: Audit, tx: nat)
    requires Inv(env, s) && tx in s.inserted
    ensures Inv(env, Apply(env, s, Commit(tx)))
  {
    var s' := Apply(env, s, Commit(tx));
    var e := s.inserted[tx];
    BySeqMembers(s.table, e);
    forall x | x in s.table ensures x.seqNo != e.seqNo {
      var i :| 0 <= i < |s.table| && s.table[i] == x;
    }
    BySeqSorted(s.table, e);
    forall i | 0 <= i < |s'.table| ensures s'.table[i] == e || s'.table[i] in s.table {
      assert s'.table[i] in s'.table;
    }
  }

  lemma InsertKeepsInv(env: Env, s: Audit, tx: nat)
    requires StoreKeeps(env) && Inv(env, s) && tx in s.reading && tx !in s.inserted
    ensures Inv(env, Apply(env, s, Insert(tx)))
  {
    StoredHashesAlike(env, s.reading[tx].prev, s.reading[tx].row);
  }

  lemma StepKeepsInv(env: Env, s: Audit, step: Step)
    requires StoreKeeps(env) && Inv(env, s) && Enabled(env, s, step) && (step.ReadTail? ==> Valid(step.row.details))
    ensures Inv(env, Apply(env, s, step))
  {
    match step
    case ReadTail(tx, row) => TailIsDigest(env, s, row.centre);
    case Insert(tx) => InsertKeepsInv(env, s, tx);
    case Commit(tx) => CommitKeepsInv(env, s, tx);
    case Rollback(tx) =>
  }

  lemma {:induction false} RunKeepsInv(env: Env, states: seq<Audit>, steps: seq<Step>, n: nat)
    requires StoreKeeps(env) && IsRun(env, states, steps) && RowsValid(steps) && Init(states[0]) && n <= |steps|
    ensures Inv(env, states[n])
  {
    if n > 0 {
      RunKeepsInv(env, states, steps, n - 1);
      StepKeepsInv(env, states[n - 1], steps[n - 1]);
    }
  }

  // ---------- One commit ----------

  /** How many rows of the log have smaller numbers. */
  function Place(log: seq<Entry>, e: Entry): (p: nat)
    ensures p <= |log|
  {
    var n := |log| - 1;
    if |log| == 0 || log[n].seqNo < e.seqNo then |log| else Place(log[..n], e)
  }

  lemma {:induction false} BySeqIs(log: seq<Entry>, e: Entry)
    ensures BySeq(log, e) == log[..Place(log, e)] + [e] + log[Place(log, e)..]
  {
    var n := |log| - 1;
    if |log| > 0 && log[n].seqNo >= e.seqNo {
      var p := Place(log[..n], e);
      BySeqIs(log[..n], e);
      assert log[..n][..p] == log[..p] && log[..n][p..] + [log[n]] == log[p..];
    }
  }

  /** The row continues the hash before its place, and if rows follow there, it has that hash too. */
  predicate Fits(log: seq<Entry>, e: Entry) {
    var p := Place(log, e);
    e.prevHash == PrevHash(log, p) && (p < |log| ==> e.entryHash == e.prevHash)
  }

  lemma PutInto(env: Env, log: seq<Entry>, e: Entry, p: nat)
    requires LogOk(env, log) && Sealed(env, e) && p <= |log|
    ensures LogOk(env, log[..p] + [e] + log[p..])
      <==> e.prevHash == PrevHash(log, p) && (p < |log| ==> e.entryHash == e.prevHash)
  {
    var log' := log[..p] + [e] + log[p..];
    forall i | 0 <= i < p ensures EntryOk(env, log', i) {
      assert EntryOk(env, log, i);
    }
    assert EntryOk(env, log', p) <==> e.prevHash == PrevHash(log, p);
    if p < |log| {
      assert EntryOk(env, log, p) && log'[p + 1] == log[p];
      assert EntryOk(env, log', p + 1) <==> e.entryHash == PrevHash(log, p);
    }
    forall i | p + 2 <= i < |log'| ensures EntryOk(env, log', i) {
      assert EntryOk(env, log, i - 1) && log'[i] == log[i - 1] && log'[i - 1] == log[i - 2];
    }
  }

  lemma JoinsIff(env: Env, log: seq<Entry>, e: Entry)
    requires LogOk(env, log) && Sealed(env, e)
    ensures LogOk(env, BySeq(log, e)) <==> Fits(log, e)
  {
    BySeqIs(log, e);
    PutInto(env, log, e, Place(log, e));
  }

  ghost predicate LogsOk(env: Env, s: Audit) {
    forall centre :: LogOk(env, LogOf(s.table, centre))
  }

  /** The step commits a row that does not fit its centre's log. */
  predicate Misfits(s: Audit, step: Step) {
    step.Commit? && step.tx in s.inserted && !Fits(LogOf(s.table, s.inserted[step.tx].row.centre), s.inserted[step.tx])
  }

  lemma CommitIff(env: Env, s: Audit, tx: nat)
    requires Inv(env, s) && LogsOk(env, s) && tx in s.inserted
    ensures LogsOk(env, Apply(env, s, Commit(tx))) <==> !Misfits(s, Commit(tx))
  {
    var e := s.inserted[tx];
    var s' := Apply(env, s, Commit(tx));
    forall centre ensures centre != e.row.centre ==> LogOk(env, LogOf(s'.table, centre)) {
      LogOfBySeq(s.table, e, centre);
      assert LogOk(env, LogOf(s.table, centre));
    }
    LogOfBySeq(s.table, e, e.row.centre);
    JoinsIff(env, LogOf(s.table, e.row.centre), e);
  }

  /** From a state whose logs verify, a step leads to such a state exactly if it commits no misfit. */
  lemma StepLogsIff(env: Env, s: Audit, step: Step)
    requires Inv(env, s) && LogsOk(env, s) && Enabled(env, s, step)
    ensures LogsOk(env, Apply(env, s, step)) <==> !Misfits(s, step)
  {
    if step.Commit? {
      CommitIff(env, s, step.tx);
    } else {
      assert Apply(env, s, step).table == s.table;
    }
  }

  // ---------- Whole runs ----------

  ghost predicate LogsOkUpTo(env: Env, states: seq<Audit>, n: int) {
    n < |states| && forall m :: 0 <= m <= n ==> LogsOk(env, states[m])
  }

  ghost predicate NoMisfits(states: seq<Audit>, steps: seq<Step>, n: int) {
    n <= |steps| < |states| && forall k :: 0 <= k < n ==> !Misfits(states[k], steps[k])
  }

  lemma OneStateMore(env: Env, states: seq<Audit>, steps: seq<Step>, n: nat)
    requires IsRun(env, states, steps) && n < |steps| && Inv(env, states[n]) && LogsOkUpTo(env, states, n)
    ensures LogsOkUpTo(env, states, n + 1) <==> !Misfits(states[n], steps[n])
  {
    assert LogsOk(env, states[n]);
    StepLogsIff(env, states[n], steps[n]);
    assert states[n + 1] == Apply(env, states[n], steps[n]);
    assert LogsOkUpTo(env, states, n + 1) <==> LogsOk(env, states[n + 1]);
  }

  /** In every run of interleaved appends all centres' logs verify in all states up to `n` if and only
      if until then every committed row fitted: it continued the last hash before its number, and no
      row with a larger number was committed before it (its hash being the one it continues aside). */
  lemma {:induction false} LogsVerifyIff(env: Env, states: seq<Audit>, steps: seq<Step>, n: nat)
    requires StoreKeeps(env) && IsRun(env, states, steps) && RowsValid(steps) && Init(states[0]) && n <= |steps|
    ensures LogsOkUpTo(env, states, n) <==> NoMisfits(states, steps, n)
  {
    if n == 0 {
      forall centre ensures LogOk(env, LogOf(states[0].table, centre)) {
      }
    } else {
      LogsVerifyIff(env, states, steps, n - 1);
      RunKeepsInv(env, states, steps, n - 1);
      if LogsOkUpTo(env, states, n - 1) {
        OneStateMore(env, states, steps, n - 1);
      }
    }
  }

  // ---------- Fresh and stale tails ----------

  /** The hash the append read is still its centre's last, and no larger number was committed. */
  predicate Fresh(log: seq<Entry>, e: Entry) {
    e.prevHash == Tail(log) && Place(log, e) == |log|
  }

  /** A fresh append fits. One that is not fresh fits only if its row hashes to the hash it continues,
      and then the hash is broken. */
  lemma FitsIffFresh(env: Env, log: seq<Entry>, e: Entry)
    requires LogOk(env, log) && Sealed(env, e)
    ensures Fresh(log, e) ==> Fits(log, e)
    ensures Fits(log, e) && !Fresh(log, e) ==>
      EntryHash(env, e.prevHash, e.row) == e.prevHash
      && Chain.Breaks(env.hash, RepeatConflict(env, BySeq(log, e), Place(log, e), Place(log, e) + 1))
  {
    if Fits(log, e) && !Fresh(log, e) {
      JoinsIff(env, log, e);
      BySeqIs(log, e);
      RepeatBreaks(env, BySeq(log, e), Place(log, e), Place(log, e) + 1);
    }
  }

  /** An append that meets no other is fresh. */
  lemma AloneIsFresh(env: Env, s: Audit, tx: nat, row: Row)
    requires StoreKeeps(env) && Inv(env, s) && Enabled(env, s, ReadTail(tx, row)) && Valid(row.details)
    ensures var s2 := Apply(env, Apply(env, s, ReadTail(tx, row)), Insert(tx));
      tx in s2.inserted && Fresh(LogOf(s2.table, row.centre), s2.inserted[tx])
  {
    var log := LogOf(s.table, row.centre);
    LogOfMembers(s.table, row.centre);
    if |log| > 0 {
      var x := log[|log| - 1];
      assert x in s.table;
      var i :| 0 <= i < |s.table| && s.table[i] == x;
    }
  }

  /** Two appends for one centre that read the same tail: the fork. Once both are committed the log
      verifies exactly if the first one hashes to the very tail that both continue. */
  lemma TwoFromOneTail(env: Env, log: seq<Entry>, first: Row, second: Row, k: nat)
    requires StoreKeeps(env) && LogOk(env, log)
    requires Valid(first.details) && env.accepts(first) && Valid(second.details) && env.accepts(second)
    ensures LogOk(env, log + [NewEntry(env, k, first, Tail(log))] + [NewEntry(env, k + 1, second, Tail(log))])
      <==> EntryHash(env, Tail(log), first) == Tail(log)
  {
    var d, e := NewEntry(env, k, first, Tail(log)), NewEntry(env, k + 1, second, Tail(log));
    DigestBefore(env, log, |log|);
    StoredHashesAlike(env, Tail(log), first);
    StoredHashesAlike(env, Tail(log), second);
    AppendIff(env, log, d);
    AppendIff(env, log + [d], e);
  }

  lemma AppendIff(env: Env, log: seq<Entry>, e: Entry)
    requires LogOk(env, log) && Sealed(env, e)
    ensures LogOk(env, log + [e]) <==> e.prevHash == Tail(log)
  {
    PutInto(env, log, e, |log|);
    assert log[..|log|] + [e] + log[|log|..] == log + [e];
  }
}
