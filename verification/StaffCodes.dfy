/** How often a code is used when approval handlers interleave: exactly when one code activates twice,
    exactly when a stale save makes a used code work again, and exactly when a superseded code
    activates. */
module StaffCodes {
  import opened ByteStrings
  import opened OneTimeCode
  import opened StaffRules
  import opened StaffProtocol
  import opened StaffRaces

  // ---------- The ways to go wrong ----------

  /** No two activations used the code of one issue. */
  ghost predicate CodeOnce(uses: seq<Use>) {
    forall u, v :: 0 <= u < v < |uses| ==> uses[u].issue != uses[v].issue
  }

  /** The step commits an open handler, and the database lets it. */
  predicate Commits(s: Racing, step: RaceStep) {
    && step.CommitWork? && step.tx in s.open && s.open[step.tx].record.applicant in s.staff.identities
    && !Blocked(s.staff, s.open[step.tx])
  }

  predicate Activates(s: Racing, step: RaceStep) {
    Commits(s, step) && s.open[step.tx].work.Activating?
  }

  /** An activation commits after another one on the same issue has. */
  ghost predicate Reuses(s: Racing, step: RaceStep) {
    Activates(s, step) && OriginUsed(s.uses, s.open[step.tx].origin)
  }

  /** An activation commits after another one granted on the same issue has committed since its read. */
  ghost predicate Doubles(s: Racing, step: RaceStep) {
    && Activates(s, step) && s.open[step.tx].origin.Some?
    && UsedFrom(s.uses, s.open[step.tx].origin.value, s.open[step.tx].usesThen)
  }

  /** The issue had been used when the record was read. */
  ghost predicate UsedBefore(uses: seq<Use>, origin: Option<nat>, m: nat) {
    origin.Some? && exists u :: 0 <= u < m && u < |uses| && uses[u].issue == origin.value
  }

  /** An activation commits that was granted on a used code. */
  ghost predicate GrantedOnUsed(s: Racing, step: RaceStep) {
    Activates(s, step) && UsedBefore(s.uses, s.open[step.tx].origin, s.open[step.tx].usesThen)
  }

  /** An authorisation of a fingerprint saves, unconsumed, a record whose code has been used. */
  ghost predicate Revives(s: Racing, step: RaceStep) {
    && Commits(s, step) && s.open[step.tx].work.Authorising? && !s.open[step.tx].next.codeConsumed
    && OriginUsed(s.uses, s.open[step.tx].origin)
  }

  /** A handler other than issuing saves a record whose code has been replaced since its read. */
  predicate Overwrites(s: Racing, step: RaceStep) {
    && Commits(s, step) && !s.open[step.tx].work.Issuing?
    && s.open[step.tx].record.id in s.origin && s.origin[s.open[step.tx].record.id] != s.open[step.tx].origin
  }

  /** The record is, at the commit, as the handler read it. */
  predicate Unchanged(s: Racing, step: RaceStep) {
    && step.CommitWork? && step.tx in s.open && s.open[step.tx].record.id in s.staff.approvals
    && s.staff.approvals[s.open[step.tx].record.id] == s.open[step.tx].record
  }

  /** Two issues for one request stored one hash. */
  predicate SameIssuedHash(log: seq<Event>, i: nat, j: nat) {
    && i != j && i < |log| && j < |log| && log[i].Issued? && log[j].Issued?
    && log[i].request == log[j].request && log[i].hash == log[j].hash
  }

  // ---------- Used codes stay consumed ----------

  ghost predicate ConsumedAt(s: Racing, q: Id)
    requires q in s.staff.approvals
  {
    q in s.origin && OriginUsed(s.uses, s.origin[q]) ==> s.staff.approvals[q].codeConsumed
  }

  /** In the table a record whose code was used is consumed. */
  ghost predicate UsedAreConsumed(s: Racing) {
    forall q :: q in s.staff.approvals ==> ConsumedAt(s, q)
  }

  /** A use of another issue changes nothing for this one. */
  lemma OtherUse(uses: seq<Use>, use: Use, origin: Option<nat>)
    requires origin != Some(use.issue)
    ensures OriginUsed(uses + [use], origin) <==> OriginUsed(uses, origin)
  {
    if OriginUsed(uses, origin) {
      var u :| 0 <= u < |uses| && uses[u].issue == origin.value;
      assert (uses + [use])[u] == uses[u];
    }
    if OriginUsed(uses + [use], origin) {
      var u :| 0 <= u < |uses + [use]| && (uses + [use])[u].issue == origin.value;
      assert u < |uses| && uses[u].issue == origin.value;
    }
  }

  /** Issues of different requests are different. */
  lemma OriginsDiffer(s: Racing, o: Open, q: Id)
    requires q in s.staff.approvals && TableAt(s, q) && RecordStems(s, o.record, o.origin) && o.record.id != q
    ensures o.origin.Some? ==> s.origin[q] != o.origin
  {
  }

  lemma NewIssueUnused(c: CodeHash, s: Racing)
    requires UsesAreActivations(c, s)
    ensures !IsUsed(s.uses, |s.staff.log|)
  {
  }

  lemma OthersStayConsumed(c: CodeHash, s: Racing, step: RaceStep, q: Id)
    requires RaceInv(c, s) && Commits(s, step) && q in s.staff.approvals && q != s.open[step.tx].record.id
    ensures ConsumedAt(DoCommit(c, s, step.tx), q) <==> ConsumedAt(s, q)
  {
    var o := s.open[step.tx];
    assert OpenAt(c, s, o) && TableAt(s, q);
    if o.work.Activating? {
      OriginsDiffer(s, o, q);
      OtherUse(s.uses, Use(|s.staff.log|, o.origin.value), s.origin[q]);
    }
  }

  /** The record that is saved is consumed if its code was used, unless the step revives it. */
  lemma SavedConsumed(c: CodeHash, s: Racing, step: RaceStep)
    requires RaceInv(c, s) && Commits(s, step)
    ensures var q := s.open[step.tx].record.id; var s' := DoCommit(c, s, step.tx);
      q in s'.staff.approvals && (ConsumedAt(s', q) <==> !Revives(s, step))
  {
    assert OpenAt(c, s, s.open[step.tx]);
    NewIssueUnused(c, s);
  }

  lemma CommitConsumedIff(c: CodeHash, s: Racing, step: RaceStep)
    requires RaceInv(c, s) && UsedAreConsumed(s) && Commits(s, step)
    ensures UsedAreConsumed(DoCommit(c, s, step.tx)) <==> !Revives(s, step)
  {
    var s' := DoCommit(c, s, step.tx);
    assert OpenAt(c, s, s.open[step.tx]);
    SavedConsumed(c, s, step);
    forall q | q in s'.staff.approvals && q != s.open[step.tx].record.id ensures ConsumedAt(s', q) {
      assert ConsumedAt(s, q);
      OthersStayConsumed(c, s, step, q);
    }
  }

  lemma PlainConsumed(c: CodeHash, s: Racing, p: Step)
    requires UsedAreConsumed(s) && Enabled(s.staff, p) && IsPlain(p)
    ensures UsedAreConsumed(DoPlain(c, s, p))
  {
    var s' := DoPlain(c, s, p);
    PlainStaff(c, s.staff, p);
    forall q | q in s'.staff.approvals ensures ConsumedAt(s', q) {
      assert q in s.staff.approvals ==> ConsumedAt(s, q);
    }
  }

  lemma SameTables(s: Racing, s': Racing)
    requires UsedAreConsumed(s) && s'.staff == s.staff && s'.origin == s.origin && s'.uses == s.uses
    ensures UsedAreConsumed(s')
  {
    forall q | q in s'.staff.approvals ensures ConsumedAt(s', q) {
      assert ConsumedAt(s, q);
    }
  }

  /** A step makes a used code work again exactly if it saves such a stale authorisation. */
  lemma StepConsumedIff(c: CodeHash, s: Racing, step: RaceStep)
    requires RaceInv(c, s) && UsedAreConsumed(s) && RaceEnabled(c, s, step)
    ensures UsedAreConsumed(RaceApply(c, s, step)) <==> !Revives(s, step)
  {
    if step.Plain? {
      PlainConsumed(c, s, step.step);
    } else if Commits(s, step) {
      CommitConsumedIff(c, s, step);
    } else {
      SameTables(s, RaceApply(c, s, step));
    }
  }

  ghost predicate ConsumedUpTo(states: seq<Racing>, n: int) {
    n < |states| && forall m :: 0 <= m <= n ==> UsedAreConsumed(states[m])
  }

  ghost predicate NeverRevives(states: seq<Racing>, steps: seq<RaceStep>, n: int) {
    n <= |steps| < |states| && forall k :: 0 <= k < n ==> !Revives(states[k], steps[k])
  }

  lemma ConsumedNext(c: CodeHash, states: seq<Racing>, steps: seq<RaceStep>, n: nat)
    requires IsRace(c, states, steps) && n < |steps| && RaceInv(c, states[n]) && ConsumedUpTo(states, n)
    ensures ConsumedUpTo(states, n + 1) <==> !Revives(states[n], steps[n])
  {
    RaceNext(c, states, steps, n);
    StepConsumedIff(c, states[n], steps[n]);
    assert ConsumedUpTo(states, n + 1) <==> UsedAreConsumed(states[n + 1]);
  }

  /** In every run used codes stay consumed up to a state exactly if no stale authorisation of a
      fingerprint has saved such a record unconsumed by then. */
  lemma {:induction false} ConsumedIff(c: CodeHash, states: seq<Racing>, steps: seq<RaceStep>, n: nat)
    requires IsRace(c, states, steps) && RaceInit(states[0]) && n <= |steps|
    ensures ConsumedUpTo(states, n) <==> NeverRevives(states, steps, n)
  {
    if n > 0 {
      ConsumedIff(c, states, steps, n - 1);
      RunKeepsRaceInv(c, states, steps, n - 1);
      if ConsumedUpTo(states, n - 1) {
        ConsumedNext(c, states, steps, n - 1);
      }
    }
  }

  // ---------- One code, one activation ----------

  lemma OnceAppend(uses: seq<Use>, use: Use)
    ensures CodeOnce(uses + [use]) <==> CodeOnce(uses) && !IsUsed(uses, use.issue)
  {
    var uses' := uses + [use];
    if CodeOnce(uses') {
      forall u, v | 0 <= u < v < |uses| ensures uses[u].issue != uses[v].issue {
        assert uses'[u] == uses[u] && uses'[v] == uses[v];
      }
      forall u | 0 <= u < |uses| ensures uses[u].issue != use.issue {
        assert uses'[u] == uses[u] && uses'[|uses|] == use;
      }
    }
  }

  lemma StepOnce(c: CodeHash, s: Racing, step: RaceStep)
    requires RaceInv(c, s) && RaceEnabled(c, s, step)
    ensures CodeOnce(RaceApply(c, s, step).uses) <==> CodeOnce(s.uses) && !Reuses(s, step)
  {
    if Activates(s, step) {
      assert OpenAt(c, s, s.open[step.tx]);
      OnceAppend(s.uses, Use(|s.staff.log|, s.open[step.tx].origin.value));
    }
  }

  ghost predicate NeverReuses(states: seq<Racing>, steps: seq<RaceStep>, n: int) {
    n <= |steps| < |states| && forall k :: 0 <= k < n ==> !Reuses(states[k], steps[k])
  }

  lemma OnceNext(c: CodeHash, states: seq<Racing>, steps: seq<RaceStep>, k: nat)
    requires IsRace(c, states, steps) && RaceInit(states[0]) && k < |steps|
    ensures CodeOnce(states[k + 1].uses) <==> CodeOnce(states[k].uses) && !Reuses(states[k], steps[k])
  {
    RunKeepsRaceInv(c, states, steps, k);
    RaceNext(c, states, steps, k);
    StepOnce(c, states[k], steps[k]);
  }

  /** Each issue activates at most once exactly if no activation commits after another one on the same
      issue: the general form, stale authorisations included. */
  lemma {:induction false} CodeOnceAlways(c: CodeHash, states: seq<Racing>, steps: seq<RaceStep>, n: nat)
    requires IsRace(c, states, steps) && RaceInit(states[0]) && n <= |steps|
    ensures CodeOnce(states[n].uses) <==> NeverReuses(states, steps, n)
  {
    if n > 0 {
      CodeOnceAlways(c, states, steps, n - 1);
      OnceNext(c, states, steps, n - 1);
    }
  }

  /** An issue that has been used was so before the handler's read, or since. */
  lemma ReuseIsOld(s: Racing, step: RaceStep)
    ensures Reuses(s, step) <==> Doubles(s, step) || GrantedOnUsed(s, step)
  {
    if Reuses(s, step) {
      var o := s.open[step.tx];
      var u :| 0 <= u < |s.uses| && s.uses[u].issue == o.origin.value;
      assert u >= o.usesThen ==> UsedFrom(s.uses, o.origin.value, o.usesThen);
    }
  }

  /** No open activation was granted on a used code. */
  ghost predicate GrantedUnused(s: Racing) {
    forall tx :: tx in s.open && s.open[tx].work.Activating?
      ==> !UsedBefore(s.uses, s.open[tx].origin, s.open[tx].usesThen)
  }

  lemma BeforeGrows(uses: seq<Use>, uses': seq<Use>, origin: Option<nat>, m: nat)
    requires uses <= uses' && m <= |uses|
    ensures UsedBefore(uses', origin, m) <==> UsedBefore(uses, origin, m)
  {
    if UsedBefore(uses, origin, m) {
      var u :| 0 <= u < m && u < |uses| && uses[u].issue == origin.value;
      assert uses'[u] == uses[u];
    }
    if UsedBefore(uses', origin, m) {
      var u :| 0 <= u < m && u < |uses'| && uses'[u].issue == origin.value;
      assert uses'[u] == uses[u];
    }
  }

  lemma ReadGrantsUnused(c: CodeHash, s: Racing, tx: nat, request: Id, work: Work)
    requires RaceInv(c, s) && UsedAreConsumed(s) && RaceEnabled(c, s, ReadRecord(tx, request, work)) && work.Activating?
    ensures !UsedBefore(s.uses, s.origin[request], |s.uses|)
  {
    assert ConsumedAt(s, request);
  }

  lemma StepGrantsUnused(c: CodeHash, s: Racing, step: RaceStep)
    requires RaceInv(c, s) && UsedAreConsumed(s) && GrantedUnused(s) && RaceEnabled(c, s, step)
    ensures GrantedUnused(RaceApply(c, s, step))
  {
    var s' := RaceApply(c, s, step);
    if step.ReadRecord? && step.work.Activating? {
      ReadGrantsUnused(c, s, step.tx, step.request, step.work);
    }
    forall tx | tx in s'.open && s'.open[tx].work.Activating? && tx in s.open
      ensures !UsedBefore(s'.uses, s'.open[tx].origin, s'.open[tx].usesThen)
    {
      assert OpenAt(c, s, s.open[tx]);
      BeforeGrows(s.uses, s'.uses, s.open[tx].origin, s.open[tx].usesThen);
    }
  }

  lemma {:induction false} RunGrantsUnused(c: CodeHash, states: seq<Racing>, steps: seq<RaceStep>, n: nat)
    requires IsRace(c, states, steps) && RaceInit(states[0]) && n <= |steps| && ConsumedUpTo(states, n)
    ensures GrantedUnused(states[n])
  {
    if n > 0 {
      RunGrantsUnused(c, states, steps, n - 1);
      RunKeepsRaceInv(c, states, steps, n - 1);
      RaceNext(c, states, steps, n - 1);
      StepGrantsUnused(c, states[n - 1], steps[n - 1]);
    }
  }

  ghost predicate NeverDoubles(states: seq<Racing>, steps: seq<RaceStep>, n: int) {
    n <= |steps| < |states| && forall k :: 0 <= k < n ==> !Doubles(states[k], steps[k])
  }

  lemma ReuseIsDouble(c: CodeHash, states: seq<Racing>, steps: seq<RaceStep>, n: nat, k: nat)
    requires IsRace(c, states, steps) && RaceInit(states[0]) && k < n <= |steps| && NeverRevives(states, steps, n)
    ensures Reuses(states[k], steps[k]) <==> Doubles(states[k], steps[k])
  {
    ConsumedIff(c, states, steps, k);
    RunGrantsUnused(c, states, steps, k);
    ReuseIsOld(states[k], steps[k]);
  }

  /** In every run without such stale authorisations each code activates at most once if and only if no
      activation commits after another one granted on the same issue has committed since its read. */
  lemma CodeOnceIff(c: CodeHash, states: seq<Racing>, steps: seq<RaceStep>, n: nat)
    requires IsRace(c, states, steps) && RaceInit(states[0]) && n <= |steps| && NeverRevives(states, steps, n)
    ensures CodeOnce(states[n].uses) <==> NeverDoubles(states, steps, n)
  {
    CodeOnceAlways(c, states, steps, n);
    forall k | 0 <= k < n ensures Reuses(states[k], steps[k]) <==> Doubles(states[k], steps[k]) {
      ReuseIsDouble(c, states, steps, n, k);
    }
  }

  /** And in every run whatever: each code has activated at most once and every used one has stayed
      consumed if and only if no step did either of these things. */
  lemma CodesSafeIff(c: CodeHash, states: seq<Racing>, steps: seq<RaceStep>, n: nat)
    requires IsRace(c, states, steps) && RaceInit(states[0]) && n <= |steps|
    ensures CodeOnce(states[n].uses) && ConsumedUpTo(states, n)
       <==> NeverDoubles(states, steps, n) && NeverRevives(states, steps, n)
  {
    ConsumedIff(c, states, steps, n);
    if NeverRevives(states, steps, n) {
      CodeOnceIff(c, states, steps, n);
    }
  }

  // ---------- The check a handler can make ----------

  /** A commit that finds the record as it was read neither uses a code again nor revives one, unless
      two issues for the request stored one hash. */
  lemma UnchangedIsSafe(c: CodeHash, s: Racing, step: RaceStep)
    requires RaceInv(c, s) && UsedAreConsumed(s) && Unchanged(s, step)
    ensures var o := s.open[step.tx];
      || (!Reuses(s, step) && !Revives(s, step))
      || (o.origin.Some? && s.origin[o.record.id].Some?
          && SameIssuedHash(s.staff.log, o.origin.value, s.origin[o.record.id].value))
  {
    var o := s.open[step.tx];
    assert OpenAt(c, s, o) && TableAt(s, o.record.id) && ConsumedAt(s, o.record.id);
  }

  ghost predicate AllUnchanged(states: seq<Racing>, steps: seq<RaceStep>, n: int) {
    n <= |steps| < |states| && forall k :: 0 <= k < n && steps[k].CommitWork? ==> Unchanged(states[k], steps[k])
  }

  ghost predicate HashesDiffer(log: seq<Event>) {
    forall i: nat, j: nat :: !SameIssuedHash(log, i, j)
  }

  lemma DifferBefore(log: seq<Event>, log': seq<Event>)
    requires log <= log' && HashesDiffer(log')
    ensures HashesDiffer(log)
  {
    forall i: nat, j: nat ensures !SameIssuedHash(log, i, j) {
      assert !SameIssuedHash(log', i, j);
    }
  }

  lemma StepGrows(c: CodeHash, s: Racing, step: RaceStep)
    requires RaceInv(c, s) && RaceEnabled(c, s, step)
    ensures s.staff.log <= RaceApply(c, s, step).staff.log
  {
    if step.Plain? {
      PlainStaff(c, s.staff, step.step);
    } else if step.CommitWork? {
      CommitGrows(c, s, step.tx);
    }
  }

  /** Reading the record again in the transaction, and giving up if it has changed, is enough: then each
      code activates at most once and no used code works again. */
  lemma {:induction false} RereadingIsEnough(c: CodeHash, states: seq<Racing>, steps: seq<RaceStep>, n: nat)
    requires IsRace(c, states, steps) && RaceInit(states[0]) && n <= |steps| && AllUnchanged(states, steps, n)
    requires HashesDiffer(states[n].staff.log)
    ensures CodeOnce(states[n].uses) && UsedAreConsumed(states[n])
  {
    if n > 0 {
      RunKeepsRaceInv(c, states, steps, n - 1);
      RaceNext(c, states, steps, n - 1);
      StepGrows(c, states[n - 1], steps[n - 1]);
      DifferBefore(states[n - 1].staff.log, states[n].staff.log);
      RereadingIsEnough(c, states, steps, n - 1);
      UnchangedStep(c, states[n - 1], steps[n - 1]);
    }
  }

  lemma UnchangedStep(c: CodeHash, s: Racing, step: RaceStep)
    requires RaceInv(c, s) && UsedAreConsumed(s) && CodeOnce(s.uses) && RaceEnabled(c, s, step)
    requires HashesDiffer(s.staff.log) && (step.CommitWork? ==> Unchanged(s, step))
    ensures CodeOnce(RaceApply(c, s, step).uses) && UsedAreConsumed(RaceApply(c, s, step))
  {
    if step.CommitWork? {
      UnchangedIsSafe(c, s, step);
    }
    StepOnce(c, s, step);
    StepConsumedIff(c, s, step);
  }

  // ---------- Superseded codes ----------

  /** The place of the last issue for the request. */
  function LastIssue(log: seq<Event>, q: Id): Option<nat> {
    if |log| == 0 then None
    else
      var n := |log| - 1;
      if log[n].Issued? && log[n].request == q then Some(n) else LastIssue(log[..n], q)
  }

  lemma LastIssueAppend(log: seq<Event>, e: Event, q: Id)
    ensures LastIssue(log + [e], q) == if e.Issued? && e.request == q then Some(|log|) else LastIssue(log, q)
  {
    assert (log + [e])[..|log|] == log;
  }

  ghost predicate CurrentAt(s: Racing, q: Id) {
    q in s.origin && s.origin[q] == LastIssue(s.staff.log, q)
  }

  /** Every request's stored code is the one issued last for it. */
  ghost predicate Current(s: Racing) {
    forall q :: q in s.staff.approvals ==> CurrentAt(s, q)
  }

  /** Requests in the log are in the table. */
  ghost predicate LogKnown(s: Staff) {
    forall k :: 0 <= k < |s.log| && s.log[k].Issued? ==> s.log[k].request in s.approvals
  }

  lemma {:induction false} NeverIssued(log: seq<Event>, q: Id)
    requires forall k :: 0 <= k < |log| && log[k].Issued? ==> log[k].request != q
    ensures LastIssue(log, q) == None
  {
    if |log| > 0 {
      NeverIssued(log[..|log| - 1], q);
    }
  }

  lemma StepKnown(c: CodeHash, s: Racing, step: RaceStep)
    requires RaceInv(c, s) && LogKnown(s.staff) && RaceEnabled(c, s, step)
    ensures LogKnown(RaceApply(c, s, step).staff)
  {
    if step.CommitWork? {
      assert OpenAt(c, s, s.open[step.tx]);
    }
  }

  lemma PlainCurrent(c: CodeHash, s: Racing, p: Step)
    requires Current(s) && LogKnown(s.staff) && Enabled(s.staff, p) && IsPlain(p)
    ensures Current(DoPlain(c, s, p))
  {
    var s' := DoPlain(c, s, p);
    forall q | q in s'.staff.approvals ensures CurrentAt(s', q) {
      if q in s.staff.approvals {
        assert CurrentAt(s, q);
      } else {
        NeverIssued(s.staff.log, q);
      }
      if s'.staff.log != s.staff.log {
        LastIssueAppend(s.staff.log, s'.staff.log[|s.staff.log|], q);
      }
    }
  }

  lemma CommitCurrentIff(c: CodeHash, s: Racing, step: RaceStep)
    requires RaceInv(c, s) && Current(s) && Commits(s, step)
    ensures Current(DoCommit(c, s, step.tx)) <==> !Overwrites(s, step)
  {
    var o, s' := s.open[step.tx], DoCommit(c, s, step.tx);
    var e := EventOf(c, s.staff, o);
    assert OpenAt(c, s, o) && CurrentAt(s, o.record.id);
    LastIssueAppend(s.staff.log, e, o.record.id);
    assert CurrentAt(s', o.record.id) <==> !Overwrites(s, step);
    forall q | q in s'.staff.approvals && q != o.record.id ensures CurrentAt(s', q) {
      assert CurrentAt(s, q);
      LastIssueAppend(s.staff.log, e, q);
    }
  }

  lemma StepCurrentIff(c: CodeHash, s: Racing, step: RaceStep)
    requires RaceInv(c, s) && Current(s) && LogKnown(s.staff) && RaceEnabled(c, s, step)
    ensures Current(RaceApply(c, s, step)) <==> !Overwrites(s, step)
  {
    if step.Plain? {
      PlainCurrent(c, s, step.step);
    } else if Commits(s, step) {
      CommitCurrentIff(c, s, step);
    } else {
      forall q | q in s.staff.approvals ensures CurrentAt(RaceApply(c, s, step), q) {
        assert CurrentAt(s, q);
      }
    }
  }

  ghost predicate CurrentUpTo(states: seq<Racing>, n: int) {
    n < |states| && forall m :: 0 <= m <= n ==> Current(states[m])
  }

  ghost predicate NeverOverwrites(states: seq<Racing>, steps: seq<RaceStep>, n: int) {
    n <= |steps| < |states| && forall k :: 0 <= k < n ==> !Overwrites(states[k], steps[k])
  }

  lemma {:induction false} RunKnown(c: CodeHash, states: seq<Racing>, steps: seq<RaceStep>, n: nat)
    requires IsRace(c, states, steps) && RaceInit(states[0]) && n <= |steps|
    ensures LogKnown(states[n].staff)
  {
    if n > 0 {
      RunKnown(c, states, steps, n - 1);
      RunKeepsRaceInv(c, states, steps, n - 1);
      RaceNext(c, states, steps, n - 1);
      StepKnown(c, states[n - 1], steps[n - 1]);
    }
  }

  lemma CurrentNext(c: CodeHash, states: seq<Racing>, steps: seq<RaceStep>, n: nat)
    requires IsRace(c, states, steps) && n < |steps| && RaceInv(c, states[n]) && LogKnown(states[n].staff)
    requires CurrentUpTo(states, n)
    ensures CurrentUpTo(states, n + 1) <==> !Overwrites(states[n], steps[n])
  {
    RaceNext(c, states, steps, n);
    StepCurrentIff(c, states[n], steps[n]);
    assert CurrentUpTo(states, n + 1) <==> Current(states[n + 1]);
  }

  /** In every run the stored codes are the ones issued last, in all states up to `n`, if and only if until
      then neither an activation nor an authorisation saved a record whose code had been replaced
      since its read. */
  lemma {:induction false} CurrentIff(c: CodeHash, states: seq<Racing>, steps: seq<RaceStep>, n: nat)
    requires IsRace(c, states, steps) && RaceInit(states[0]) && n <= |steps|
    ensures CurrentUpTo(states, n) <==> NeverOverwrites(states, steps, n)
  {
    if n > 0 {
      CurrentIff(c, states, steps, n - 1);
      RunKeepsRaceInv(c, states, steps, n - 1);
      RunKnown(c, states, steps, n - 1);
      if CurrentUpTo(states, n - 1) {
        CurrentNext(c, states, steps, n - 1);
      }
    }
  }

  /** And as long as that is so, what activates verifies against the hash issued last. */
  lemma LateTextIsCurrent(c: CodeHash, states: seq<Racing>, steps: seq<RaceStep>, n: nat)
    requires IsRace(c, states, steps) && RaceInit(states[0]) && n < |steps| && NeverOverwrites(states, steps, n + 1)
    requires Activates(states[n], steps[n])
    ensures var s, o := states[n], states[n].open[steps[n].tx]; var i := LastIssue(s.staff.log, o.record.id);
      && i.Some? && i.value < |s.staff.log| && s.staff.log[i.value].Issued?
      && c.verify(Normalize(o.work.typed), s.staff.log[i.value].hash) && o.work.matched
  {
    var s, o := states[n], states[n].open[steps[n].tx];
    CurrentIff(c, states, steps, n);
    RunKeepsRaceInv(c, states, steps, n);
    assert OpenAt(c, s, o) && CurrentAt(s, o.record.id);
    assert !Overwrites(s, steps[n]);
  }

  // ---------- Both together ----------

  /** An activation commits on a record that is consumed by then. */
  predicate FindsConsumed(s: Racing, step: RaceStep) {
    && Activates(s, step) && s.open[step.tx].record.id in s.staff.approvals
    && s.staff.approvals[s.open[step.tx].record.id].codeConsumed
  }

  ghost predicate NeverFindsConsumed(states: seq<Racing>, steps: seq<RaceStep>, n: int) {
    n <= |steps| < |states| && forall k :: 0 <= k < n ==> !FindsConsumed(states[k], steps[k])
  }

  lemma ReuseShows(c: CodeHash, s: Racing, step: RaceStep)
    requires RaceInv(c, s) && UsedAreConsumed(s) && !Overwrites(s, step)
    ensures Reuses(s, step) <==> FindsConsumed(s, step)
  {
    if Activates(s, step) {
      var o := s.open[step.tx];
      assert OpenAt(c, s, o) && TableAt(s, o.record.id) && ConsumedAt(s, o.record.id);
    }
  }

  /** As long as codes are neither revived nor overwritten, each one activates at most once exactly if no
      activation commits on a record that is consumed by then. */
  lemma CodeOnceIffUnconsumed(c: CodeHash, states: seq<Racing>, steps: seq<RaceStep>, n: nat)
    requires IsRace(c, states, steps) && RaceInit(states[0]) && n <= |steps|
    requires NeverRevives(states, steps, n) && NeverOverwrites(states, steps, n)
    ensures CodeOnce(states[n].uses) <==> NeverFindsConsumed(states, steps, n)
  {
    CodeOnceAlways(c, states, steps, n);
    ConsumedIff(c, states, steps, n);
    forall k | 0 <= k < n ensures Reuses(states[k], steps[k]) <==> FindsConsumed(states[k], steps[k]) {
      RunKeepsRaceInv(c, states, steps, k);
      ReuseShows(c, states[k], steps[k]);
    }
  }

  // ---------- Runs in which one code activates twice ----------

  /** A run ends in this state. */
  ghost predicate Reaches(c: CodeHash, states: seq<Racing>, steps: seq<RaceStep>, s: Racing) {
    IsRace(c, states, steps) && RaceInit(states[0]) && states[|steps|] == s && RaceInv(c, s)
  }

  /** The run goes on with this step. */
  ghost predicate GoesOn(states: seq<Racing>, steps: seq<RaceStep>, states': seq<Racing>, steps': seq<RaceStep>,
                         step: RaceStep) {
    states <= states' && steps' == steps + [step]
  }

  lemma Extend(c: CodeHash, states: seq<Racing>, steps: seq<RaceStep>, s: Racing, step: RaceStep)
    returns (states': seq<Racing>, steps': seq<RaceStep>, s': Racing)
    requires Reaches(c, states, steps, s) && RaceEnabled(c, s, step)
    ensures Reaches(c, states', steps', s') && GoesOn(states, steps, states', steps', step)
      && s' == RaceApply(c, s, step)
  {
    s' := RaceApply(c, s, step);
    states', steps' := states + [s'], steps + [step];
    RaceKeepsInv(c, s, step);
    forall i | 0 <= i < |steps'|
      ensures RaceEnabled(c, states'[i], steps'[i]) && states'[i + 1] == RaceApply(c, states'[i], steps'[i])
    {
      if i < |steps| {
        RaceNext(c, states, steps, i);
      }
    }
  }

  /** What a later run says about an earlier state. */
  lemma Before(c: CodeHash, states: seq<Racing>, steps: seq<RaceStep>, s: Racing, states': seq<Racing>,
               steps': seq<RaceStep>, step: RaceStep)
    requires Reaches(c, states, steps, s) && GoesOn(states, steps, states', steps', step)
    ensures |steps'| == |steps| + 1 && states'[|steps|] == s && steps'[|steps|] == step
  {
  }

  /** Two versions of one request. */
  predicate SameRequest(r: ApprovalRecord, r': ApprovalRecord) {
    r.id == r'.id && r.kind == r'.kind && r.applicant == r'.applicant && r.centre == r'.centre
  }

  /** The request is open to this approver, and nobody stands in the applicant's way. */
  ghost predicate Approvable(s: Racing, q: Id, t: Session) {
    && q in s.staff.approvals && q in s.origin && s.staff.approvals[q].id == q && MayApprove(s.staff, t, q, true)
    && s.staff.approvals[q].applicant in s.staff.identities
    && forall o :: o in s.staff.identities && s.staff.identities[o].role == CentreAdmin
         ==> o == s.staff.approvals[q].applicant
  }

  lemma ReadNow(c: CodeHash, states: seq<Racing>, steps: seq<RaceStep>, s: Racing, tx: nat, q: Id, work: Work,
                t: Session)
    returns (states': seq<Racing>, steps': seq<RaceStep>, s': Racing)
    requires Reaches(c, states, steps, s) && tx !in s.open && Approvable(s, q, t) && MayBegin(c, s.staff, q, work)
    ensures Reaches(c, states', steps', s') && GoesOn(states, steps, states', steps', ReadRecord(tx, q, work))
    ensures s'.staff == s.staff && s'.origin == s.origin && s'.uses == s.uses && Approvable(s', q, t)
    ensures var r := s.staff.approvals[q];
      s'.open == s.open[tx := Open(r, Planned(c, r, work, s.staff.clock), work, s.origin[q], |s.uses|)]
  {
    states', steps', s' := Extend(c, states, steps, s, ReadRecord(tx, q, work));
  }

  /** The handler `tx` is about to save the request. */
  ghost predicate Waits(s: Racing, tx: nat, q: Id) {
    && tx in s.open && q in s.staff.approvals && s.open[tx].record.id == q
    && SameRequest(s.open[tx].record, s.staff.approvals[q]) && SameRequest(s.open[tx].next, s.staff.approvals[q])
  }

  lemma CommitState(c: CodeHash, s: Racing, tx: nat, q: Id, t: Session)
    requires Approvable(s, q, t) && Waits(s, tx, q)
    ensures Commits(s, CommitWork(tx)) && RaceEnabled(c, s, CommitWork(tx))
    ensures var s' := DoCommit(c, s, tx);
      && Approvable(s', q, t) && s'.open == s.open - {tx} && s'.uses == UsesAfter(s, s.open[tx])
      && s'.staff.clock == s.staff.clock && s'.staff.approvals[q] == s.open[tx].next
      && s'.origin[q] == OriginAfter(s, s.open[tx])
  {
  }

  lemma CommitNow(c: CodeHash, states: seq<Racing>, steps: seq<RaceStep>, s: Racing, tx: nat, q: Id, t: Session)
    returns (states': seq<Racing>, steps': seq<RaceStep>, s': Racing)
    requires Reaches(c, states, steps, s) && Approvable(s, q, t) && Waits(s, tx, q)
    ensures Commits(s, CommitWork(tx))
    ensures Reaches(c, states', steps', s') && GoesOn(states, steps, states', steps', CommitWork(tx))
    ensures Approvable(s', q, t) && s'.open == s.open - {tx} && s'.uses == UsesAfter(s, s.open[tx])
    ensures s'.staff.clock == s.staff.clock && s'.staff.approvals[q] == s.open[tx].next
    ensures s'.origin[q] == OriginAfter(s, s.open[tx])
  {
    CommitState(c, s, tx, q, t);
    states', steps', s' := Extend(c, states, steps, s, CommitWork(tx));
  }

  /** What the commit of an uninterrupted handler does to the codes. */
  ghost predicate Moves(s: Racing, s': Racing, q: Id, work: Work)
    requires q in s.origin && q in s'.origin
  {
    match work
    case Issuing(_, _, _, _) => s'.uses == s.uses && s'.origin[q].Some? && s'.origin[q] != s.origin[q]
    case Authorising(_, _) => s'.uses == s.uses && s'.origin[q] == s.origin[q]
    case Activating(_, _) =>
      && s'.origin[q] == s.origin[q]
      && (s.uses == [] && s.origin[q].Some? ==> |s'.uses| == 1 && s'.uses[0].issue == s.origin[q].value)
  }

  lemma ReadWaits(c: CodeHash, s: Racing, tx: nat, q: Id, work: Work, origin: Option<nat>)
    requires q in s.staff.approvals && s.staff.approvals[q].id == q && tx in s.open
    requires var r := s.staff.approvals[q];
      s.open[tx] == Open(r, Planned(c, r, work, s.staff.clock), work, origin, |s.uses|)
    ensures Waits(s, tx, q)
  {
  }

  lemma MovesOn(s: Racing, s1: Racing, s': Racing, o: Open, q: Id)
    requires q in s.staff.approvals && TableAt(s, q) && q in s'.origin && o.origin == s.origin[q]
    requires s1.staff == s.staff && s1.uses == s.uses
    requires s'.uses == UsesAfter(s1, o) && s'.origin[q] == OriginAfter(s1, o)
    ensures Moves(s, s', q, o.work)
  {
  }

  lemma TableHas(c: CodeHash, s: Racing, q: Id)
    requires RaceInv(c, s) && q in s.staff.approvals
    ensures TableAt(s, q)
  {
  }

  lemma OpenAgain(open: map<nat, Open>, tx: nat, o: Open)
    requires tx !in open
    ensures open[tx := o] - {tx} == open
  {
  }

  /** A handler that nothing interrupts, from its read to its commit. */
  lemma Uninterrupted(c: CodeHash, states: seq<Racing>, steps: seq<RaceStep>, s: Racing, tx: nat, q: Id, work: Work,
                      t: Session)
    returns (states': seq<Racing>, steps': seq<RaceStep>, s': Racing)
    requires Reaches(c, states, steps, s) && tx !in s.open && Approvable(s, q, t) && MayBegin(c, s.staff, q, work)
    ensures Reaches(c, states', steps', s') && states <= states' && steps <= steps' && |steps'| == |steps| + 2
    ensures Approvable(s', q, t) && s'.open == s.open && s'.staff.clock == s.staff.clock
    ensures s'.staff.approvals[q] == Planned(c, s.staff.approvals[q], work, s.staff.clock) && Moves(s, s', q, work)
  {
    var s1;
    states', steps', s1 := ReadNow(c, states, steps, s, tx, q, work, t);
    ReadWaits(c, s1, tx, q, work, s.origin[q]);
    states', steps', s' := CommitNow(c, states', steps', s1, tx, q, t);
    OpenAgain(s.open, tx, s1.open[tx]);
    TableHas(c, s, q);
    MovesOn(s, s1, s', s1.open[tx], q);
  }

  // ---------- Registered, logged in, code issued, fingerprint authorised ----------

  const ROOT: Identity := Identity(SystemAdmin, None, Active, Some("10.0.0.1"), Some("station"), 0, None)

  /** Before the run: one System Admin, provisioned. */
  function Provisioned(): Racing {
    Racing(Staff(map["root" := ROOT], map[], {}, 0, []), map[], map[], [])
  }

  const PASSING: Factors := Factors(1.0, 1.0, "10.0.0.1", true, 0)

  const REGISTRATION: RaceStep := Plain(Register(CentreAdminRegistration, "applicant", "request", "centre", None, None))

  const ROOT_LOGIN: RaceStep := Plain(Login(SystemAdmin, "station", "root", PASSING))

  lemma RegisterAndLogin(c: CodeHash)
    returns (states: seq<Racing>, steps: seq<RaceStep>, s: Racing, q: Id, t: Session)
    ensures Reaches(c, states, steps, s) && |steps| == 2
    ensures Approvable(s, q, t) && s.uses == [] && s.open == map[] && s.origin[q] == None
  {
    var s0 := Provisioned();
    var s1;
    states, steps := [s0], [];
    assert Reaches(c, states, steps, s0);
    states, steps, s1 := Extend(c, states, steps, s0, REGISTRATION);
    assert LoginSucceeds(s1.staff, SystemAdmin, "station", "root", PASSING);
    q, t := "request", SessionFor(s1.staff, SystemAdmin, "station", "root");
    states, steps, s := Extend(c, states, steps, s1, ROOT_LOGIN);
  }

  /** The code typed would activate now, and has not been used. */
  ghost predicate Ready(c: CodeHash, s: Racing, q: Id, t: Session, typed: string) {
    && Approvable(s, q, t) && MayBegin(c, s.staff, q, Activating(typed, true)) && s.uses == [] && s.open == map[]
    && s.origin[q].Some?
  }

  lemma ReachReady(c: CodeHash, code: string, salt: Bytes)
    returns (states: seq<Racing>, steps: seq<RaceStep>, s: Racing, q: Id, t: Session)
    requires LawfulCodes(c)
    ensures Reaches(c, states, steps, s) && |steps| == 6 && Ready(c, s, q, t, code)
  {
    states, steps, s, q, t := RegisterAndLogin(c);
    states, steps, s := Uninterrupted(c, states, steps, s, 0, q, Issuing(t, true, code, salt), t);
    states, steps, s := Uninterrupted(c, states, steps, s, 0, q, Authorising(t, true), t);
    assert c.verify(Normalize(code), c.hash(Normalize(code), salt));
  }

  lemma SameIssueTwice(uses: seq<Use>, i: nat)
    requires |uses| == 2 && uses[0].issue == i && uses[1].issue == i
    ensures !CodeOnce(uses)
  {
  }

  // ---------- Two activations granted on one code ----------

  /** What an open activation granted on this code looks like. */
  ghost predicate Pending(c: CodeHash, s: Racing, tx: nat, q: Id, i: nat) {
    && Waits(s, tx, q) && s.open[tx].origin == Some(i) && s.open[tx].work.Activating?
  }

  lemma BothRead(c: CodeHash, states: seq<Racing>, steps: seq<RaceStep>, s: Racing, q: Id, t: Session, typed: string)
    returns (states': seq<Racing>, steps': seq<RaceStep>, s': Racing, i: nat)
    requires Reaches(c, states, steps, s) && Ready(c, s, q, t, typed)
    ensures Reaches(c, states', steps', s') && |steps'| == |steps| + 2
    ensures Approvable(s', q, t) && s'.origin[q] == Some(i) && s'.uses == [] && s'.open.Keys == {1, 2}
    ensures Pending(c, s', 1, q, i) && Pending(c, s', 2, q, i)
  {
    var act := Activating(typed, true);
    var s1;
    i := s.origin[q].value;
    states', steps', s1 := ReadNow(c, states, steps, s, 1, q, act, t);
    states', steps', s' := ReadNow(c, states', steps', s1, 2, q, act, t);
    ReadWaits(c, s', 1, q, act, s.origin[q]);
    ReadWaits(c, s', 2, q, act, s.origin[q]);
  }

  /** Both have read the record, and the first has committed. */
  lemma FirstCommit(c: CodeHash, states: seq<Racing>, steps: seq<RaceStep>, s: Racing, q: Id, t: Session, typed: string)
    returns (states': seq<Racing>, steps': seq<RaceStep>, s': Racing, i: nat)
    requires Reaches(c, states, steps, s) && Ready(c, s, q, t, typed)
    ensures Reaches(c, states', steps', s') && |steps'| == |steps| + 3
    ensures Approvable(s', q, t) && s'.origin[q] == Some(i) && s'.open.Keys == {2} && Pending(c, s', 2, q, i)
    ensures |s'.uses| == 1 && s'.uses[0].issue == i
  {
    var s1;
    states', steps', s1, i := BothRead(c, states, steps, s, q, t, typed);
    states', steps', s' := CommitNow(c, states', steps', s1, 1, q, t);
  }

  /** One code activates twice, with another one issued in between: at the second commit the record is
      not consumed, so looking at that alone would not stop it. */
  lemma OneCodeTwice(c: CodeHash, code: string, salt: Bytes, code': string, salt': Bytes)
    returns (states: seq<Racing>, steps: seq<RaceStep>)
    requires LawfulCodes(c)
    ensures IsRace(c, states, steps) && RaceInit(states[0]) && |steps| == 12
    ensures Activates(states[11], steps[11]) && !FindsConsumed(states[11], steps[11])
      && Overwrites(states[11], steps[11])
    ensures !CodeOnce(states[12].uses)
  {
    var s, q, t, i;
    states, steps, s, q, t := ReachReady(c, code, salt);
    states, steps, s, i := FirstCommit(c, states, steps, s, q, t, code);
    states, steps, s := Uninterrupted(c, states, steps, s, 0, q, Issuing(t, true, code', salt'), t);
    var states', steps', s' := CommitNow(c, states, steps, s, 2, q, t);
    Before(c, states, steps, s, states', steps', CommitWork(2));
    SameIssueTwice(s'.uses, i);
    states, steps := states', steps';
  }

  // ---------- A stale authorisation revives a used code ----------

  /** The authorisation has read, and the activation has run. */
  lemma Overtaken(c: CodeHash, states: seq<Racing>, steps: seq<RaceStep>, s: Racing, q: Id, t: Session, typed: string)
    returns (states': seq<Racing>, steps': seq<RaceStep>, s': Racing, i: nat)
    requires Reaches(c, states, steps, s) && Ready(c, s, q, t, typed)
    ensures Reaches(c, states', steps', s') && |steps'| == |steps| + 3
    ensures Approvable(s', q, t) && s'.origin[q] == Some(i) && s'.open.Keys == {0} && Waits(s', 0, q)
    ensures |s'.uses| == 1 && s'.uses[0].issue == i && s'.open[0].origin == Some(i) && s'.open[0].work.Authorising?
    ensures !s'.open[0].next.codeConsumed && Activate(c, s'.open[0].next, typed, true, s'.staff.clock).Granted?
  {
    var s1;
    i := s.origin[q].value;
    states', steps', s1 := ReadNow(c, states, steps, s, 0, q, Authorising(t, true), t);
    ReadWaits(c, s1, 0, q, Authorising(t, true), s.origin[q]);
    states', steps', s' := Uninterrupted(c, states', steps', s1, 1, q, Activating(typed, true), t);
  }

  /** The authorisation reads, the activation runs, the authorisation commits. */
  lemma Revive(c: CodeHash, states: seq<Racing>, steps: seq<RaceStep>, s: Racing, q: Id, t: Session, typed: string)
    returns (states': seq<Racing>, steps': seq<RaceStep>, s': Racing, i: nat)
    requires Reaches(c, states, steps, s) && Ready(c, s, q, t, typed)
    ensures Reaches(c, states', steps', s') && |steps'| == |steps| + 4
    ensures Revives(states'[|steps| + 3], steps'[|steps| + 3])
    ensures Approvable(s', q, t) && s'.origin[q] == Some(i) && s'.open == map[]
    ensures |s'.uses| == 1 && s'.uses[0].issue == i && MayBegin(c, s'.staff, q, Activating(typed, true))
  {
    var states1, steps1, s1;
    states1, steps1, s1, i := Overtaken(c, states, steps, s, q, t, typed);
    states', steps', s' := CommitNow(c, states1, steps1, s1, 0, q, t);
    Before(c, states1, steps1, s1, states', steps', CommitWork(0));
  }

  /** The used code activates once more, with no two activations open at one time. */
  lemma RevivedCode(c: CodeHash, code: string, salt: Bytes) returns (states: seq<Racing>, steps: seq<RaceStep>)
    requires LawfulCodes(c)
    ensures IsRace(c, states, steps) && RaceInit(states[0]) && |steps| == 12
    ensures Revives(states[9], steps[9]) && Activates(states[11], steps[11]) && !Doubles(states[11], steps[11])
    ensures !CodeOnce(states[12].uses)
  {
    var s, q, t, i;
    states, steps, s, q, t := ReachReady(c, code, salt);
    states, steps, s, i := Revive(c, states, steps, s, q, t, code);
    var states1, steps1, s1 := ReadNow(c, states, steps, s, 1, q, Activating(code, true), t);
    ReadWaits(c, s1, 1, q, Activating(code, true), Some(i));
    var states2, steps2, s2 := CommitNow(c, states1, steps1, s1, 1, q, t);
    Before(c, states1, steps1, s1, states2, steps2, CommitWork(1));
    SameIssueTwice(s2.uses, i);
    states, steps := states2, steps2;
  }
}
