/** The rules of staff admission, without a database: who may approve whom, the life of a one-time
    code, and the match-all rule of a privileged login. */
module StaffRules {
  import opened ByteStrings
  import opened OneTimeCode

  type Id = string

  datatype Role = SystemAdmin | CentreAdmin | Invigilator

  datatype Kind = InvigilatorRegistration | CentreAdminRegistration

  datatype Status = PendingApproval | Active | Suspended | Revoked

  datatype ApprovalRecord = ApprovalRecord(
    id: Id, kind: Kind, applicant: Id, centre: Option<Id>,
    codeHash: Option<Bytes>, codeTtl: Option<int>, codeConsumed: bool,
    fingerprintAuthorised: bool, status: Status)

  /** Argon2id: the salted hash of a normalised code, and its verification. */
  datatype CodeHash = CodeHash(hash: (string, Bytes) -> Bytes, verify: (string, Bytes) -> bool)

  ghost predicate LawfulCodes(c: CodeHash) {
    forall text, salt :: c.verify(text, c.hash(text, salt))
  }

  const CODE_TTL_MS: int := 10 * 60 * 1000

  /** `canApprove`: no tier admits itself, and a Centre Admin admits only into its own centre. */
  predicate CanApprove(approver: Role, kind: Kind, approverCentre: Option<Id>, requestCentre: Option<Id>) {
    match kind
    case CentreAdminRegistration => approver == SystemAdmin
    case InvigilatorRegistration => approver == CentreAdmin && approverCentre.Some? && approverCentre == requestCentre
  }

  /** `issueCode`: a new hash, a fresh time to live, not consumed. */
  function IssueCode(c: CodeHash, record: ApprovalRecord, code: string, salt: Bytes, now: int): ApprovalRecord {
    record.(codeHash := Some(c.hash(Normalize(code), salt)), codeTtl := Some(now + CODE_TTL_MS), codeConsumed := false)
  }

  function AuthoriseFingerprint(record: ApprovalRecord): ApprovalRecord {
    record.(fingerprintAuthorised := true)
  }

  datatype Denial =
    | NoCodeIssued | CodeConsumed | CodeExpired | CodeInvalid | FingerprintNotAuthorised | FingerprintMismatch

  datatype ActivateResult = Granted(record: ApprovalRecord) | Denied(reason: Denial)

  /** `activate`: the clauses in order; success consumes the code. */
  function Activate(c: CodeHash, record: ApprovalRecord, submitted: string, fingerprintMatches: bool,
                    now: int): ActivateResult {
    if record.codeHash.None? || record.codeTtl.None? then Denied(NoCodeIssued)
    else if record.codeConsumed then Denied(CodeConsumed)
    else if now > record.codeTtl.value then Denied(CodeExpired)
    else if !c.verify(Normalize(submitted), record.codeHash.value) then Denied(CodeInvalid)
    else if !record.fingerprintAuthorised then Denied(FingerprintNotAuthorised)
    else if !fingerprintMatches then Denied(FingerprintMismatch)
    else Granted(record.(codeConsumed := true, status := Active))
  }

  /** A code works once: typed back in any grouping, case or look-alike spelling within its time,
      after the fingerprint was authorised; and the record it leaves refuses every further try,
      until a new code is issued. */
  lemma CodeWorksOnce(c: CodeHash, record: ApprovalRecord, code: string, salt: Bytes, issued: int, typed: string,
                      now: int, again: string, later: int, fingerprintMatches: bool)
    requires LawfulCodes(c) && record.fingerprintAuthorised
    requires Normalize(typed) == Normalize(code) && now <= issued + CODE_TTL_MS
    ensures var r := Activate(c, IssueCode(c, record, code, salt, issued), typed, true, now);
      r.Granted? && r.record.status == Active
      && Activate(c, r.record, again, fingerprintMatches, later) == Denied(CodeConsumed)
  {
    assert c.verify(Normalize(code), c.hash(Normalize(code), salt));
  }

  /** What `generateCode` prints is accepted in time as typed in any of its spellings, small letters,
      look-alikes and separators included; and nothing else is, if the hash verifies its own text alone. */
  lemma GeneratedCodeAccepted(c: CodeHash, record: ApprovalRecord, bytes: Bytes, salt: Bytes, issued: int,
                              typed: string, now: int)
    requires LawfulCodes(c) && record.fingerprintAuthorised && now <= issued + 600000
    ensures var symbols := Symbols(EncodeDigits(bytes));
      var r := Activate(c, IssueCode(c, record, Grouped(symbols), salt, issued), typed, true, now);
      && (Spells(typed, symbols) ==> r.Granted?)
      && (r.Granted? && (c.verify(Normalize(typed), c.hash(symbols, salt)) ==> Normalize(typed) == symbols)
          ==> Spells(typed, symbols))
  {
    var symbols := Symbols(EncodeDigits(bytes));
    NormalizeGrouped(EncodeDigits(bytes));
    NormalizeIffSpells(typed, symbols);
    assert c.verify(symbols, c.hash(symbols, salt));
  }

  /** When each answer is given: the first clause that does not hold names the denial. */
  lemma ActivateExactly(c: CodeHash, record: ApprovalRecord, submitted: string, matches: bool, now: int)
    ensures var issued := record.codeHash.Some? && record.codeTtl.Some?;
      var live := issued && !record.codeConsumed && now <= record.codeTtl.value;
      var right := live && c.verify(Normalize(submitted), record.codeHash.value);
      var r := Activate(c, record, submitted, matches, now);
      && (r == Denied(NoCodeIssued) <==> !issued)
      && (r == Denied(CodeConsumed) <==> issued && record.codeConsumed)
      && (r == Denied(CodeExpired) <==> issued && !record.codeConsumed && now > record.codeTtl.value)
      && (r == Denied(CodeInvalid) <==> live && !right)
      && (r == Denied(FingerprintNotAuthorised) <==> right && !record.fingerprintAuthorised)
      && (r == Denied(FingerprintMismatch) <==> right && record.fingerprintAuthorised && !matches)
      && (r.Granted? <==> right && record.fingerprintAuthorised && matches)
      && (r.Granted? ==> r.record == record.(codeConsumed := true, status := Active))
  {
  }

  // ---------- Match-all ----------

  datatype Factors = Factors(faceScore: real, fpScore: real, sourceIp: string, tpmValid: bool, elapsedMs: int)

  datatype Facts = Facts(boundIp: Option<string>, status: Status, revoked: bool)

  datatype Failure =
    | FaceBelowThreshold | FingerprintBelowThreshold | NoBoundIp | SourceIpMismatch
    | TpmAttestationInvalid | IdentityNotActive | IdentityRevoked | LoginBoxExpired

  const TAU_FACE: real := 0.82
  const TAU_FP: real := 0.6
  const MAX_LOGIN_BOX_MS: int := 20000

  /** The rule as the specification states it: one conjunction. */
  predicate LoginOk(f: Factors, id: Facts) {
    && f.faceScore >= TAU_FACE && f.fpScore >= TAU_FP
    && id.boundIp == Some(f.sourceIp) && f.tpmValid
    && id.status == Active && !id.revoked
    && f.elapsedMs <= MAX_LOGIN_BOX_MS
  }

  /** The clause of the rule that a failure names does not hold. */
  predicate Fails(x: Failure, f: Factors, id: Facts) {
    match x
    case FaceBelowThreshold => f.faceScore < TAU_FACE
    case FingerprintBelowThreshold => f.fpScore < TAU_FP
    case NoBoundIp => id.boundIp.None?
    case SourceIpMismatch => id.boundIp.Some? && id.boundIp.value != f.sourceIp
    case TpmAttestationInvalid => !f.tpmValid
    case IdentityNotActive => id.status != Active
    case IdentityRevoked => id.revoked
    case LoginBoxExpired => f.elapsedMs > MAX_LOGIN_BOX_MS
  }

  lemma OkIffNothingFails(f: Factors, id: Facts)
    ensures LoginOk(f, id) <==> forall x :: !Fails(x, f, id)
  {
    if forall x :: !Fails(x, f, id) {
      assert !Fails(FaceBelowThreshold, f, id) && !Fails(FingerprintBelowThreshold, f, id) && !Fails(NoBoundIp, f, id)
          && !Fails(SourceIpMismatch, f, id) && !Fails(TpmAttestationInvalid, f, id) && !Fails(IdentityNotActive, f, id)
          && !Fails(IdentityRevoked, f, id) && !Fails(LoginBoxExpired, f, id);
    }
  }

  /** The place of a clause in the order they are tried. */
  function Place(x: Failure): nat {
    match x
    case FaceBelowThreshold => 0 case FingerprintBelowThreshold => 1 case NoBoundIp => 2 case SourceIpMismatch => 2
    case TpmAttestationInvalid => 3 case IdentityNotActive => 4 case IdentityRevoked => 5 case LoginBoxExpired => 6
  }

  /** The clause tried at place `k`, in the order of the source. */
  function ClauseAt(k: nat, id: Facts): Failure {
    match k
    case 0 => FaceBelowThreshold case 1 => FingerprintBelowThreshold
    case 2 => if id.boundIp.None? then NoBoundIp else SourceIpMismatch
    case 3 => TpmAttestationInvalid case 4 => IdentityNotActive case 5 => IdentityRevoked case _ => LoginBoxExpired
  }

  /** The failures after the first `k` clauses. */
  function Failed(f: Factors, id: Facts, k: nat): seq<Failure> {
    if k == 0 then [] else
      var x := ClauseAt(k - 1, id);
      Failed(f, id, k - 1) + if Fails(x, f, id) then [x] else []
  }

  lemma {:induction false} FailedAre(f: Factors, id: Facts, k: nat, x: Failure)
    requires k <= 7
    ensures x in Failed(f, id, k) <==> Place(x) < k && Fails(x, f, id)
  {
    if k > 0 {
      FailedAre(f, id, k - 1, x);
    }
  }

  lemma FailedExactly(f: Factors, id: Facts)
    ensures LoginOk(f, id) <==> Failed(f, id, 7) == []
    ensures forall x :: x in Failed(f, id, 7) <==> Fails(x, f, id)
  {
    forall x ensures x in Failed(f, id, 7) <==> Fails(x, f, id) {
      FailedAre(f, id, 7, x);
    }
    OkIffNothingFails(f, id);
    if Failed(f, id, 7) != [] {
      assert Failed(f, id, 7)[0] in Failed(f, id, 7);
    }
  }

  /** `evaluateMatchAll` under the default policy reports exactly the clauses that do not hold, and
      passes exactly when all do. */
  method EvaluateMatchAll(f: Factors, id: Facts) returns (ok: bool, failures: seq<Failure>)
    ensures ok <==> LoginOk(f, id)
    ensures ok <==> failures == []
    ensures forall x :: x in failures <==> Fails(x, f, id)
  {
    failures := [];
    if f.faceScore < TAU_FACE { failures := failures + [FaceBelowThreshold]; }
    assert failures == Failed(f, id, 1);
    if f.fpScore < TAU_FP { failures := failures + [FingerprintBelowThreshold]; }
    assert failures == Failed(f, id, 2);
    if id.boundIp.None? { failures := failures + [NoBoundIp]; }
    else if f.sourceIp != id.boundIp.value { failures := failures + [SourceIpMismatch]; }
    assert failures == Failed(f, id, 3);
    if !f.tpmValid { failures := failures + [TpmAttestationInvalid]; }
    assert failures == Failed(f, id, 4);
    if id.status != Active { failures := failures + [IdentityNotActive]; }
    assert failures == Failed(f, id, 5);
    if id.revoked { failures := failures + [IdentityRevoked]; }
    assert failures == Failed(f, id, 6);
    if f.elapsedMs > MAX_LOGIN_BOX_MS { failures := failures + [LoginBoxExpired]; }
    assert failures == Failed(f, id, 7);
    ok := |failures| == 0;
    FailedExactly(f, id);
  }
}
