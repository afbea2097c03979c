/** From a candidate's envelope to headquarters: what a ledger export decrypts to, when it is accepted,
    and that only the first export of an exam can be. */
module EndToEnd {
  import opened ByteStrings
  import opened MerkleChain
  import opened JsonText
  import opened HqIngest
  import opened AnchorGuard
  import opened HqAgreement
  import Hall = HallProtocol

  /** The two ends, and what lies between: RSA-OAEP wrapping by key and padding, AES-256-GCM sealing
      by key, iv and plaintext, and the node's public key. */
  datatype World = World(
    hq: Env, hall: Hall.Env, wrap: (Bytes, Bytes) -> Bytes, gcmSeal: (Bytes, Bytes, Bytes) -> (Bytes, Bytes),
    pubkey: Bytes)

  ghost predicate CiphersInvert(w: World) {
    && (forall dk, pad :: |dk| == 32 ==> w.hq.unwrap(w.wrap(dk, pad)) == Some(dk))
    && (forall dk, iv, pt :: |dk| == 32 && |iv| == 12 ==>
          w.hq.gcmOpen(dk, iv, w.gcmSeal(dk, iv, pt).1, w.gcmSeal(dk, iv, pt).0) == Some(pt))
  }

  ghost predicate NodeSigns(w: World) {
    |w.pubkey| == 32 && forall m :: |w.hall.sign(m)| == 64 && w.hq.verify(w.pubkey, m, w.hall.sign(m))
  }

  /** A value of JavaScript: an object has a key once, and numbers are as they print. */
  ghost predicate IsValue(env: Env, v: Json) {
    Valid(v) && NumbersIn(env.printed, v)
  }

  /** Canonical text survives UTF-8 and is read back with its keys in sorted order. */
  ghost predicate JsonReads(env: Env) {
    RefusesBom(env) && forall v ::
      IsValue(env, v) ==> env.parse(env.decode(env.utf8(CanonicalJson(v)))) == Some(SortDeep(v))
  }

  ghost predicate Lawful(w: World) {
    w.hq.hash == w.hall.hash && CiphersInvert(w) && NodeSigns(w) && JsonReads(w.hq)
  }

  // ---------- Sealing ----------

  /** `sealRecord` with the random data key, iv and padding as arguments. */
  function Seal(w: World, record: Json, dk: Bytes, iv: Bytes, pad: Bytes): Hall.Envelope {
    var (ct, tag) := w.gcmSeal(dk, iv, w.hq.utf8(CanonicalJson(record)));
    Hall.Envelope(ct, iv, tag, w.wrap(dk, pad))
  }

  ghost predicate SealedAs(w: World, v: Hall.Envelope, record: Json) {
    IsValue(w.hq, record) && exists dk, iv, pad :: |dk| == 32 && |iv| == 12 && v == Seal(w, record, dk, iv, pad)
  }

  // ---------- The export ----------

  /** A row of `listSealedForExport`. */
  function ToExport(r: Hall.Row): ExportRecord {
    ExportRecord(r.exam, Some(r.seatNo), r.leafIndex, ToHex(r.leaf), ToHex(r.prevRoot), ToHex(r.chainRoot),
                 ToHex(r.sig), ToHex(r.envelope.ct), ToHex(r.envelope.iv), ToHex(r.envelope.tag),
                 ToHex(r.envelope.wrappedDk))
  }

  function ToExports(rows: seq<Hall.Row>): (s: seq<ExportRecord>)
    ensures |s| == |rows| && forall i :: 0 <= i < |s| ==> s[i] == ToExport(rows[i])
  {
    seq(|rows|, i requires 0 <= i < |rows| => ToExport(rows[i]))
  }

  /** `sync_state = 'SEALED'`. */
  function Unsynced(rows: seq<Hall.Row>): seq<Hall.Row> {
    if |rows| == 0 then [] else (if rows[0].synced then [] else [rows[0]]) + Unsynced(rows[1..])
  }

  /** `listSealedForExport`: ordered by leaf index. */
  function Export(ledger: seq<Hall.Row>, c: Hall.Id, e: Hall.Id): seq<ExportRecord> {
    SortByIndex(ToExports(Unsynced(Hall.ChainOf(ledger, c, e))))
  }

  /** The bundle of the export handler. */
  function MakeBundle(w: World, c: Hall.Id, records: seq<ExportRecord>, at: int): SyncBundle {
    var manifest := Manifest(c, |records|, records, at);
    var digest := ManifestDigest(w.hq, manifest);
    SyncBundle(manifest, ToHex(digest), ToHex(w.hall.sign(digest)), ToHex(w.pubkey))
  }

  lemma BundleIsAuthentic(w: World, c: Hall.Id, records: seq<ExportRecord>, at: int)
    requires NodeSigns(w)
    ensures Authentic(w.hq, MakeBundle(w, c, records, at))
  {
    var digest := ManifestDigest(w.hq, Manifest(c, |records|, records, at));
    FromToHex(w.pubkey);
    FromToHex(w.hall.sign(digest));
  }

  // ---------- One row ----------

  lemma RowReads(w: World, r: Hall.Row, record: Json, site: Site)
    requires CiphersInvert(w) && JsonReads(w.hq) && SealedAs(w, r.envelope, record)
    ensures ReadRecord(w.hq, site, ToExport(r)) == Read(SortDeep(record))
  {
    var dk, iv, pad :| |dk| == 32 && |iv| == 12 && r.envelope == Seal(w, record, dk, iv, pad);
    FromToHex(r.envelope.ct);
    FromToHex(r.envelope.iv);
    FromToHex(r.envelope.tag);
    FromToHex(r.envelope.wrappedDk);
    assert OpenEnvelope(w.hq, ToExport(r)) == Some(w.hq.utf8(CanonicalJson(record)));
  }

  lemma RowLeafMatches(w: World, r: Hall.Row)
    requires r.leaf == Hall.EnvelopeLeaf(w.hq.hash, r.envelope)
    ensures LeafMatches(w.hq, ToExport(r))
  {
    FromToHex(r.envelope.ct);
    FromToHex(r.envelope.iv);
    FromToHex(r.envelope.tag);
    FromToHex(r.envelope.wrappedDk);
  }

  lemma RowChains(r: Hall.Row)
    ensures ChainRecordOf(ToExport(r)) == ChainRecord(r.leafIndex, r.leaf, r.prevRoot, r.chainRoot)
  {
    FromToHex(r.leaf);
    FromToHex(r.prevRoot);
    FromToHex(r.chainRoot);
  }

  // ---------- A whole chain ----------

  lemma {:induction false} OneExam(records: seq<ExportRecord>, e: string)
    requires |records| > 0 && forall r :: r in records ==> r.examId == e
    ensures Exams(records) == [e] && Select(records, e) == records
  {
    var n := |records| - 1;
    assert records == records[..n] + [records[n]];
    if n > 0 {
      OneExam(records[..n], e);
    }
  }

  lemma {:induction false} ChainOfIs(ledger: seq<Hall.Row>, c: Hall.Id, e: Hall.Id)
    ensures forall r :: r in Hall.ChainOf(ledger, c, e) ==> r in ledger && r.centre == c && r.exam == e
  {
    if |ledger| > 0 {
      ChainOfIs(ledger[..|ledger| - 1], c, e);
    }
  }

  lemma RowLinks(h: Hash, rows: seq<Hall.Row>, i: nat)
    requires i < |rows| && Hall.RowLinked(h, rows, i)
    ensures LinkOk(h, ChainRecords(ToExports(rows)), i)
  {
    RowChains(rows[i]);
    if i > 0 { RowChains(rows[i - 1]); }
  }

  lemma ChainChains(w: World, rows: seq<Hall.Row>)
    requires Hall.Linked(w.hq.hash, rows)
    ensures WellChained(w.hq.hash, ChainRecords(ToExports(rows)))
  {
    forall i | 0 <= i < |rows| ensures LinkOk(w.hq.hash, ChainRecords(ToExports(rows)), i) {
      assert Hall.RowLinked(w.hq.hash, rows, i);
      RowLinks(w.hq.hash, rows, i);
    }
  }

  lemma ChainLeaves(w: World, rows: seq<Hall.Row>)
    requires Hall.Linked(w.hq.hash, rows)
    ensures LeavesMatch(w.hq, ToExports(rows))
  {
    forall i | 0 <= i < |rows| ensures LeafMatches(w.hq, ToExports(rows)[i]) {
      assert Hall.RowLinked(w.hq.hash, rows, i);
      RowLeafMatches(w, rows[i]);
    }
  }

  lemma LinkedAscends(h: Hash, rows: seq<Hall.Row>)
    requires Hall.Linked(h, rows)
    ensures Ascending(ToExports(rows))
  {
    forall i, j | 0 <= i < j < |rows| ensures ToExports(rows)[i].leafIndex <= ToExports(rows)[j].leafIndex {
      assert Hall.RowLinked(h, rows, i) && Hall.RowLinked(h, rows, j);
    }
  }

  ghost predicate AllSealed(w: World, rows: seq<Hall.Row>, records: seq<Json>) {
    |records| == |rows| && forall i :: 0 <= i < |rows| ==> SealedAs(w, rows[i].envelope, records[i])
  }

  /** The answers as submitted, keys sorted, in the order of the ledger. */
  function Submitted(rows: seq<Hall.Row>, records: seq<Json>, e: Hall.Id): (s: seq<DecryptedAnswer>)
    requires |records| == |rows|
    ensures |s| == |rows|
  {
    seq(|rows|, i requires 0 <= i < |rows| => DecryptedAnswer(e, Some(rows[i].seatNo), i, SortDeep(records[i])))
  }

  lemma ChainReads(w: World, rows: seq<Hall.Row>, records: seq<Json>, site: Site)
    requires CiphersInvert(w) && JsonReads(w.hq) && AllSealed(w, rows, records)
    ensures Readable(w.hq, site, ToExports(rows))
  {
    forall i | 0 <= i < |rows| ensures ReadRecord(w.hq, site, ToExports(rows)[i]).Read? {
      RowReads(w, rows[i], records[i], site);
    }
  }

  lemma ChainAnswers(w: World, rows: seq<Hall.Row>, records: seq<Json>, site: Site, e: Hall.Id)
    requires CiphersInvert(w) && JsonReads(w.hq) && AllSealed(w, rows, records) && Hall.Linked(w.hq.hash, rows)
    requires forall r :: r in rows ==> r.exam == e
    ensures Answers(w.hq, site, ToExports(rows)) == Submitted(rows, records, e)
  {
    forall i | 0 <= i < |rows| ensures AnswerOf(w.hq, site, ToExports(rows)[i]) == Submitted(rows, records, e)[i] {
      RowReads(w, rows[i], records[i], site);
      assert Hall.RowLinked(w.hq.hash, rows, i) && rows[i] in rows;
    }
  }

  /** The anchor of a chain: its tail root and its number of rows. */
  function ChainAnchor(w: World, c: Hall.Id, e: Hall.Id, rows: seq<Hall.Row>): AnchorPayload
    requires |rows| > 0
  {
    AnchorPayload(ToHex(w.hq.hash(w.hq.utf8(c))), e, ToHex(rows[|rows| - 1].chainRoot), |rows|, ToHex(w.pubkey))
  }

  /** What headquarters holds after the exam: the centre's hash, the submitted records, one anchor. */
  function Delivered(w: World, c: Hall.Id, e: Hall.Id, rows: seq<Hall.Row>, records: seq<Json>): Outcome
    requires |records| == |rows| > 0
  {
    Accepted(ToHex(w.hq.hash(w.hq.utf8(c))), Submitted(rows, records, e), [ChainAnchor(w, c, e, rows)])
  }

  lemma AllUnsynced(rows: seq<Hall.Row>)
    requires forall i :: 0 <= i < |rows| ==> !rows[i].synced
    ensures Unsynced(rows) == rows
  {
    if |rows| > 0 {
      AllUnsynced(rows[1..]);
    }
  }

  /** A bundle of one whole chain passes every check but, perhaps, the portal's guard. */
  lemma ChainPasses(w: World, c: Hall.Id, e: Hall.Id, rows: seq<Hall.Row>, records: seq<Json>, at: int, site: Site)
    requires Lawful(w) && Hall.Linked(w.hq.hash, rows) && |rows| > 0 && AllSealed(w, rows, records)
    requires forall r :: r in rows ==> r.exam == e
    ensures var b := MakeBundle(w, c, ToExports(rows), at);
      && Authentic(w.hq, b) && Exams(b.manifest.records) == [e] && Select(b.manifest.records, e) == b.manifest.records
      && SortByIndex(b.manifest.records) == b.manifest.records
      && GroupOk(w.hq, site, b.manifest.records)
  {
    var b := MakeBundle(w, c, ToExports(rows), at);
    BundleIsAuthentic(w, c, ToExports(rows), at);
    forall r | r in b.manifest.records ensures r.examId == e {
      var i :| 0 <= i < |rows| && ToExports(rows)[i] == r;
      assert rows[i] in rows;
    }
    OneExam(b.manifest.records, e);
    LinkedAscends(w.hq.hash, rows);
    SortOfAscending(ToExports(rows));
    ChainChains(w, rows);
    ChainLeaves(w, rows);
    ChainReads(w, rows, records, site);
  }

  lemma OneExamYields(env: Env, site: Site, b: SyncBundle, e: string)
    requires Exams(b.manifest.records) == [e] && |b.manifest.records| > 0
    requires Select(b.manifest.records, e) == b.manifest.records
      && SortByIndex(b.manifest.records) == b.manifest.records
    ensures Yield(env, site, b)
      == Accepted(CentreIdHash(env, b), Answers(env, site, b.manifest.records),
                  [AnchorOf(env, site, b, e, b.manifest.records)])
  {
    ExamsAre(b.manifest.records);
    assert AllAnswers(env, site, b.manifest.records, []) == [] && AllAnchors(env, site, b, []) == [];
    assert [e][..0] == [];
    assert AllAnswers(env, site, b.manifest.records, [e]) == Answers(env, site, b.manifest.records);
    assert AllAnchors(env, site, b, [e]) == [AnchorOf(env, site, b, e, b.manifest.records)];
  }

  lemma AnchorOfChain(w: World, b: SyncBundle, site: Site, c: Hall.Id, e: Hall.Id, rows: seq<Hall.Row>)
    requires |rows| > 0 && b.manifest.records == ToExports(rows) && SortByIndex(ToExports(rows)) == ToExports(rows)
    requires b.manifest.centreId == c && b.nodePubkey == ToHex(w.pubkey)
    ensures AnchorOf(w.hq, site, b, e, b.manifest.records) == ChainAnchor(w, c, e, rows)
  {
    FromToHex(rows[|rows| - 1].chainRoot);
  }

  lemma ChainYields(w: World, c: Hall.Id, e: Hall.Id, rows: seq<Hall.Row>, records: seq<Json>, at: int, site: Site)
    requires Lawful(w) && Hall.Linked(w.hq.hash, rows) && |rows| > 0 && AllSealed(w, rows, records)
    requires forall r :: r in rows ==> r.exam == e
    ensures Yield(w.hq, site, MakeBundle(w, c, ToExports(rows), at)) == Delivered(w, c, e, rows, records)
  {
    var b := MakeBundle(w, c, ToExports(rows), at);
    ChainPasses(w, c, e, rows, records, at, site);
    ChainAnswers(w, rows, records, site, e);
    OneExamYields(w.hq, site, b, e);
    AnchorOfChain(w, b, site, c, e, rows);
  }

  /** The first export of an exam whose envelopes were all sealed to the matching key decrypts, on
      either side, to exactly the submitted records in ledger order, with the anchor of the ledger's
      tail; the portal refuses it exactly when the exam id is not clean. */
  lemma FirstExport(w: World, s: Hall.Hall, c: Hall.Id, e: Hall.Id, records: seq<Json>, at: int, site: Site)
    requires Lawful(w) && Hall.LedgerInv(w.hall, s)
    requires |Hall.ChainOf(s.ledger, c, e)| > 0 && AllSealed(w, Hall.ChainOf(s.ledger, c, e), records)
    requires forall i :: 0 <= i < |records| ==> !Hall.ChainOf(s.ledger, c, e)[i].synced
    ensures IngestOutcome(w.hq, site, MakeBundle(w, c, Export(s.ledger, c, e), at))
      == if site.Portal? && !ExamIdClean(e) then Failed(Refused(NoPiiAnchor))
         else Delivered(w, c, e, Hall.ChainOf(s.ledger, c, e), records)
  {
    var rows := Hall.ChainOf(s.ledger, c, e);
    assert Hall.Linked(w.hq.hash, rows);
    ChainOfIs(s.ledger, c, e);
    AllUnsynced(rows);
    LinkedAscends(w.hq.hash, rows);
    SortOfAscending(ToExports(rows));
    ChainOutcome(w, c, e, rows, records, at, site);
  }

  lemma TailIsBare(w: World, h: Hash, rows: seq<Hall.Row>)
    requires Hall.Linked(h, rows) && |rows| > 0 && |w.pubkey| == 32
    ensures IsBareHash(ToHex(rows[|rows| - 1].chainRoot)) && IsBareHash(ToHex(w.pubkey))
  {
    assert Hall.RowLinked(h, rows, |rows| - 1);
  }

  lemma OneExamPublishable(b: SyncBundle, e: string)
    requires Exams(b.manifest.records) == [e] && Select(b.manifest.records, e) != []
    ensures forall x :: x in Exams(b.manifest.records) ==> Select(b.manifest.records, x) != []
    ensures Publishable(b) <==> ExamPublishable(b, e)
  {
    assert forall x :: x in Exams(b.manifest.records) <==> x == e;
  }

  lemma LastRootOfSorted(records: seq<ExportRecord>, e: string)
    requires |records| > 0 && Select(records, e) == records && SortByIndex(records) == records
    ensures LastRootText(records, e) == records[|records| - 1].chainRoot
  {
  }

  lemma ChainPublishable(w: World, b: SyncBundle, e: Hall.Id, rows: seq<Hall.Row>)
    requires Hall.Linked(w.hq.hash, rows) && |rows| > 0 && |w.pubkey| == 32
    requires b.manifest.records == ToExports(rows) && b.nodePubkey == ToHex(w.pubkey)
    requires Select(ToExports(rows), e) == ToExports(rows) && SortByIndex(ToExports(rows)) == ToExports(rows)
    ensures ExamPublishable(b, e) <==> ExamIdClean(e)
  {
    TailIsBare(w, w.hq.hash, rows);
    LastRootOfSorted(ToExports(rows), e);
  }

  lemma OneExamGroups(env: Env, site: Site, records: seq<ExportRecord>, e: string)
    requires Select(records, e) == records && GroupOk(env, site, records)
    ensures GroupsOk(env, site, records, [e])
  {
  }

  lemma OneExamRefusal(env: Env, site: Site, b: SyncBundle, e: string)
    requires Exams(b.manifest.records) == [e] && Select(b.manifest.records, e) != []
    requires Authentic(env, b) && GroupsOk(env, site, b.manifest.records, [e])
    ensures BundleRefusal(env, site, b) == if site.Portal? && !ExamPublishable(b, e) then Some(Refused(NoPiiAnchor))
      else None
  {
    OneExamPublishable(b, e);
    OnlyTheGuard(env, site, b);
  }

  lemma ChainOutcome(w: World, c: Hall.Id, e: Hall.Id, rows: seq<Hall.Row>, records: seq<Json>, at: int, site: Site)
    requires Lawful(w) && Hall.Linked(w.hq.hash, rows) && |rows| > 0 && AllSealed(w, rows, records)
    requires forall r :: r in rows ==> r.exam == e
    ensures IngestOutcome(w.hq, site, MakeBundle(w, c, ToExports(rows), at))
      == if site.Portal? && !ExamIdClean(e) then Failed(Refused(NoPiiAnchor)) else Delivered(w, c, e, rows, records)
  {
    ChainPasses(w, c, e, rows, records, at, site);
    ChainPublishable(w, MakeBundle(w, c, ToExports(rows), at), e, rows);
    OneExamGroups(w.hq, site, ToExports(rows), e);
    OneExamRefusal(w.hq, site, MakeBundle(w, c, ToExports(rows), at), e);
    ChainYields(w, c, e, rows, records, at, site);
  }

  // ---------- Over whole runs ----------

  function Envelopes(rows: seq<Hall.Row>): (s: seq<Hall.Envelope>)
    ensures |s| == |rows|
  {
    seq(|rows|, i requires 0 <= i < |rows| => rows[i].envelope)
  }

  /** The envelopes that the first `n` steps committed for (c, e), in order of commit. */
  ghost function Commits(states: seq<Hall.Hall>, steps: seq<Hall.Step>, c: Hall.Id, e: Hall.Id,
                         n: nat): seq<Hall.Envelope>
    requires n <= |steps| < |states|
  {
    if n == 0 then []
    else
      var earlier, open := Commits(states, steps, c, e, n - 1), states[n - 1].submitting;
      if steps[n - 1].CommitSubmit? && steps[n - 1].tx in open
         && open[steps[n - 1].tx].centre == c && open[steps[n - 1].tx].exam == e
      then earlier + [open[steps[n - 1].tx].envelope] else earlier
  }

  lemma StepEnvelopes(env: Hall.Env, s: Hall.Hall, step: Hall.Step, c: Hall.Id, e: Hall.Id)
    requires Hall.Enabled(env, s, step)
    ensures Envelopes(Hall.ChainOf(Hall.Apply(env, s, step).ledger, c, e)) == Envelopes(Hall.ChainOf(s.ledger, c, e))
      + if step.CommitSubmit? && s.submitting[step.tx].centre == c && s.submitting[step.tx].exam == e
        then [s.submitting[step.tx].envelope] else []
  {
    match step
    case CommitSubmit(tx) => Hall.ChainOfAppend(s.ledger, Hall.NewRow(env, s.submitting[tx]), c, e);
    case MarkSynced(c', leaves) => Hall.ChainOfMark(s.ledger, c', leaves, c, e);
    case _ =>
  }

  /** The ledger of an exam holds exactly the committed envelopes, in order. */
  lemma {:induction false} LedgerIsCommits(env: Hall.Env, states: seq<Hall.Hall>, steps: seq<Hall.Step>, c: Hall.Id,
                                           e: Hall.Id, n: nat)
    requires Hall.IsRun(env, states, steps) && Hall.Init(states[0]) && n <= |steps|
    ensures Envelopes(Hall.ChainOf(states[n].ledger, c, e)) == Commits(states, steps, c, e, n)
  {
    if n > 0 {
      LedgerIsCommits(env, states, steps, c, e, n - 1);
      StepEnvelopes(env, states[n - 1], steps[n - 1], c, e);
    }
  }

  /** Every envelope under way or on the ledger was sealed, as the record `recordOf` names. */
  ghost predicate HallSealed(w: World, recordOf: Hall.Envelope -> Json, s: Hall.Hall) {
    && (forall x :: x in s.submitting ==> SealedAs(w, s.submitting[x].envelope, recordOf(s.submitting[x].envelope)))
    && forall k :: 0 <= k < |s.ledger| ==> SealedAs(w, s.ledger[k].envelope, recordOf(s.ledger[k].envelope))
  }

  ghost predicate SubmitsSealed(w: World, recordOf: Hall.Envelope -> Json, steps: seq<Hall.Step>) {
    forall i :: 0 <= i < |steps| && steps[i].BeginSubmit?
      ==> SealedAs(w, steps[i].envelope, recordOf(steps[i].envelope))
  }

  lemma StepKeepsSealed(w: World, recordOf: Hall.Envelope -> Json, s: Hall.Hall, step: Hall.Step)
    requires HallSealed(w, recordOf, s) && Hall.Enabled(w.hall, s, step)
    requires step.BeginSubmit? ==> SealedAs(w, step.envelope, recordOf(step.envelope))
    ensures HallSealed(w, recordOf, Hall.Apply(w.hall, s, step))
  {
  }

  lemma {:induction false} RunKeepsSealed(w: World, recordOf: Hall.Envelope -> Json, states: seq<Hall.Hall>,
                                          steps: seq<Hall.Step>, n: nat)
    requires Hall.IsRun(w.hall, states, steps) && Hall.Init(states[0]) && SubmitsSealed(w, recordOf, steps)
      && n <= |steps|
    ensures HallSealed(w, recordOf, states[n])
  {
    if n > 0 {
      RunKeepsSealed(w, recordOf, states, steps, n - 1);
      StepKeepsSealed(w, recordOf, states[n - 1], steps[n - 1]);
    }
  }

  function Records(recordOf: Hall.Envelope -> Json, envelopes: seq<Hall.Envelope>): (s: seq<Json>)
    ensures |s| == |envelopes|
  {
    seq(|envelopes|, i requires 0 <= i < |envelopes| => recordOf(envelopes[i]))
  }

  lemma LedgerSealed(w: World, recordOf: Hall.Envelope -> Json, s: Hall.Hall, c: Hall.Id, e: Hall.Id)
    requires HallSealed(w, recordOf, s)
    ensures AllSealed(w, Hall.ChainOf(s.ledger, c, e), Records(recordOf, Envelopes(Hall.ChainOf(s.ledger, c, e))))
  {
    ChainOfIs(s.ledger, c, e);
    var rows := Hall.ChainOf(s.ledger, c, e);
    forall i | 0 <= i < |rows| ensures SealedAs(w, rows[i].envelope, recordOf(rows[i].envelope)) {
      assert rows[i] in s.ledger;
    }
  }

  /** In every run in which all submitted envelopes were sealed to the matching key, the first export
      of an exam delivers exactly the records whose submissions were committed, in order of commit. */
  lemma RunDelivers(w: World, recordOf: Hall.Envelope -> Json, states: seq<Hall.Hall>, steps: seq<Hall.Step>,
                    n: nat, c: Hall.Id, e: Hall.Id, at: int, site: Site)
    requires Lawful(w) && Hall.IsRun(w.hall, states, steps) && Hall.Init(states[0]) && SubmitsSealed(w, recordOf, steps)
    requires n <= |steps| && |Hall.ChainOf(states[n].ledger, c, e)| > 0
    requires forall r :: r in Hall.ChainOf(states[n].ledger, c, e) ==> !r.synced
    ensures var rows, commits := Hall.ChainOf(states[n].ledger, c, e), Commits(states, steps, c, e, n);
      && |commits| == |rows|
      && IngestOutcome(w.hq, site, MakeBundle(w, c, Export(states[n].ledger, c, e), at))
         == if site.Portal? && !ExamIdClean(e) then Failed(Refused(NoPiiAnchor))
            else Delivered(w, c, e, rows, Records(recordOf, commits))
  {
    Hall.RunKeepsLedger(w.hall, states, steps, n);
    RunKeepsSealed(w, recordOf, states, steps, n);
    LedgerIsCommits(w.hall, states, steps, c, e, n);
    LedgerSealed(w, recordOf, states[n], c, e);
    FirstExport(w, states[n], c, e, Records(recordOf, Commits(states, steps, c, e, n)), at, site);
  }

  // ---------- Later exports ----------

  function FirstUnsynced(rows: seq<Hall.Row>): (k: nat)
    ensures k <= |rows|
  {
    if |rows| == 0 || !rows[0].synced then 0 else 1 + FirstUnsynced(rows[1..])
  }

  lemma {:induction false} UnsyncedIs(rows: seq<Hall.Row>)
    ensures forall r :: r in Unsynced(rows) <==> r in rows && !r.synced
    ensures Unsynced(rows) == [] <==> FirstUnsynced(rows) == |rows|
    ensures FirstUnsynced(rows) < |rows| ==> Unsynced(rows)[0] == rows[FirstUnsynced(rows)]
  {
    if |rows| > 0 {
      UnsyncedIs(rows[1..]);
      assert rows == [rows[0]] + rows[1..];
    }
  }

  ghost predicate RowsAscend(rows: seq<Hall.Row>) {
    forall i, j :: 0 <= i < j < |rows| ==> rows[i].leafIndex <= rows[j].leafIndex
  }

  lemma {:induction false} UnsyncedAscends(rows: seq<Hall.Row>)
    requires RowsAscend(rows)
    ensures RowsAscend(Unsynced(rows))
  {
    if |rows| > 0 {
      assert RowsAscend(rows[1..]);
      UnsyncedAscends(rows[1..]);
      UnsyncedIs(rows[1..]);
      forall r | r in Unsynced(rows[1..]) ensures rows[0].leafIndex <= r.leafIndex {
        var j :| 0 <= j < |rows[1..]| && rows[1..][j] == r;
        assert r == rows[j + 1];
      }
    }
  }

  lemma LinkedRowsAscend(h: Hash, rows: seq<Hall.Row>)
    requires Hall.Linked(h, rows)
    ensures RowsAscend(rows)
  {
    forall i, j | 0 <= i < j < |rows| ensures rows[i].leafIndex <= rows[j].leafIndex {
      assert Hall.RowLinked(h, rows, i) && Hall.RowLinked(h, rows, j);
    }
  }

  lemma ExportsOfExam(rows: seq<Hall.Row>, e: Hall.Id)
    requires forall r :: r in rows ==> r.exam == e
    ensures forall r :: r in ToExports(rows) ==> r.examId == e
  {
    forall r | r in ToExports(rows) ensures r.examId == e {
      var i :| 0 <= i < |rows| && r == ToExport(rows[i]);
      assert rows[i] in rows;
    }
  }

  lemma ExportIs(h: Hash, ledger: seq<Hall.Row>, c: Hall.Id, e: Hall.Id)
    requires Hall.Linked(h, Hall.ChainOf(ledger, c, e))
    ensures Export(ledger, c, e) == ToExports(Unsynced(Hall.ChainOf(ledger, c, e)))
    ensures SortByIndex(Export(ledger, c, e)) == Export(ledger, c, e)
    ensures forall r :: r in Export(ledger, c, e) ==> r.examId == e
  {
    var rows := Hall.ChainOf(ledger, c, e);
    LinkedRowsAscend(h, rows);
    UnsyncedAscends(rows);
    UnsyncedIs(rows);
    ChainOfIs(ledger, c, e);
    SortOfAscending(ToExports(Unsynced(rows)));
    ExportsOfExam(Unsynced(rows), e);
  }

  /** A group whose first record does not continue from genesis is refused. */
  lemma BadStartRefused(env: Env, site: Site, records: seq<ExportRecord>, e: string)
    requires |records| > 0 && Select(records, e) == records && SortByIndex(records) == records
    requires FromHex(records[0].prevRoot) != GENESIS
    ensures FirstRefusal(env, site, records, [e]) == Some(Refused(ChainWalk))
  {
    assert !LinkOk(env.hash, RecordToChain(records), 0);
    assert [e][..0] == [];
    assert FirstRefusal(env, site, records, []) == None;
  }

  lemma OneExamWalkRefused(env: Env, site: Site, b: SyncBundle, e: string)
    requires Authentic(env, b) && Exams(b.manifest.records) == [e]
    requires FirstRefusal(env, site, b.manifest.records, [e]) == Some(Refused(ChainWalk))
    ensures IngestOutcome(env, site, b) == Failed(Refused(ChainWalk))
  {
    ExamsAre(b.manifest.records);
  }

  lemma FirstExported(h: Hash, ledger: seq<Hall.Row>, c: Hall.Id, e: Hall.Id)
    requires Hall.Linked(h, Hall.ChainOf(ledger, c, e))
    requires FirstUnsynced(Hall.ChainOf(ledger, c, e)) < |Hall.ChainOf(ledger, c, e)|
    ensures |Export(ledger, c, e)| > 0
    ensures FromHex(Export(ledger, c, e)[0].prevRoot)
      == Hall.ChainOf(ledger, c, e)[FirstUnsynced(Hall.ChainOf(ledger, c, e))].prevRoot
  {
    var rows := Hall.ChainOf(ledger, c, e);
    ExportIs(h, ledger, c, e);
    UnsyncedIs(rows);
    FromToHex(rows[FirstUnsynced(rows)].prevRoot);
  }

  lemma LinkedPair(h: Hash, rows: seq<Hall.Row>, k: nat)
    requires Hall.Linked(h, rows) && 0 < k < |rows|
    ensures rows[k].prevRoot == h(rows[k - 1].prevRoot + rows[k - 1].leaf)
  {
    assert Hall.RowLinked(h, rows, k) && Hall.RowLinked(h, rows, k - 1);
  }

  /** Ingest walks every bundle from genesis. So once the first row of an exam has been exported and
      marked, no later export of that exam is accepted, on either side, unless some string hashes
      to 32 zero bytes: namely the one that the last exported root is the hash of. */
  lemma LaterExportRefused(w: World, s: Hall.Hall, c: Hall.Id, e: Hall.Id, at: int, site: Site)
    requires NodeSigns(w) && w.hq.hash == w.hall.hash && Hall.LedgerInv(w.hall, s)
    requires 0 < FirstUnsynced(Hall.ChainOf(s.ledger, c, e)) < |Hall.ChainOf(s.ledger, c, e)|
    ensures var before := Hall.ChainOf(s.ledger, c, e)[FirstUnsynced(Hall.ChainOf(s.ledger, c, e)) - 1];
      IngestOutcome(w.hq, site, MakeBundle(w, c, Export(s.ledger, c, e), at)) == Failed(Refused(ChainWalk))
      || Breaks(w.hq.hash, GenesisPreimage(before.prevRoot + before.leaf))
  {
    var rows := Hall.ChainOf(s.ledger, c, e);
    assert Hall.Linked(w.hq.hash, rows);
    LinkedPair(w.hq.hash, rows, FirstUnsynced(rows));
    FirstExported(w.hq.hash, s.ledger, c, e);
    if rows[FirstUnsynced(rows)].prevRoot != GENESIS {
      var records := Export(s.ledger, c, e);
      ExportIs(w.hq.hash, s.ledger, c, e);
      OneExam(records, e);
      BundleIsAuthentic(w, c, records, at);
      BadStartRefused(w.hq, site, records, e);
      OneExamWalkRefused(w.hq, site, MakeBundle(w, c, records, at), e);
    }
  }

  /** The leaves that `markSynced` is given after an export. */
  function LeafSet(records: seq<ExportRecord>): set<Bytes> {
    set r | r in records :: FromHex(r.leaf)
  }

  lemma {:induction false} AllSynced(rows: seq<Hall.Row>)
    requires forall i :: 0 <= i < |rows| ==> rows[i].synced
    ensures Unsynced(rows) == []
  {
    if |rows| > 0 {
      AllSynced(rows[1..]);
    }
  }

  lemma LeavesOfRows(rows: seq<Hall.Row>)
    ensures forall r :: r in rows ==> r.leaf in LeafSet(ToExports(rows))
  {
    forall r | r in rows ensures r.leaf in LeafSet(ToExports(rows)) {
      var i :| 0 <= i < |rows| && rows[i] == r;
      FromToHex(r.leaf);
      assert ToExports(rows)[i] in ToExports(rows);
    }
  }

  lemma MarkingAll(rows: seq<Hall.Row>, c: Hall.Id, leaves: set<Bytes>)
    requires forall r :: r in rows ==> r.centre == c && (!r.synced ==> r.leaf in leaves)
    ensures Unsynced(Hall.Mark(rows, c, leaves)) == []
  {
    forall i | 0 <= i < |rows| ensures Hall.Mark(rows, c, leaves)[i].synced {
      assert rows[i] in rows;
    }
    AllSynced(Hall.Mark(rows, c, leaves));
  }

  /** After an export and its marking, the same exam has nothing left to export. */
  lemma ExportedOnce(w: World, s: Hall.Hall, c: Hall.Id, e: Hall.Id)
    requires Hall.LedgerInv(w.hall, s)
    ensures Export(Hall.Mark(s.ledger, c, LeafSet(Export(s.ledger, c, e))), c, e) == []
  {
    var rows := Hall.ChainOf(s.ledger, c, e);
    var leaves := LeafSet(Export(s.ledger, c, e));
    ExportIs(w.hall.hash, s.ledger, c, e);
    UnsyncedIs(rows);
    ChainOfIs(s.ledger, c, e);
    LeavesOfRows(Unsynced(rows));
    MarkingAll(rows, c, leaves);
    Hall.ChainOfMark(s.ledger, c, leaves, c, e);
  }

  // ---------- Any export ----------

  lemma {:induction false} UnsyncedLast(rows: seq<Hall.Row>)
    requires |rows| > 0
    ensures var n := |rows| - 1; Unsynced(rows) == Unsynced(rows[..n]) + if rows[n].synced then [] else [rows[n]]
  {
    var n := |rows| - 1;
    if n > 0 {
      UnsyncedLast(rows[1..]);
      assert rows[1..][..n - 1] == rows[..n][1..];
    }
  }

  /** The rows up to the last one still to be exported. */
  function UpToLast(rows: seq<Hall.Row>): seq<Hall.Row> {
    if |rows| == 0 || !rows[|rows| - 1].synced then rows else UpToLast(rows[..|rows| - 1])
  }

  lemma {:induction false} UpToLastIs(rows: seq<Hall.Row>)
    ensures UpToLast(rows) <= rows && Unsynced(UpToLast(rows)) == Unsynced(rows)
    ensures Unsynced(rows) != []
      ==> |UpToLast(rows)| > 0 && Unsynced(rows)[|Unsynced(rows)| - 1] == UpToLast(rows)[|UpToLast(rows)| - 1]
  {
    if |rows| > 0 {
      var n := |rows| - 1;
      UnsyncedLast(rows);
      if rows[n].synced {
        UpToLastIs(rows[..n]);
      }
    }
  }

  lemma {:induction false} AllOrFewer(rows: seq<Hall.Row>)
    ensures |Unsynced(rows)| <= |rows|
    ensures |Unsynced(rows)| == |rows| ==> Unsynced(rows) == rows
  {
    if |rows| > 0 {
      AllOrFewer(rows[1..]);
    }
  }

  /** The rows to export are the first rows of the chain. */
  predicate ExportsFirstRows(rows: seq<Hall.Row>) {
    Unsynced(rows) <= rows
  }

  lemma LinkedPrefix(h: Hash, rows: seq<Hall.Row>, prefix: seq<Hall.Row>)
    requires Hall.Linked(h, rows) && prefix <= rows
    ensures Hall.Linked(h, prefix)
  {
    forall i | 0 <= i < |prefix| ensures Hall.RowLinked(h, prefix, i) {
      assert Hall.RowLinked(h, rows, i);
    }
  }

  /** The chain walk passes these rows when they are exported. */
  predicate WalkPasses(h: Hash, rows: seq<Hall.Row>) {
    WellChained(h, ChainRecords(ToExports(rows)))
  }

  /** Where two lists of rows whose chains end in one root part. */
  function RowsConflict(h: Hash, a: seq<Hall.Row>, b: seq<Hall.Row>): Conflict {
    ChainConflict(h, Leaves(ChainRecords(ToExports(a))), Leaves(ChainRecords(ToExports(b))))
  }

  /** What is exported against all rows up to the last exported one. */
  function ExportConflict(h: Hash, rows: seq<Hall.Row>): Conflict {
    RowsConflict(h, Unsynced(rows), UpToLast(rows))
  }

  /** Chains of different lengths that end in one root are not both accepted, or the hash is broken. */
  lemma DifferentLengths(h: Hash, part: seq<ChainRecord>, whole: seq<ChainRecord>)
    requires |part| > 0 && |whole| > 0 && |part| != |whole| && part[|part| - 1].root == whole[|whole| - 1].root
    ensures WellChained(h, part) && WellChained(h, whole) ==> Breaks(h, ChainConflict(h, Leaves(part), Leaves(whole)))
  {
    if WellChained(h, part) && WellChained(h, whole) {
      AcceptedChainsBind(h, part, whole);
    }
  }

  lemma ExportedChain(rows: seq<Hall.Row>) returns (chain: seq<ChainRecord>)
    requires |rows| > 0
    ensures chain == ChainRecords(ToExports(rows)) && |chain| == |rows|
    ensures chain[|chain| - 1].root == FromHex(ToHex(rows[|rows| - 1].chainRoot))
  {
    chain := ChainRecords(ToExports(rows));
    assert ToExports(rows)[|rows| - 1] == ToExport(rows[|rows| - 1]);
  }

  lemma TwoListsBreak(h: Hash, a: seq<Hall.Row>, b: seq<Hall.Row>)
    requires |a| > 0 && |b| > 0 && |a| != |b| && a[|a| - 1] == b[|b| - 1]
    ensures WalkPasses(h, a) && WalkPasses(h, b) ==> Breaks(h, RowsConflict(h, a, b))
  {
    var part := ExportedChain(a);
    var whole := ExportedChain(b);
    DifferentLengths(h, part, whole);
  }

  /** The rows exported and the rows up to the last of them, if there is a gap. */
  lemma GapParts(rows: seq<Hall.Row>) returns (part: seq<Hall.Row>, whole: seq<Hall.Row>)
    requires Unsynced(rows) != [] && !ExportsFirstRows(rows)
    ensures part == Unsynced(rows) && whole == UpToLast(rows)
    ensures |part| > 0 && |whole| > 0 && |part| != |whole| && part[|part| - 1] == whole[|whole| - 1]
  {
    UpToLastIs(rows);
    AllOrFewer(UpToLast(rows));
    part, whole := Unsynced(rows), UpToLast(rows);
  }

  lemma UpToLastPasses(w: World, rows: seq<Hall.Row>)
    requires Hall.Linked(w.hq.hash, rows)
    ensures WalkPasses(w.hq.hash, UpToLast(rows))
  {
    UpToLastIs(rows);
    LinkedPrefix(w.hq.hash, rows, UpToLast(rows));
    ChainChains(w, UpToLast(rows));
  }

  /** Rows with a gap among or before them do not pass the chain walk, or the hash is broken. */
  lemma GapBreaks(h: Hash, rows: seq<Hall.Row>)
    requires Unsynced(rows) != [] && !ExportsFirstRows(rows)
    ensures WalkPasses(h, Unsynced(rows)) && WalkPasses(h, UpToLast(rows)) ==> Breaks(h, ExportConflict(h, rows))
  {
    var part, whole := GapParts(rows);
    TwoListsBreak(h, part, whole);
  }

  lemma BadWalkRefused(env: Env, site: Site, records: seq<ExportRecord>, e: string)
    requires |records| > 0 && Select(records, e) == records && SortByIndex(records) == records
    requires !WellChained(env.hash, ChainRecords(records))
    ensures FirstRefusal(env, site, records, [e]) == Some(Refused(ChainWalk))
  {
    assert [e][..0] == [];
    assert FirstRefusal(env, site, records, []) == None;
  }

  /** Every export, first or not: it delivers its rows exactly if they are the first rows of the chain,
      the portal's guard aside, and is refused by the chain walk otherwise; or the hash is broken. */
  lemma AnyExport(w: World, s: Hall.Hall, c: Hall.Id, e: Hall.Id, records: seq<Json>, at: int, site: Site)
    requires Lawful(w) && Hall.LedgerInv(w.hall, s)
    requires Unsynced(Hall.ChainOf(s.ledger, c, e)) != []
      && AllSealed(w, Unsynced(Hall.ChainOf(s.ledger, c, e)), records)
    ensures var rows := Hall.ChainOf(s.ledger, c, e);
      || IngestOutcome(w.hq, site, MakeBundle(w, c, Export(s.ledger, c, e), at))
         == (if !ExportsFirstRows(rows) then Failed(Refused(ChainWalk))
             else if site.Portal? && !ExamIdClean(e) then Failed(Refused(NoPiiAnchor))
             else Delivered(w, c, e, Unsynced(rows), records))
      || (!ExportsFirstRows(rows) && Breaks(w.hq.hash, ExportConflict(w.hq.hash, rows)))
  {
    var rows := Hall.ChainOf(s.ledger, c, e);
    assert Hall.Linked(w.hq.hash, rows);
    ExportIs(w.hq.hash, s.ledger, c, e);
    ChainOfIs(s.ledger, c, e);
    UnsyncedIs(rows);
    if ExportsFirstRows(rows) {
      LinkedPrefix(w.hq.hash, rows, Unsynced(rows));
      ChainOutcome(w, c, e, Unsynced(rows), records, at, site);
    } else {
      if WalkPasses(w.hq.hash, Unsynced(rows)) {
        UpToLastPasses(w, rows);
        GapBreaks(w.hq.hash, rows);
      } else {
        GapRefused(w, c, e, Export(s.ledger, c, e), at, site);
      }
    }
  }

  lemma GapRefused(w: World, c: Hall.Id, e: Hall.Id, records: seq<ExportRecord>, at: int, site: Site)
    requires NodeSigns(w) && |records| > 0 && SortByIndex(records) == records
      && forall r :: r in records ==> r.examId == e
    requires !WellChained(w.hq.hash, ChainRecords(records))
    ensures IngestOutcome(w.hq, site, MakeBundle(w, c, records, at)) == Failed(Refused(ChainWalk))
  {
    OneExam(records, e);
    BundleIsAuthentic(w, c, records, at);
    BadWalkRefused(w.hq, site, records, e);
    OneExamWalkRefused(w.hq, site, MakeBundle(w, c, records, at), e);
  }

  // ---------- Marking by leaf ----------

  /** Row `j` is one of those the export of (c, e) reads, and has this leaf. */
  predicate ExportedAs(ledger: seq<Hall.Row>, c: Hall.Id, e: Hall.Id, j: int, leaf: Bytes) {
    0 <= j < |ledger| && ledger[j].centre == c && ledger[j].exam == e && !ledger[j].synced && ledger[j].leaf == leaf
  }

  lemma ExportedLeaf(h: Hash, ledger: seq<Hall.Row>, c: Hall.Id, e: Hall.Id, leaf: Bytes) returns (j: nat)
    requires Hall.Linked(h, Hall.ChainOf(ledger, c, e)) && leaf in LeafSet(Export(ledger, c, e))
    ensures ExportedAs(ledger, c, e, j, leaf)
  {
    var rows := Hall.ChainOf(ledger, c, e);
    ExportIs(h, ledger, c, e);
    UnsyncedIs(rows);
    ChainOfIs(ledger, c, e);
    var r :| r in Export(ledger, c, e) && FromHex(r.leaf) == leaf;
    var i :| 0 <= i < |Unsynced(rows)| && r == ToExport(Unsynced(rows)[i]);
    var row := Unsynced(rows)[i];
    assert row in Unsynced(rows);
    FromToHex(row.leaf);
    j :| 0 <= j < |ledger| && ledger[j] == row;
  }

  lemma LeafIsExported(h: Hash, ledger: seq<Hall.Row>, c: Hall.Id, e: Hall.Id, j: nat, leaf: Bytes)
    requires Hall.Linked(h, Hall.ChainOf(ledger, c, e)) && ExportedAs(ledger, c, e, j, leaf)
    ensures leaf in LeafSet(Export(ledger, c, e))
  {
    var rows := Hall.ChainOf(ledger, c, e);
    ExportIs(h, ledger, c, e);
    UnsyncedIs(rows);
    var i := Hall.RowInChain(ledger, j);
    assert ledger[j] in rows;
    LeavesOfRows(Unsynced(rows));
  }

  /** The handler reads the rows to export in one statement and marks them in another, by centre and
      leaf. Whatever was appended in between and whatever other exams the centre has: a row is marked
      exactly if an exported row has its leaf. */
  lemma MarkedIff(h: Hash, before: seq<Hall.Row>, after: seq<Hall.Row>, c: Hall.Id, e: Hall.Id, k: nat)
    requires Hall.Linked(h, Hall.ChainOf(before, c, e)) && k < |after|
    requires after[k].centre == c && !after[k].synced
    ensures Hall.Mark(after, c, LeafSet(Export(before, c, e)))[k].synced
      <==> exists j :: ExportedAs(before, c, e, j, after[k].leaf)
  {
    var leaf := after[k].leaf;
    if leaf in LeafSet(Export(before, c, e)) {
      var j := ExportedLeaf(h, before, c, e, leaf);
    }
    if j :| ExportedAs(before, c, e, j, leaf) {
      LeafIsExported(h, before, c, e, j, leaf);
    }
  }

  function EnvelopeBytes(v: Hall.Envelope): Bytes {
    v.ct + v.iv + v.tag + v.wrappedDk
  }

  /** So a row that was not exported, because it came later or is of another exam, is marked only if
      its envelope has the bytes of an exported one, or the hash collides. It is then never exported. */
  lemma MarkedUnexported(w: World, s: Hall.Hall, s': Hall.Hall, c: Hall.Id, e: Hall.Id, k: nat) returns (j: nat)
    requires Hall.LedgerInv(w.hall, s) && Hall.LedgerInv(w.hall, s') && k < |s'.ledger|
    requires s'.ledger[k].centre == c && !s'.ledger[k].synced && (k >= |s.ledger| || s'.ledger[k].exam != e)
    requires Hall.Mark(s'.ledger, c, LeafSet(Export(s.ledger, c, e)))[k].synced
    ensures ExportedAs(s.ledger, c, e, j, s'.ledger[k].leaf)
    ensures var u, v := EnvelopeBytes(s.ledger[j].envelope), EnvelopeBytes(s'.ledger[k].envelope);
      u == v || Collision(w.hall.hash, (u, v))
  {
    MarkedIff(w.hall.hash, s.ledger, s'.ledger, c, e, k);
    j :| ExportedAs(s.ledger, c, e, j, s'.ledger[k].leaf);
    Hall.LedgerLeaf(w.hall, s, j);
    Hall.LedgerLeaf(w.hall, s', k);
  }
}
