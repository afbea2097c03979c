/** The answer vault at headquarters, in its two implementations: the portal's `ingestBundle` and the
    Edge repository's `ingest`. Both check a centre's sync bundle, open its envelopes and derive the
    anchors to publish. */
module HqIngest {
  import opened ByteStrings
  import opened MerkleChain
  import opened JsonText

  datatype ExportRecord = ExportRecord(
    examId: string, seatNo: Option<string>, leafIndex: int, leaf: string, prevRoot: string, chainRoot: string,
    nodeRootSig: string, ciphertext: string, iv: string, authTag: string, wrappedDk: string)

  datatype Manifest = Manifest(centreId: string, count: int, records: seq<ExportRecord>, exportedAt: int)

  datatype SyncBundle = SyncBundle(manifest: Manifest, manifestHash: string, nodeSig: string, nodePubkey: string)

  datatype AnchorPayload = AnchorPayload(centreIdHash: string, examId: string, answerRoot: string, count: int,
                                         nodePubkey: string)

  datatype DecryptedAnswer = DecryptedAnswer(examId: string, seatNo: Option<string>, leafIndex: int, record: Json)

  /** Which implementation. */
  datatype Site = Portal | Edge

  datatype Check = ManifestHash | NodeSignature | ChainWalk | LeafEnvelope | HsmDecrypt | NoPiiAnchor

  /** `Threw` is an exception that is not one of the checks' own refusals. */
  datatype Failure = Refused(check: Check) | Threw

  datatype Outcome =
    | Accepted(centreIdHash: string, decrypted: seq<DecryptedAnswer>, anchors: seq<AnchorPayload>)
    | Failed(failure: Failure)

  /** SHA-256, UTF-8 both ways, `JSON.parse`, the texts JavaScript prints for numbers, the text of an integer,
      Ed25519 verification by public key, message and signature, RSA-OAEP unwrapping with the private key,
      and AES-256-GCM opening by key, iv, tag and ciphertext. */
  datatype Env = Env(
    hash: Hash, utf8: string -> Bytes, decode: Bytes -> string, parse: string -> Option<Json>,
    printed: string -> bool, number: int -> NumText,
    verify: (Bytes, Bytes, Bytes) -> bool, unwrap: Bytes -> Option<Bytes>,
    gcmOpen: (Bytes, Bytes, Bytes, Bytes) -> Option<Bytes>)

  /** The byte order mark. */
  const BOM: Bytes := [0xEF, 0xBB, 0xBF]

  /** No JSON text starts with a byte order mark. */
  ghost predicate RefusesBom(env: Env) {
    forall b :: BOM <= b ==> env.parse(env.decode(b)).None?
  }

  // ---------- The manifest ----------

  function RecordFields(env: Env, r: ExportRecord): (fs: seq<Field>)
    ensures |fs| == 11
  {
    [Field("examId", Str(r.examId)), Field("seatNo", TextOrNull(r.seatNo)),
     Field("leafIndex", Num(env.number(r.leafIndex))),
     Field("leaf", Str(r.leaf)), Field("prevRoot", Str(r.prevRoot)), Field("chainRoot", Str(r.chainRoot)),
     Field("nodeRootSig", Str(r.nodeRootSig)), Field("ciphertext", Str(r.ciphertext)), Field("iv", Str(r.iv)),
     Field("authTag", Str(r.authTag)), Field("wrappedDk", Str(r.wrappedDk))]
  }

  function RecordsJson(env: Env, rs: seq<ExportRecord>): (es: seq<Json>)
    ensures |es| == |rs|
  {
    seq(|rs|, i requires 0 <= i < |rs| => Obj(RecordFields(env, rs[i])))
  }

  function ManifestFields(env: Env, m: Manifest): (fs: seq<Field>)
    ensures |fs| == 4
  {
    [Field("centreId", Str(m.centreId)), Field("count", Num(env.number(m.count))),
     Field("records", Arr(RecordsJson(env, m.records))), Field("exportedAt", Num(env.number(m.exportedAt)))]
  }

  function ManifestJson(env: Env, m: Manifest): Json {
    Obj(ManifestFields(env, m))
  }

  /** The hash the centre node signed. */
  function ManifestDigest(env: Env, m: Manifest): Digest {
    env.hash(env.utf8(CanonicalJson(ManifestJson(env, m))))
  }

  predicate SignatureOk(env: Env, b: SyncBundle) {
    var pub, sig := FromHex(b.nodePubkey), FromHex(b.nodeSig);
    |pub| == 32 && |sig| == 64 && env.verify(pub, ManifestDigest(env, b.manifest), sig)
  }

  function CentreIdHash(env: Env, b: SyncBundle): string {
    ToHex(env.hash(env.utf8(b.manifest.centreId)))
  }

  // ---------- Grouping by exam ----------

  /** The exams in order of first appearance. */
  function Exams(records: seq<ExportRecord>): seq<string> {
    if |records| == 0 then []
    else
      var init, last := Exams(records[..|records| - 1]), records[|records| - 1].examId;
      if last in init then init else init + [last]
  }

  /** The records of one exam, in order of arrival. */
  function Select(records: seq<ExportRecord>, exam: string): seq<ExportRecord> {
    if |records| == 0 then []
    else
      var init, last := Select(records[..|records| - 1], exam), records[|records| - 1];
      if last.examId == exam then init + [last] else init
  }

  /** Fills `byExam`, a map that remembers the order of insertion. */
  method GroupByExam(records: seq<ExportRecord>) returns (order: seq<string>, byExam: map<string, seq<ExportRecord>>)
    ensures order == Exams(records)
    ensures forall e :: e in byExam <==> e in order
    ensures forall e :: e in byExam ==> byExam[e] == Select(records, e)
  {
    order, byExam := [], map[];
    for i := 0 to |records|
      invariant order == Exams(records[..i])
      invariant forall e :: e in byExam <==> e in order
      invariant forall e :: e in byExam ==> byExam[e] == Select(records[..i], e)
      invariant forall e :: e !in byExam ==> Select(records[..i], e) == []
    {
      var r := records[i];
      assert records[..i + 1][..i] == records[..i];
      var list := if r.examId in byExam then byExam[r.examId] else [];
      if r.examId !in byExam { order := order + [r.examId]; }
      byExam := byExam[r.examId := list + [r]];
    }
    assert records[..|records|] == records;
  }

  lemma {:induction false} ExamsAre(records: seq<ExportRecord>)
    ensures forall i, j :: 0 <= i < j < |Exams(records)| ==> Exams(records)[i] != Exams(records)[j]
    ensures forall e :: e in Exams(records) <==> Select(records, e) != []
  {
    if |records| > 0 {
      ExamsAre(records[..|records| - 1]);
    }
  }

  // ---------- Sorting by leaf index ----------

  function InsertByIndex(rs: seq<ExportRecord>, r: ExportRecord): (s: seq<ExportRecord>)
    ensures |s| == |rs| + 1
  {
    var n := |rs| - 1;
    if |rs| == 0 || rs[n].leafIndex <= r.leafIndex then rs + [r] else InsertByIndex(rs[..n], r) + [rs[n]]
  }

  /** `rs.sort((a, b) => a.leafIndex - b.leafIndex)`, which is stable. */
  function SortByIndex(rs: seq<ExportRecord>): (s: seq<ExportRecord>)
    ensures |s| == |rs|
  {
    if |rs| == 0 then [] else InsertByIndex(SortByIndex(rs[..|rs| - 1]), rs[|rs| - 1])
  }

  predicate Ascending(rs: seq<ExportRecord>) {
    forall i, j :: 0 <= i < j < |rs| ==> rs[i].leafIndex <= rs[j].leafIndex
  }

  /** The records with one index, in order. */
  function WithIndex(rs: seq<ExportRecord>, k: int): seq<ExportRecord> {
    if |rs| == 0 then []
    else WithIndex(rs[..|rs| - 1], k) + if rs[|rs| - 1].leafIndex == k then [rs[|rs| - 1]] else []
  }

  lemma AscendingAppend(rs: seq<ExportRecord>, r: ExportRecord)
    requires Ascending(rs) && forall x :: x in rs ==> x.leafIndex <= r.leafIndex
    ensures Ascending(rs + [r])
  {
  }

  lemma {:induction false} InsertPermutes(rs: seq<ExportRecord>, r: ExportRecord)
    ensures multiset(InsertByIndex(rs, r)) == multiset(rs) + multiset{r}
  {
    var n := |rs| - 1;
    if |rs| > 0 && rs[n].leafIndex > r.leafIndex {
      InsertPermutes(rs[..n], r);
      assert rs == rs[..n] + [rs[n]];
    }
  }

  lemma SameElements(rs: seq<ExportRecord>, s: seq<ExportRecord>, x: ExportRecord)
    requires multiset(rs) == multiset(s)
    ensures x in rs <==> x in s
  {
    assert x in rs <==> x in multiset(rs);
    assert x in s <==> x in multiset(s);
  }

  lemma {:induction false} InsertAscends(rs: seq<ExportRecord>, r: ExportRecord)
    requires Ascending(rs)
    ensures Ascending(InsertByIndex(rs, r))
  {
    var n := |rs| - 1;
    if |rs| == 0 {
    } else if rs[n].leafIndex <= r.leafIndex {
      AscendingAppend(rs, r);
    } else {
      InsertAscends(rs[..n], r);
      InsertPermutes(rs[..n], r);
      var t := InsertByIndex(rs[..n], r);
      forall x | x in t ensures x.leafIndex <= rs[n].leafIndex {
        SameElements(t, rs[..n] + [r], x);
      }
      AscendingAppend(t, rs[n]);
    }
  }

  lemma {:induction false} InsertStable(rs: seq<ExportRecord>, r: ExportRecord, k: int)
    requires Ascending(rs)
    ensures WithIndex(InsertByIndex(rs, r), k) == WithIndex(rs, k) + if r.leafIndex == k then [r] else []
  {
    var n := |rs| - 1;
    if |rs| == 0 || rs[n].leafIndex <= r.leafIndex {
      assert (rs + [r])[..|rs|] == rs;
    } else {
      InsertStable(rs[..n], r, k);
      var t := InsertByIndex(rs[..n], r);
      assert (t + [rs[n]])[..|t|] == t;
    }
  }

  /** The sort orders, permutes, and keeps records of equal index in order of arrival. */
  lemma {:induction false} SortSpec(rs: seq<ExportRecord>)
    ensures Ascending(SortByIndex(rs)) && multiset(SortByIndex(rs)) == multiset(rs)
    ensures forall k :: WithIndex(SortByIndex(rs), k) == WithIndex(rs, k)
  {
    if |rs| > 0 {
      var n := |rs| - 1;
      SortSpec(rs[..n]);
      InsertAscends(SortByIndex(rs[..n]), rs[n]);
      InsertPermutes(SortByIndex(rs[..n]), rs[n]);
      assert rs == rs[..n] + [rs[n]];
      forall k ensures WithIndex(SortByIndex(rs), k) == WithIndex(rs, k) {
        InsertStable(SortByIndex(rs[..n]), rs[n], k);
      }
    }
  }

  lemma {:induction false} SortOfAscending(rs: seq<ExportRecord>)
    requires Ascending(rs)
    ensures SortByIndex(rs) == rs
  {
    if |rs| > 0 {
      var n := |rs| - 1;
      assert Ascending(rs[..n]) && n > 0 ==> rs[n - 1].leafIndex <= rs[n].leafIndex;
      SortOfAscending(rs[..n]);
      assert rs == rs[..n] + [rs[n]];
    }
  }

  // ---------- One group ----------

  function ChainRecordOf(r: ExportRecord): ChainRecord {
    ChainRecord(r.leafIndex, FromHex(r.leaf), FromHex(r.prevRoot), FromHex(r.chainRoot))
  }

  function ChainRecords(rs: seq<ExportRecord>): (s: seq<ChainRecord>)
    ensures |s| == |rs|
  {
    seq(|rs|, i requires 0 <= i < |rs| => ChainRecordOf(rs[i]))
  }

  /** `recordToChain`. */
  function RecordToChain(rs: seq<ExportRecord>): (s: seq<ChainRecord>)
    ensures |s| == |rs|
  {
    ChainRecords(SortByIndex(rs))
  }

  /** The leaf as text against the hash of the envelope. */
  predicate LeafMatches(env: Env, r: ExportRecord) {
    ToHex(env.hash(FromHex(r.ciphertext) + FromHex(r.iv) + FromHex(r.authTag) + FromHex(r.wrappedDk))) == r.leaf
  }

  predicate LeavesMatch(env: Env, rs: seq<ExportRecord>) {
    forall i :: 0 <= i < |rs| ==> LeafMatches(env, rs[i])
  }

  function OpenEnvelope(env: Env, r: ExportRecord): Option<Bytes> {
    match env.unwrap(FromHex(r.wrappedDk))
    case None => None
    case Some(dk) => env.gcmOpen(dk, FromHex(r.iv), FromHex(r.authTag), FromHex(r.ciphertext))
  }

  datatype Reading = Unopened | Unparsed | Read(record: Json)

  /** The Edge decodes with `TextDecoder`, which drops a byte order mark; the portal with
      `Buffer.toString`, which keeps it. */
  function Stripped(site: Site, pt: Bytes): Bytes {
    if site.Edge? && BOM <= pt then pt[3..] else pt
  }

  function ReadRecord(env: Env, site: Site, r: ExportRecord): Reading {
    match OpenEnvelope(env, r)
    case None => Unopened
    case Some(pt) =>
      match env.parse(env.decode(Stripped(site, pt))) case None => Unparsed case Some(v) => Read(v)
  }

  predicate Readable(env: Env, site: Site, rs: seq<ExportRecord>) {
    forall i :: 0 <= i < |rs| ==> ReadRecord(env, site, rs[i]).Read?
  }

  function AnswerOf(env: Env, site: Site, r: ExportRecord): DecryptedAnswer {
    DecryptedAnswer(r.examId, r.seatNo, r.leafIndex, match ReadRecord(env, site, r) case Read(v) => v case _ => Null)
  }

  function Answers(env: Env, site: Site, rs: seq<ExportRecord>): (s: seq<DecryptedAnswer>)
    ensures |s| == |rs| && forall i :: 0 <= i < |s| ==> s[i] == AnswerOf(env, site, rs[i])
  {
    seq(|rs|, i requires 0 <= i < |rs| => AnswerOf(env, site, rs[i]))
  }

  /** The reading of the first record that cannot be read. */
  function FirstUnread(env: Env, site: Site, rs: seq<ExportRecord>): Reading {
    if |rs| == 0 then Unopened
    else if !ReadRecord(env, site, rs[0]).Read? then ReadRecord(env, site, rs[0])
    else FirstUnread(env, site, rs[1..])
  }

  /** The portal opens in order of index, the Edge in order of arrival. */
  function ReadingOrder(site: Site, rs: seq<ExportRecord>): (s: seq<ExportRecord>)
    ensures |s| == |rs|
  {
    if site.Portal? then SortByIndex(rs) else rs
  }

  function AnchorOf(env: Env, site: Site, b: SyncBundle, exam: string, rs: seq<ExportRecord>): AnchorPayload
    requires |rs| > 0
  {
    var last := SortByIndex(rs)[|rs| - 1];
    AnchorPayload(CentreIdHash(env, b), exam,
                  if site.Portal? then last.chainRoot else ToHex(FromHex(last.chainRoot)), |rs|, b.nodePubkey)
  }

  /** What a group's checks say; `None` means all passed. */
  function GroupRefusal(env: Env, site: Site, rs: seq<ExportRecord>): Option<Failure> {
    if !WellChained(env.hash, RecordToChain(rs)) then Some(Refused(ChainWalk))
    else if !LeavesMatch(env, rs) then Some(Refused(LeafEnvelope))
    else if !Readable(env, site, rs) then
      Some(if site.Portal? && FirstUnread(env, site, SortByIndex(rs)).Unopened? then Refused(HsmDecrypt) else Threw)
    else None
  }

  // ---------- The whole bundle ----------

  /** The refusal of the first group that has one. */
  function FirstRefusal(env: Env, site: Site, records: seq<ExportRecord>, exams: seq<string>): Option<Failure> {
    if |exams| == 0 then None
    else
      var earlier := FirstRefusal(env, site, records, exams[..|exams| - 1]);
      if earlier.Some? then earlier else GroupRefusal(env, site, Select(records, exams[|exams| - 1]))
  }

  function AllAnswers(env: Env, site: Site, records: seq<ExportRecord>, exams: seq<string>): seq<DecryptedAnswer> {
    if |exams| == 0 then []
    else
      AllAnswers(env, site, records, exams[..|exams| - 1])
      + Answers(env, site, ReadingOrder(site, Select(records, exams[|exams| - 1])))
  }

  function AllAnchors(env: Env, site: Site, b: SyncBundle, exams: seq<string>): (s: seq<AnchorPayload>)
    requires forall e :: e in exams ==> Select(b.manifest.records, e) != []
    ensures |s| == |exams|
  {
    var n := |exams| - 1;
    if |exams| == 0 then []
    else AllAnchors(env, site, b, exams[..n]) + [AnchorOf(env, site, b, exams[n], Select(b.manifest.records, exams[n]))]
  }

  lemma AnchorsLast(env: Env, site: Site, b: SyncBundle, exams: seq<string>, i: nat)
    requires i < |exams| && forall e :: e in exams ==> Select(b.manifest.records, e) != []
    ensures var n := |exams| - 1;
      AllAnchors(env, site, b, exams)[i]
      == if i < n then AllAnchors(env, site, b, exams[..n])[i]
        else AnchorOf(env, site, b, exams[i], Select(b.manifest.records, exams[i]))
  {
  }

  lemma {:induction false} AnchorAt(env: Env, site: Site, b: SyncBundle, exams: seq<string>, i: nat)
    requires i < |exams| && forall e :: e in exams ==> Select(b.manifest.records, e) != []
    ensures AllAnchors(env, site, b, exams)[i] == AnchorOf(env, site, b, exams[i], Select(b.manifest.records, exams[i]))
  {
    var n := |exams| - 1;
    AnchorsLast(env, site, b, exams, i);
    if i < n {
      AnchorAt(env, site, b, exams[..n], i);
      assert exams[..n][i] == exams[i];
    }
  }

  /** Why the bundle is not accepted, or `None`. */
  ghost function BundleRefusal(env: Env, site: Site, b: SyncBundle): Option<Failure> {
    ExamsAre(b.manifest.records);
    if ToHex(ManifestDigest(env, b.manifest)) != b.manifestHash then Some(Refused(ManifestHash))
    else if !SignatureOk(env, b) then Some(Refused(NodeSignature))
    else
      var refusal := FirstRefusal(env, site, b.manifest.records, Exams(b.manifest.records));
      if refusal.None? && site.Portal? && !AllClean(env, AllAnchors(env, site, b, Exams(b.manifest.records)))
      then Some(Refused(NoPiiAnchor)) else refusal
  }

  /** What the bundle yields when it is accepted. */
  ghost function Yield(env: Env, site: Site, b: SyncBundle): Outcome {
    ExamsAre(b.manifest.records);
    Accepted(CentreIdHash(env, b), AllAnswers(env, site, b.manifest.records, Exams(b.manifest.records)),
             AllAnchors(env, site, b, Exams(b.manifest.records)))
  }

  ghost function IngestOutcome(env: Env, site: Site, b: SyncBundle): Outcome {
    match BundleRefusal(env, site, b) case Some(f) => Failed(f) case None => Yield(env, site, b)
  }

  // ---------- The guard on anchors ----------

  const FORBIDDEN: seq<string> := ["roll", "name", "aadhaar", "dob", "ciphertext", "seat"]

  /** `s.includes(w)`. */
  predicate Contains(s: string, w: string) {
    w <= s || (|s| > 0 && Contains(s[1..], w))
  }

  function AnchorFields(env: Env, a: AnchorPayload): seq<Field> {
    [Field("centreIdHash", Str(a.centreIdHash)), Field("examId", Str(a.examId)), Field("answerRoot", Str(a.answerRoot)),
     Field("count", Num(env.number(a.count))), Field("nodePubkey", Str(a.nodePubkey))]
  }

  function AnchorJson(env: Env, a: AnchorPayload): Json {
    Obj(AnchorFields(env, a))
  }

  predicate IsBareHash(s: string) { |s| > 0 && IsLowerHex(s) }

  predicate NoForbidden(s: string) {
    forall i :: 0 <= i < |FORBIDDEN| ==> !Contains(s, FORBIDDEN[i])
  }

  predicate AnchorClean(env: Env, a: AnchorPayload) {
    && NoForbidden(Lower(Text(AnchorJson(env, a))))
    && IsBareHash(a.centreIdHash) && IsBareHash(a.answerRoot) && IsBareHash(a.nodePubkey)
  }

  predicate AllClean(env: Env, anchors: seq<AnchorPayload>) {
    forall i :: 0 <= i < |anchors| ==> AnchorClean(env, anchors[i])
  }

  /** `piiGuard`: `None` passes. */
  method PiiGuard(env: Env, a: AnchorPayload) returns (reason: Option<string>)
    ensures reason.None? <==> AnchorClean(env, a)
  {
    var blob := Lower(Text(AnchorJson(env, a)));
    for i := 0 to |FORBIDDEN|
      invariant forall j :: 0 <= j < i ==> !Contains(blob, FORBIDDEN[j])
    {
      if Contains(blob, FORBIDDEN[i]) { return Some("anchor carries forbidden field content: " + FORBIDDEN[i]); }
    }
    if !IsBareHash(a.centreIdHash) { return Some("anchor field is not a bare hash: centreIdHash"); }
    if !IsBareHash(a.answerRoot) { return Some("anchor field is not a bare hash: answerRoot"); }
    if !IsBareHash(a.nodePubkey) { return Some("anchor field is not a bare hash: nodePubkey"); }
    return None;
  }

  // ---------- The two programs ----------

  /** The portal's own walk of a sorted group. */
  method WalkChain(h: Hash, rs: seq<ExportRecord>) returns (ok: bool)
    ensures ok <==> WellChained(h, ChainRecords(rs))
  {
    ghost var chain := ChainRecords(rs);
    var prevRoot: Bytes := GENESIS;
    for i := 0 to |rs|
      invariant prevRoot == if i == 0 then GENESIS else chain[i - 1].root
      invariant forall j :: 0 <= j < i ==> LinkOk(h, chain, j)
    {
      var r := rs[i];
      assert chain[i] == ChainRecordOf(r);
      assert LinkOk(h, chain, i)
        <==> FromHex(r.prevRoot) == prevRoot && FromHex(r.chainRoot) == NextRoot(h, prevRoot, FromHex(r.leaf));
      if FromHex(r.prevRoot) != prevRoot { return false; }
      var root := NextRoot(h, prevRoot, FromHex(r.leaf));
      if FromHex(r.chainRoot) != root { return false; }
      prevRoot := root;
    }
    return true;
  }

  method CheckLeaves(env: Env, rs: seq<ExportRecord>) returns (ok: bool)
    ensures ok <==> LeavesMatch(env, rs)
  {
    for i := 0 to |rs|
      invariant forall j :: 0 <= j < i ==> LeafMatches(env, rs[j])
    {
      if !LeafMatches(env, rs[i]) { return false; }
    }
    return true;
  }

  /** Opens and parses one record after the other, up to the first failure. */
  method OpenAll(env: Env, site: Site, exam: string, rs: seq<ExportRecord>)
    returns (failure: Option<Reading>, answers: seq<DecryptedAnswer>)
    requires forall r :: r in rs ==> r.examId == exam
    ensures failure.None? <==> Readable(env, site, rs)
    ensures failure.Some? ==> failure.value == FirstUnread(env, site, rs)
    ensures failure.None? ==> answers == Answers(env, site, rs)
  {
    answers := [];
    for i := 0 to |rs|
      invariant |answers| == i
      invariant forall j :: 0 <= j < i
                  ==> ReadRecord(env, site, rs[j]).Read? && answers[j] == AnswerOf(env, site, rs[j])
      invariant FirstUnread(env, site, rs) == FirstUnread(env, site, rs[i..])
    {
      var r := rs[i];
      assert r in rs;
      assert rs[i..][1..] == rs[i + 1..];
      var reading := ReadRecord(env, site, r);
      if !reading.Read? { return Some(reading), []; }
      answers := answers + [DecryptedAnswer(exam, r.seatNo, r.leafIndex, reading.record)];
    }
    return None, answers;
  }

  lemma {:induction false} SelectIs(records: seq<ExportRecord>, exam: string)
    ensures forall r :: r in Select(records, exam) <==> r in records && r.examId == exam
  {
    if |records| > 0 {
      var n := |records| - 1;
      SelectIs(records[..n], exam);
      assert records == records[..n] + [records[n]];
    }
  }

  lemma SortedExam(rs: seq<ExportRecord>, exam: string)
    requires forall r :: r in rs ==> r.examId == exam
    ensures forall r :: r in SortByIndex(rs) ==> r.examId == exam
  {
    SortSpec(rs);
    forall r | r in SortByIndex(rs) ensures r.examId == exam {
      SameElements(SortByIndex(rs), rs, r);
    }
  }

  lemma ReadableSame(env: Env, site: Site, rs: seq<ExportRecord>, s: seq<ExportRecord>)
    requires multiset(rs) == multiset(s) && Readable(env, site, rs)
    ensures Readable(env, site, s)
  {
    forall i | 0 <= i < |s| ensures ReadRecord(env, site, s[i]).Read? {
      SameElements(s, rs, s[i]);
    }
  }

  lemma ReadableAnyOrder(env: Env, site: Site, rs: seq<ExportRecord>)
    ensures Readable(env, site, SortByIndex(rs)) <==> Readable(env, site, rs)
  {
    SortSpec(rs);
    if Readable(env, site, rs) {
      ReadableSame(env, site, rs, SortByIndex(rs));
    } else if Readable(env, site, SortByIndex(rs)) {
      ReadableSame(env, site, SortByIndex(rs), rs);
    }
  }

  lemma LeavesSame(env: Env, rs: seq<ExportRecord>, s: seq<ExportRecord>)
    requires multiset(rs) == multiset(s) && LeavesMatch(env, rs)
    ensures LeavesMatch(env, s)
  {
    forall i | 0 <= i < |s| ensures LeafMatches(env, s[i]) {
      SameElements(s, rs, s[i]);
    }
  }

  lemma LeavesAnyOrder(env: Env, rs: seq<ExportRecord>)
    ensures LeavesMatch(env, SortByIndex(rs)) <==> LeavesMatch(env, rs)
  {
    SortSpec(rs);
    if LeavesMatch(env, rs) {
      LeavesSame(env, rs, SortByIndex(rs));
    } else if LeavesMatch(env, SortByIndex(rs)) {
      LeavesSame(env, SortByIndex(rs), rs);
    }
  }

  lemma {:induction false} RefusalStands(env: Env, site: Site, records: seq<ExportRecord>, exams: seq<string>, k: nat)
    requires k <= |exams| && FirstRefusal(env, site, records, exams[..k]).Some?
    ensures FirstRefusal(env, site, records, exams) == FirstRefusal(env, site, records, exams[..k])
  {
    if k < |exams| {
      assert exams[..|exams| - 1][..k] == exams[..k];
      RefusalStands(env, site, records, exams[..|exams| - 1], k);
    } else {
      assert exams[..k] == exams;
    }
  }

  /** The checks of one group in the portal. */
  method PortalGroup(env: Env, exam: string, rs: seq<ExportRecord>)
    returns (refusal: Option<Failure>, answers: seq<DecryptedAnswer>)
    requires forall r :: r in rs ==> r.examId == exam
    ensures refusal == GroupRefusal(env, Portal, rs)
    ensures refusal.None? ==> answers == Answers(env, Portal, ReadingOrder(Portal, rs))
  {
    SortedExam(rs, exam);
    ReadableAnyOrder(env, Portal, rs);
    LeavesAnyOrder(env, rs);
    var sorted := SortByIndex(rs);
    var walked := WalkChain(env.hash, sorted);
    if !walked { return Some(Refused(ChainWalk)), []; }
    var leavesOk := CheckLeaves(env, sorted);
    if !leavesOk { return Some(Refused(LeafEnvelope)), []; }
    var failure;
    failure, answers := OpenAll(env, Portal, exam, sorted);
    if failure.Some? { return Some(if failure.value.Unopened? then Refused(HsmDecrypt) else Threw), []; }
    return None, answers;
  }

  /** The checks of one group on the Edge side: `verifyChain` on a sorted copy, the rest in order of
      arrival. */
  method EdgeGroup(env: Env, exam: string, rs: seq<ExportRecord>)
    returns (refusal: Option<Failure>, answers: seq<DecryptedAnswer>)
    requires forall r :: r in rs ==> r.examId == exam
    ensures refusal == GroupRefusal(env, Edge, rs)
    ensures refusal.None? ==> answers == Answers(env, Edge, ReadingOrder(Edge, rs))
  {
    var brokenAt := VerifyChain(env.hash, RecordToChain(rs));
    if brokenAt.Some? { return Some(Refused(ChainWalk)), []; }
    var leavesOk := CheckLeaves(env, rs);
    if !leavesOk { return Some(Refused(LeafEnvelope)), []; }
    var failure;
    failure, answers := OpenAll(env, Edge, exam, rs);
    if failure.Some? { return Some(Threw), []; }
    return None, answers;
  }

  /** The first `i` exams passed, with these results. */
  ghost predicate Passed(env: Env, site: Site, b: SyncBundle, exams: seq<string>, i: nat,
                         decrypted: seq<DecryptedAnswer>, anchors: seq<AnchorPayload>)
    requires i <= |exams| && forall e :: e in exams ==> Select(b.manifest.records, e) != []
  {
    && FirstRefusal(env, site, b.manifest.records, exams[..i]).None?
    && decrypted == AllAnswers(env, site, b.manifest.records, exams[..i])
    && anchors == AllAnchors(env, site, b, exams[..i])
  }

  lemma PassOne(env: Env, site: Site, b: SyncBundle, exams: seq<string>, i: nat,
                decrypted: seq<DecryptedAnswer>, anchors: seq<AnchorPayload>)
    requires i < |exams| && forall e :: e in exams ==> Select(b.manifest.records, e) != []
    requires Passed(env, site, b, exams, i, decrypted, anchors)
    ensures var rs := Select(b.manifest.records, exams[i]);
      match GroupRefusal(env, site, rs)
      case Some(_) => FirstRefusal(env, site, b.manifest.records, exams) == GroupRefusal(env, site, rs)
      case None => Passed(env, site, b, exams, i + 1, decrypted + Answers(env, site, ReadingOrder(site, rs)),
                          anchors + [AnchorOf(env, site, b, exams[i], rs)])
  {
    assert exams[..i + 1][..i] == exams[..i];
    if GroupRefusal(env, site, Select(b.manifest.records, exams[i])).Some? {
      RefusalStands(env, site, b.manifest.records, exams, i + 1);
    }
  }

  /** The portal's loop over the exams. */
  method PortalGroups(env: Env, b: SyncBundle)
    returns (refusal: Option<Failure>, decrypted: seq<DecryptedAnswer>, anchors: seq<AnchorPayload>)
    requires forall e :: e in Exams(b.manifest.records) ==> Select(b.manifest.records, e) != []
    ensures refusal == FirstRefusal(env, Portal, b.manifest.records, Exams(b.manifest.records))
    ensures refusal.None? ==> decrypted == AllAnswers(env, Portal, b.manifest.records, Exams(b.manifest.records))
    ensures refusal.None? ==> anchors == AllAnchors(env, Portal, b, Exams(b.manifest.records))
  {
    var order, byExam := GroupByExam(b.manifest.records);
    decrypted, anchors := [], [];
    for i := 0 to |order|
      invariant Passed(env, Portal, b, order, i, decrypted, anchors)
    {
      var rs := byExam[order[i]];
      SelectIs(b.manifest.records, order[i]);
      PassOne(env, Portal, b, order, i, decrypted, anchors);
      var answers;
      refusal, answers := PortalGroup(env, order[i], rs);
      if refusal.Some? { return; }
      decrypted := decrypted + answers;
      anchors := anchors + [AnchorOf(env, Portal, b, order[i], rs)];
    }
    assert order[..|order|] == order;
    refusal := None;
  }

  /** The Edge's loop over the exams. */
  method EdgeGroups(env: Env, b: SyncBundle)
    returns (refusal: Option<Failure>, decrypted: seq<DecryptedAnswer>, anchors: seq<AnchorPayload>)
    requires forall e :: e in Exams(b.manifest.records) ==> Select(b.manifest.records, e) != []
    ensures refusal == FirstRefusal(env, Edge, b.manifest.records, Exams(b.manifest.records))
    ensures refusal.None? ==> decrypted == AllAnswers(env, Edge, b.manifest.records, Exams(b.manifest.records))
    ensures refusal.None? ==> anchors == AllAnchors(env, Edge, b, Exams(b.manifest.records))
  {
    var order, byExam := GroupByExam(b.manifest.records);
    decrypted, anchors := [], [];
    for i := 0 to |order|
      invariant Passed(env, Edge, b, order, i, decrypted, anchors)
    {
      var rs := byExam[order[i]];
      SelectIs(b.manifest.records, order[i]);
      PassOne(env, Edge, b, order, i, decrypted, anchors);
      var answers;
      refusal, answers := EdgeGroup(env, order[i], rs);
      if refusal.Some? { return; }
      decrypted := decrypted + answers;
      anchors := anchors + [AnchorOf(env, Edge, b, order[i], rs)];
    }
    assert order[..|order|] == order;
    refusal := None;
  }

  method GuardAnchors(env: Env, anchors: seq<AnchorPayload>) returns (ok: bool)
    ensures ok <==> AllClean(env, anchors)
  {
    for i := 0 to |anchors|
      invariant forall j :: 0 <= j < i ==> AnchorClean(env, anchors[j])
    {
      var reason := PiiGuard(env, anchors[i]);
      if reason.Some? { return false; }
    }
    return true;
  }

  /** `ingestBundle` of the portal. */
  method IngestBundle(env: Env, b: SyncBundle) returns (r: Outcome)
    ensures r == IngestOutcome(env, Portal, b)
  {
    if ToHex(ManifestDigest(env, b.manifest)) != b.manifestHash { return Failed(Refused(ManifestHash)); }
    if !SignatureOk(env, b) { return Failed(Refused(NodeSignature)); }
    ExamsAre(b.manifest.records);
    var refusal, decrypted, anchors := PortalGroups(env, b);
    if refusal.Some? { return Failed(refusal.value); }
    var clean := GuardAnchors(env, anchors);
    if !clean { return Failed(Refused(NoPiiAnchor)); }
    return Accepted(CentreIdHash(env, b), decrypted, anchors);
  }

  /** `ingest` of the Edge repository. */
  method Ingest(env: Env, b: SyncBundle) returns (r: Outcome)
    ensures r == IngestOutcome(env, Edge, b)
  {
    if ToHex(ManifestDigest(env, b.manifest)) != b.manifestHash { return Failed(Refused(ManifestHash)); }
    if !SignatureOk(env, b) { return Failed(Refused(NodeSignature)); }
    ExamsAre(b.manifest.records);
    var refusal, decrypted, anchors := EdgeGroups(env, b);
    if refusal.Some? { return Failed(refusal.value); }
    return Accepted(CentreIdHash(env, b), decrypted, anchors);
  }
}
