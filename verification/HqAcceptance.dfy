/** What headquarters checks, written out in the bundle's own fields: the two checks of the whole bundle, those
    of a record, those of an exam's chain, and what acceptance yields. */
module HqAcceptance {
  import opened ByteStrings
  import opened MerkleChain
  import opened JsonText
  import opened CanonicalText
  import opened HqIngest
  import opened AnchorGuard
  import opened HqAgreement

  // ---------- The refusals of the whole bundle ----------

  ghost predicate GroupFailure(f: Option<Failure>) {
    f.Some? && f != Some(Refused(ManifestHash)) && f != Some(Refused(NodeSignature)) && f != Some(Refused(NoPiiAnchor))
  }

  lemma {:induction false} GroupsFailOtherwise(env: Env, site: Site, records: seq<ExportRecord>, exams: seq<string>)
    ensures FirstRefusal(env, site, records, exams).Some? ==> GroupFailure(FirstRefusal(env, site, records, exams))
  {
    if |exams| > 0 {
      GroupsFailOtherwise(env, site, records, exams[..|exams| - 1]);
    }
  }

  /** The first check: the SHA-256 of the manifest's canonical JSON, in hexadecimal, is the text sent along. */
  lemma WrongHashRefusedIff(env: Env, site: Site, b: SyncBundle)
    ensures IngestOutcome(env, site, b) == Failed(Refused(ManifestHash))
       <==> ToHex(env.hash(env.utf8(CanonicalJson(ManifestJson(env, b.manifest))))) != b.manifestHash
  {
    GroupsFailOtherwise(env, site, b.manifest.records, Exams(b.manifest.records));
  }

  /** The second: key and signature have their lengths, and the node signed that hash. */
  lemma UnsignedRefusedIff(env: Env, site: Site, b: SyncBundle)
    ensures var digest := env.hash(env.utf8(CanonicalJson(ManifestJson(env, b.manifest))));
      var pub, sig := FromHex(b.nodePubkey), FromHex(b.nodeSig);
      IngestOutcome(env, site, b) == Failed(Refused(NodeSignature))
      <==> ToHex(digest) == b.manifestHash && !(|pub| == 32 && |sig| == 64 && env.verify(pub, digest, sig))
  {
    GroupsFailOtherwise(env, site, b.manifest.records, Exams(b.manifest.records));
  }

  // ---------- The checks of a record ----------

  /** The bytes of the envelope hash to the leaf as spelt; the wrapped key opens and so does the ciphertext
      under it; and the text is JSON of `v`. The Edge drops a byte order mark first. */
  ghost predicate OpensTo(env: Env, site: Site, r: ExportRecord, v: Json) {
    var ct, iv, tag, wrapped := FromHex(r.ciphertext), FromHex(r.iv), FromHex(r.authTag), FromHex(r.wrappedDk);
    && r.leaf == ToHex(env.hash(ct + iv + tag + wrapped))
    && exists dk, pt :: env.unwrap(wrapped) == Some(dk) && env.gcmOpen(dk, iv, tag, ct) == Some(pt)
         && env.parse(env.decode(if site == Edge && [0xEF, 0xBB, 0xBF] <= pt then pt[3..] else pt)) == Some(v)
  }

  ghost predicate Opens(env: Env, site: Site, r: ExportRecord) {
    exists v :: OpensTo(env, site, r, v)
  }

  lemma OpensIff(env: Env, site: Site, r: ExportRecord, v: Json)
    ensures OpensTo(env, site, r, v) <==> LeafMatches(env, r) && ReadRecord(env, site, r) == Read(v)
  {
  }

  lemma OpensWhen(env: Env, site: Site, r: ExportRecord)
    ensures Opens(env, site, r) <==> LeafMatches(env, r) && ReadRecord(env, site, r).Read?
  {
    if ReadRecord(env, site, r).Read? {
      OpensIff(env, site, r, ReadRecord(env, site, r).record);
    }
    if v :| OpensTo(env, site, r, v) {
      OpensIff(env, site, r, v);
    }
  }

  ghost predicate AllOpen(env: Env, site: Site, rs: seq<ExportRecord>) {
    forall i :: 0 <= i < |rs| ==> Opens(env, site, rs[i])
  }

  lemma AllOpenIff(env: Env, site: Site, rs: seq<ExportRecord>)
    ensures AllOpen(env, site, rs) <==> LeavesMatch(env, rs) && Readable(env, site, rs)
  {
    forall i | 0 <= i < |rs|
      ensures Opens(env, site, rs[i]) <==> LeafMatches(env, rs[i]) && ReadRecord(env, site, rs[i]).Read?
    {
      OpensWhen(env, site, rs[i]);
    }
  }

  // ---------- The order of exams and records ----------

  /** The exams are listed in the order in which they first appear. */
  lemma {:induction false} ExamsInOrder(records: seq<ExportRecord>, i: nat, j: nat)
    requires i < j < |Exams(records)|
    ensures exists k :: 0 <= k < |records| && records[k].examId == Exams(records)[i]
              && forall m :: 0 <= m <= k ==> records[m].examId != Exams(records)[j]
  {
    var n := |records| - 1;
    var init := records[..n];
    ExamsAre(init);
    if j < |Exams(init)| {
      ExamsInOrder(init, i, j);
      var k :| 0 <= k < |init| && init[k].examId == Exams(init)[i]
        && forall m :: 0 <= m <= k ==> init[m].examId != Exams(init)[j];
      assert records[k] == init[k];
      assert forall m :: 0 <= m <= k ==> records[m] == init[m];
    } else {
      SelectIs(init, Exams(init)[i]);
      assert Exams(init)[i] in Exams(init);
      assert Select(init, Exams(init)[i])[0] in init;
      var k :| 0 <= k < |init| && init[k] == Select(init, Exams(init)[i])[0];
      ExamNotBefore(init, records[n].examId, k);
    }
  }

  lemma ExamNotBefore(init: seq<ExportRecord>, e: string, k: nat)
    requires e !in Exams(init) && k < |init|
    ensures forall m :: 0 <= m <= k ==> init[m].examId != e
  {
    ExamsAre(init);
    SelectIs(init, e);
    forall m | 0 <= m <= k ensures init[m].examId != e {
      assert init[m] in init;
    }
  }

  /** The records of one exam are in order of arrival. */
  lemma {:induction false} SelectedInOrder(records: seq<ExportRecord>, e: string) returns (at: seq<nat>)
    ensures |at| == |Select(records, e)| && forall i :: 0 <= i < |at| ==> at[i] < |records|
    ensures forall i :: 0 <= i < |at| ==> Select(records, e)[i] == records[at[i]]
    ensures forall i, j :: 0 <= i < j < |at| ==> at[i] < at[j]
    ensures forall k :: 0 <= k < |records| && records[k].examId == e ==> k in at
  {
    at := [];
    if |records| > 0 {
      var n := |records| - 1;
      at := SelectedInOrder(records[..n], e);
      forall k | 0 <= k < n && records[k].examId == e ensures k in at {
        assert records[..n][k] == records[k];
      }
      if records[n].examId == e {
        at := at + [n];
      }
    }
  }

  /** Groups one after the other. */
  function Flat<T>(groups: seq<seq<T>>): seq<T> {
    if |groups| == 0 then [] else Flat(groups[..|groups| - 1]) + groups[|groups| - 1]
  }

  lemma {:induction false} FlatAt<T>(groups: seq<seq<T>>, x: nat) returns (i: nat, a: nat)
    requires x < |Flat(groups)|
    ensures i < |groups| && a < |groups[i]| && Flat(groups)[x] == groups[i][a]
  {
    var n := |groups| - 1;
    var size := |Flat(groups[..n])|;
    if x < size {
      i, a := FlatAt(groups[..n], x);
    } else {
      i, a := n, x - size;
    }
  }

  lemma {:induction false} FlatInTurn<T>(groups: seq<seq<T>>, x: nat, y: nat) returns (i: nat, a: nat, j: nat, b: nat)
    requires x < y < |Flat(groups)|
    ensures i < |groups| && a < |groups[i]| && Flat(groups)[x] == groups[i][a]
    ensures j < |groups| && b < |groups[j]| && Flat(groups)[y] == groups[j][b]
    ensures i < j || (i == j && a < b)
  {
    var n := |groups| - 1;
    var size := |Flat(groups[..n])|;
    if y < size {
      i, a, j, b := FlatInTurn(groups[..n], x, y);
    } else if x < size {
      i, a := FlatAt(groups[..n], x);
      j, b := n, y - size;
    } else {
      i, a, j, b := n, x - size, n, y - size;
    }
  }

  /** The answers of the exams, exam by exam. */
  function AnswerGroups(env: Env, site: Site, records: seq<ExportRecord>, exams: seq<string>)
    : (groups: seq<seq<DecryptedAnswer>>)
    ensures |groups| == |exams|
  {
    seq(|exams|, i requires 0 <= i < |exams| => Answers(env, site, ReadingOrder(site, Select(records, exams[i]))))
  }

  lemma {:induction false} AnswersFlat(env: Env, site: Site, records: seq<ExportRecord>, exams: seq<string>)
    ensures AllAnswers(env, site, records, exams) == Flat(AnswerGroups(env, site, records, exams))
  {
    if |exams| > 0 {
      var n := |exams| - 1;
      AnswersFlat(env, site, records, exams[..n]);
      assert AnswerGroups(env, site, records, exams)[..n] == AnswerGroups(env, site, records, exams[..n]);
    }
  }

  /** Answer `x` is record `a` of the exam's group. */
  ghost predicate IsAnswer(env: Env, site: Site, records: seq<ExportRecord>, answer: DecryptedAnswer, e: string,
                           a: nat) {
    a < |ReadingOrder(site, Select(records, e))|
    && answer == AnswerOf(env, site, ReadingOrder(site, Select(records, e))[a])
  }

  lemma GroupAnswer(env: Env, site: Site, records: seq<ExportRecord>, exams: seq<string>, i: nat, a: nat)
    requires i < |exams| && a < |AnswerGroups(env, site, records, exams)[i]|
    ensures IsAnswer(env, site, records, AnswerGroups(env, site, records, exams)[i][a], exams[i], a)
  {
  }

  /** The answers of an earlier exam come first, and those of one exam in the order of reading. */
  lemma AnswersInTurn(env: Env, site: Site, records: seq<ExportRecord>, exams: seq<string>, x: nat, y: nat)
    returns (i: nat, a: nat, j: nat, b: nat)
    requires x < y < |AllAnswers(env, site, records, exams)|
    ensures i < |exams| && IsAnswer(env, site, records, AllAnswers(env, site, records, exams)[x], exams[i], a)
    ensures j < |exams| && IsAnswer(env, site, records, AllAnswers(env, site, records, exams)[y], exams[j], b)
    ensures i < j || (i == j && a < b)
  {
    AnswersFlat(env, site, records, exams);
    i, a, j, b := FlatInTurn(AnswerGroups(env, site, records, exams), x, y);
    GroupAnswer(env, site, records, exams, i, a);
    GroupAnswer(env, site, records, exams, j, b);
  }

  /** The portal reads an exam by index, the Edge in order of arrival. */
  lemma AnswersOfExam(env: Env, site: Site, records: seq<ExportRecord>, e: string, x: DecryptedAnswer, a: nat,
                      y: DecryptedAnswer, b: nat)
    requires a < b && IsAnswer(env, site, records, x, e, a) && IsAnswer(env, site, records, y, e, b)
    ensures if site == Portal then x.leafIndex <= y.leafIndex
            else exists k, m :: 0 <= k < m < |records| && x == AnswerOf(env, site, records[k])
                   && y == AnswerOf(env, site, records[m])
  {
    if site == Portal {
      SortSpec(Select(records, e));
    } else {
      var at := SelectedInOrder(records, e);
      assert at[a] < at[b];
    }
  }

  // ---------- The checks of an exam ----------

  /** Root `i` is the hash of the one before, 32 zero bytes at first, and the leaf. */
  predicate RunsAt(h: Hash, rs: seq<ExportRecord>, i: nat)
    requires i < |rs|
  {
    && FromHex(rs[i].prevRoot) == (if i == 0 then Zeros(32) else FromHex(rs[i - 1].chainRoot))
    && FromHex(rs[i].chainRoot) == h(FromHex(rs[i].prevRoot) + FromHex(rs[i].leaf))
  }

  ghost predicate RunsFromZero(h: Hash, rs: seq<ExportRecord>) {
    forall i :: 0 <= i < |rs| ==> RunsAt(h, rs, i)
  }

  lemma RunsIff(h: Hash, rs: seq<ExportRecord>)
    ensures RunsFromZero(h, rs) <==> WellChained(h, ChainRecords(rs))
  {
    var chain := ChainRecords(rs);
    forall i | 0 <= i < |rs| ensures LinkOk(h, chain, i) <==> RunsAt(h, rs, i) {
      assert chain[i] == ChainRecordOf(rs[i]);
      assert i > 0 ==> chain[i - 1] == ChainRecordOf(rs[i - 1]);
    }
  }

  /** The records of one exam in order of index. */
  function InOrderOf(records: seq<ExportRecord>, e: string): seq<ExportRecord> {
    SortByIndex(Select(records, e))
  }

  /** They are all of them, ascending, those of equal index in order of arrival. */
  lemma InOrderIs(records: seq<ExportRecord>, e: string)
    ensures Ascending(InOrderOf(records, e))
    ensures forall r :: r in InOrderOf(records, e) <==> r in records && r.examId == e
    ensures forall k :: WithIndex(InOrderOf(records, e), k) == WithIndex(Select(records, e), k)
  {
    SortSpec(Select(records, e));
    SelectIs(records, e);
    forall r ensures r in InOrderOf(records, e) <==> r in Select(records, e) {
      SameElements(InOrderOf(records, e), Select(records, e), r);
    }
  }

  lemma GroupIff(env: Env, site: Site, records: seq<ExportRecord>, e: string)
    ensures GroupOk(env, site, Select(records, e)) <==>
      RunsFromZero(env.hash, InOrderOf(records, e)) && AllOpen(env, site, Select(records, e))
  {
    RunsIff(env.hash, InOrderOf(records, e));
    AllOpenIff(env, site, Select(records, e));
  }

  ghost predicate RecordsOpen(env: Env, site: Site, records: seq<ExportRecord>) {
    forall r :: r in records ==> Opens(env, site, r)
  }

  ghost predicate ExamsOpen(env: Env, site: Site, records: seq<ExportRecord>) {
    forall e :: e in Exams(records) ==> AllOpen(env, site, Select(records, e))
  }

  lemma OpenInExam(env: Env, site: Site, records: seq<ExportRecord>, e: string)
    requires RecordsOpen(env, site, records)
    ensures AllOpen(env, site, Select(records, e))
  {
    SelectIs(records, e);
    forall i | 0 <= i < |Select(records, e)| ensures Opens(env, site, Select(records, e)[i]) {
      assert Select(records, e)[i] in records;
    }
  }

  lemma OpenFromExam(env: Env, site: Site, records: seq<ExportRecord>, r: ExportRecord)
    requires ExamsOpen(env, site, records) && r in records
    ensures Opens(env, site, r)
  {
    SelectIs(records, r.examId);
    ExamsAre(records);
    var rs := Select(records, r.examId);
    assert r in rs;
    var i :| 0 <= i < |rs| && rs[i] == r;
    assert AllOpen(env, site, rs);
  }

  lemma OpenByExam(env: Env, site: Site, records: seq<ExportRecord>)
    ensures RecordsOpen(env, site, records) <==> ExamsOpen(env, site, records)
  {
    if RecordsOpen(env, site, records) {
      forall e | e in Exams(records) ensures AllOpen(env, site, Select(records, e)) {
        OpenInExam(env, site, records, e);
      }
    }
    if ExamsOpen(env, site, records) {
      forall r | r in records ensures Opens(env, site, r) {
        OpenFromExam(env, site, records, r);
      }
    }
  }

  // ---------- Which check refuses ----------

  /** The data key and the ciphertext open, whatever is inside. */
  ghost predicate Unlocks(env: Env, r: ExportRecord) {
    exists dk :: env.unwrap(FromHex(r.wrappedDk)) == Some(dk)
      && env.gcmOpen(dk, FromHex(r.iv), FromHex(r.authTag), FromHex(r.ciphertext)).Some?
  }

  ghost predicate LeafIsHash(env: Env, r: ExportRecord) {
    r.leaf == ToHex(env.hash(FromHex(r.ciphertext) + FromHex(r.iv) + FromHex(r.authTag) + FromHex(r.wrappedDk)))
  }

  ghost predicate LeavesAreHashes(env: Env, records: seq<ExportRecord>, e: string) {
    forall r :: r in records && r.examId == e ==> LeafIsHash(env, r)
  }

  lemma LeavesIff(env: Env, records: seq<ExportRecord>, e: string)
    ensures LeavesAreHashes(env, records, e) <==> LeavesMatch(env, Select(records, e))
  {
    var rs := Select(records, e);
    SelectIs(records, e);
    if LeavesAreHashes(env, records, e) {
      forall i | 0 <= i < |rs| ensures LeafMatches(env, rs[i]) {
        assert rs[i] in rs && LeafIsHash(env, rs[i]);
      }
    }
    if LeavesMatch(env, rs) {
      forall r | r in records && r.examId == e ensures LeafIsHash(env, r) {
        assert r in rs;
        var i :| 0 <= i < |rs| && rs[i] == r;
        assert LeafMatches(env, rs[i]);
      }
    }
  }

  /** An exam is refused for its chain before its leaves, and for its leaves before anything is decrypted. */
  lemma ExamRefusedFor(env: Env, site: Site, records: seq<ExportRecord>, e: string)
    ensures var f := GroupRefusal(env, site, Select(records, e));
      var runs, hashed := RunsFromZero(env.hash, InOrderOf(records, e)), LeavesAreHashes(env, records, e);
      && (f == Some(Refused(ChainWalk)) <==> !runs)
      && (f == Some(Refused(LeafEnvelope)) <==> runs && !hashed)
      && (f in {Some(Refused(HsmDecrypt)), Some(Threw)} <==> runs && hashed && !AllOpen(env, site, Select(records, e)))
      && (f == None <==> runs && AllOpen(env, site, Select(records, e)))
  {
    RunsIff(env.hash, InOrderOf(records, e));
    LeavesIff(env, records, e);
    AllOpenIff(env, site, Select(records, e));
  }

  lemma {:induction false} FirstUnreadAt(env: Env, site: Site, rs: seq<ExportRecord>, i: nat)
    requires i < |rs| && !ReadRecord(env, site, rs[i]).Read?
    requires forall j :: 0 <= j < i ==> ReadRecord(env, site, rs[j]).Read?
    ensures FirstUnread(env, site, rs) == ReadRecord(env, site, rs[i])
  {
    if i > 0 {
      FirstUnreadAt(env, site, rs[1..], i - 1);
    }
  }

  ghost predicate FirstClosed(env: Env, site: Site, rs: seq<ExportRecord>, i: nat) {
    i < |rs| && !Opens(env, site, rs[i]) && forall j :: 0 <= j < i ==> Opens(env, site, rs[j])
  }

  lemma FirstClosedUnread(env: Env, site: Site, rs: seq<ExportRecord>, i: nat)
    requires LeavesMatch(env, rs) && FirstClosed(env, site, rs, i)
    ensures FirstUnread(env, site, rs) == ReadRecord(env, site, rs[i]) && !ReadRecord(env, site, rs[i]).Read?
  {
    OpensWhen(env, site, rs[i]);
    assert LeafMatches(env, rs[i]);
    forall j | 0 <= j < i ensures ReadRecord(env, site, rs[j]).Read? {
      OpensWhen(env, site, rs[j]);
    }
    FirstUnreadAt(env, site, rs, i);
  }

  lemma UnlocksIff(env: Env, site: Site, r: ExportRecord)
    ensures ReadRecord(env, site, r).Unopened? <==> !Unlocks(env, r)
  {
  }

  lemma UnreadableGroup(env: Env, site: Site, rs: seq<ExportRecord>)
    requires GroupRefusal(env, site, rs) in {Some(Refused(HsmDecrypt)), Some(Threw)}
    ensures LeavesMatch(env, rs)
    ensures GroupRefusal(env, site, rs)
      == Some(if site == Portal && FirstUnread(env, site, SortByIndex(rs)).Unopened? then Refused(HsmDecrypt)
        else Threw)
  {
  }

  /** The portal names the check of decryption if the first record in order of index that cannot be read does
      not open; anything else that cannot be read, and all on the Edge side, is an exception. */
  lemma UnreadableRefusedAs(env: Env, site: Site, records: seq<ExportRecord>, e: string, i: nat)
    requires GroupRefusal(env, site, Select(records, e)) in {Some(Refused(HsmDecrypt)), Some(Threw)}
    requires FirstClosed(env, site, InOrderOf(records, e), i)
    ensures GroupRefusal(env, site, Select(records, e))
      == Some(if site == Portal && !Unlocks(env, InOrderOf(records, e)[i]) then Refused(HsmDecrypt) else Threw)
  {
    UnreadableGroup(env, site, Select(records, e));
    LeavesAnyOrder(env, Select(records, e));
    FirstClosedUnread(env, site, InOrderOf(records, e), i);
    UnlocksIff(env, site, InOrderOf(records, e)[i]);
  }

  /** Exam `k` is the first that is refused. */
  ghost predicate FirstRefused(env: Env, site: Site, records: seq<ExportRecord>, k: nat) {
    var exams := Exams(records);
    && k < |exams| && GroupRefusal(env, site, Select(records, exams[k])).Some?
    && forall j :: 0 <= j < k ==> GroupRefusal(env, site, Select(records, exams[j])).None?
  }

  lemma FirstRefusedDecides(env: Env, site: Site, records: seq<ExportRecord>, k: nat)
    requires FirstRefused(env, site, records, k)
    ensures FirstRefusal(env, site, records, Exams(records))
      == GroupRefusal(env, site, Select(records, Exams(records)[k]))
  {
    var exams := Exams(records);
    forall e | e in exams[..k] ensures GroupOk(env, site, Select(records, e)) {
      var j :| 0 <= j < k && exams[..k][j] == e;
      assert GroupRefusal(env, site, Select(records, exams[j])).None?;
    }
    NoRefusalIff(env, site, records, exams[..k]);
    assert exams[..k + 1][..k] == exams[..k];
    RefusalStands(env, site, records, exams, k + 1);
  }

  /** Of a bundle that is signed, the first exam in order of appearance that is refused decides. */
  lemma FirstExamDecides(env: Env, site: Site, b: SyncBundle, k: nat)
    requires var digest := env.hash(env.utf8(CanonicalJson(ManifestJson(env, b.manifest))));
      && ToHex(digest) == b.manifestHash && |FromHex(b.nodePubkey)| == 32 && |FromHex(b.nodeSig)| == 64
      && env.verify(FromHex(b.nodePubkey), digest, FromHex(b.nodeSig))
    requires FirstRefused(env, site, b.manifest.records, k)
    ensures var records := b.manifest.records;
      IngestOutcome(env, site, b) == Failed(GroupRefusal(env, site, Select(records, Exams(records)[k])).value)
  {
    FirstRefusedDecides(env, site, b.manifest.records, k);
  }

  // ---------- Acceptance ----------

  /** Nothing but digits and small letters up to `f`, and something of that. */
  predicate IsBare(s: string) {
    |s| > 0 && forall i :: 0 <= i < |s| ==> '0' <= s[i] <= '9' || 'a' <= s[i] <= 'f'
  }

  /** The exam's anchor may be published: a clean id, and a last root and a node key that are bare. */
  predicate MayGoOut(b: SyncBundle, e: string) {
    var rs := InOrderOf(b.manifest.records, e);
    ExamIdClean(e) && |rs| > 0 && IsBare(rs[|rs| - 1].chainRoot) && IsBare(b.nodePubkey)
  }

  ghost predicate AllMayGoOut(b: SyncBundle) {
    forall e :: e in Exams(b.manifest.records) ==> MayGoOut(b, e)
  }

  lemma MayGoOutIff(b: SyncBundle)
    requires forall e :: e in Exams(b.manifest.records) ==> Select(b.manifest.records, e) != []
    ensures Publishable(b) <==> AllMayGoOut(b)
  {
    forall e | e in Exams(b.manifest.records) ensures ExamPublishable(b, e) <==> MayGoOut(b, e) {
    }
  }

  ghost predicate ChainsRun(h: Hash, records: seq<ExportRecord>) {
    forall e :: e in Exams(records) ==> RunsFromZero(h, InOrderOf(records, e))
  }

  lemma GroupsIff(env: Env, site: Site, records: seq<ExportRecord>)
    ensures GroupsOk(env, site, records, Exams(records))
      <==> ChainsRun(env.hash, records) && RecordsOpen(env, site, records)
  {
    OpenByExam(env, site, records);
    forall e | e in Exams(records)
      ensures GroupOk(env, site, Select(records, e)) <==>
        RunsFromZero(env.hash, InOrderOf(records, e)) && AllOpen(env, site, Select(records, e))
    {
      GroupIff(env, site, records, e);
    }
  }

  /** A bundle is accepted exactly if its hash is right, the node signed it, every record opens and every
      exam's chain runs from zero; and in the portal, if exam ids are clean, last roots and key bare. */
  lemma AcceptedExactly(env: Env, site: Site, b: SyncBundle)
    ensures var digest := env.hash(env.utf8(CanonicalJson(ManifestJson(env, b.manifest))));
      var pub, sig := FromHex(b.nodePubkey), FromHex(b.nodeSig);
      IngestOutcome(env, site, b).Accepted? <==>
        && ToHex(digest) == b.manifestHash
        && |pub| == 32 && |sig| == 64 && env.verify(pub, digest, sig)
        && RecordsOpen(env, site, b.manifest.records) && ChainsRun(env.hash, b.manifest.records)
        && (site == Portal ==> AllMayGoOut(b))
  {
    AcceptedIff(env, site, b);
    GroupsIff(env, site, b.manifest.records);
    MayGoOutIff(b);
  }

  /** The anchor of an exam: hashed centre, exam, last root, number of records and node key. */
  predicate IsAnchor(env: Env, site: Site, b: SyncBundle, e: string, a: AnchorPayload) {
    var rs := InOrderOf(b.manifest.records, e);
    && |rs| > 0
    && var root := rs[|rs| - 1].chainRoot;
    a == AnchorPayload(ToHex(env.hash(env.utf8(b.manifest.centreId))), e,
                       if site == Portal then root else ToHex(FromHex(root)), |rs|, b.nodePubkey)
  }

  lemma AnchorIs(env: Env, site: Site, b: SyncBundle, e: string)
    requires Select(b.manifest.records, e) != []
    ensures IsAnchor(env, site, b, e, AnchorOf(env, site, b, e, Select(b.manifest.records, e)))
  {
  }

  /** An accepted bundle yields the hashed centre and, for every exam in order of first appearance, its
      anchor. */
  lemma AcceptedAnchors(env: Env, site: Site, b: SyncBundle)
    requires IngestOutcome(env, site, b).Accepted?
    ensures var r, exams := IngestOutcome(env, site, b), Exams(b.manifest.records);
      && r.centreIdHash == ToHex(env.hash(env.utf8(b.manifest.centreId)))
      && |r.anchors| == |exams| && forall i :: 0 <= i < |exams| ==> IsAnchor(env, site, b, exams[i], r.anchors[i])
  {
    var exams, r := Exams(b.manifest.records), IngestOutcome(env, site, b);
    ExamsAre(b.manifest.records);
    assert r == Yield(env, site, b);
    forall i | 0 <= i < |exams| ensures IsAnchor(env, site, b, exams[i], r.anchors[i]) {
      AnchorAt(env, site, b, exams, i);
      AnchorIs(env, site, b, exams[i]);
    }
  }

  /** And what each record opened to is among its answers. */
  lemma AcceptedAnswers(env: Env, site: Site, b: SyncBundle, x: ExportRecord, v: Json)
    requires IngestOutcome(env, site, b).Accepted? && x in b.manifest.records && OpensTo(env, site, x, v)
    ensures DecryptedAnswer(x.examId, x.seatNo, x.leafIndex, v) in IngestOutcome(env, site, b).decrypted
  {
    AcceptedIsComplete(env, site, b);
    OpensIff(env, site, x, v);
    AnswerIsThere(env, site, b.manifest.records, x, IngestOutcome(env, site, b).decrypted);
  }

  lemma AnswerIsThere(env: Env, site: Site, records: seq<ExportRecord>, x: ExportRecord,
                      decrypted: seq<DecryptedAnswer>)
    requires x in records && multiset(decrypted) == multiset(Answers(env, site, records))
    ensures AnswerOf(env, site, x) in decrypted
  {
    var i :| 0 <= i < |records| && records[i] == x;
    assert Answers(env, site, records)[i] == AnswerOf(env, site, x);
    assert AnswerOf(env, site, x) in multiset(Answers(env, site, records));
    assert AnswerOf(env, site, x) in multiset(decrypted);
  }

  // ---------- The forbidden words ----------

  lemma {:induction false} ContainsBehind(a: string, s: string, w: string)
    requires Contains(s, w)
    ensures Contains(a + s, w)
  {
    if |a| == 0 {
      assert a + s == s;
    } else {
      assert (a + s)[1..] == a[1..] + s;
      ContainsBehind(a[1..], s, w);
    }
  }

  lemma ContainsHere(a: string, w: string, b: string)
    ensures Contains(a + w + b, w)
  {
    assert a + w + b == a + (w + b) && w <= w + b;
    assert Contains(w + b, w);
    ContainsBehind(a, w + b, w);
  }

  predicate IsLetters(w: string) { forall i :: 0 <= i < |w| ==> 'a' <= w[i] <= 'z' || 'A' <= w[i] <= 'Z' }

  lemma Rebracket(a: string, b: string, c: string, d: string)
    ensures a + b + c + d == a + b + (c + d)
  {
  }

  /** Letters stand in the escaped text as they are. */
  lemma LettersStand(a: string, w: string, b: string) returns (x: string, y: string)
    requires IsLetters(w)
    ensures EscapeAll(a + w + b) == x + w + y
  {
    SpeltConcat(a + w, b);
    SpeltConcat(a, w);
    PlainSpelt(w);
    QuotedIs(a + w + b);
    x, y := Spelt(a), Spelt(b) + "\"";
    Rebracket(Spelt(a), w, Spelt(b), "\"");
  }

  /** The portal accepts no bundle with an exam whose id has one of these words in it, in whatever case. */
  lemma ForbiddenExamRefused(env: Env, b: SyncBundle, before: string, w: string, after: string)
    requires Lower(w) in ["roll", "name", "aadhaar", "dob", "ciphertext", "seat"] && IsLetters(w)
    requires before + w + after in Exams(b.manifest.records)
    ensures !IngestOutcome(env, Portal, b).Accepted?
  {
    var exam := before + w + after;
    var x, y := LettersStand(before, w, after);
    LowerConcat(x + w, y);
    LowerConcat(x, w);
    ContainsHere(Lower(x), Lower(w), Lower(y));
    assert Lower(w) in FORBIDDEN;
    var i :| 0 <= i < |FORBIDDEN| && FORBIDDEN[i] == Lower(w);
    assert !ExamIdClean(exam);
    AcceptedIff(env, Portal, b);
    assert !ExamPublishable(b, exam);
  }
}
