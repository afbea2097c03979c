/** What an accepted bundle yields, when the anchor guard refuses, and how far the two ingest
    implementations agree. */
module HqAgreement {
  import opened ByteStrings
  import opened MerkleChain
  import opened HqIngest
  import opened AnchorGuard

  // ---------- When a bundle is accepted ----------

  /** Chained from genesis, every leaf the hash of its envelope, every envelope readable. */
  predicate GroupOk(env: Env, site: Site, rs: seq<ExportRecord>) {
    WellChained(env.hash, RecordToChain(rs)) && LeavesMatch(env, rs) && Readable(env, site, rs)
  }

  predicate GroupsOk(env: Env, site: Site, records: seq<ExportRecord>, exams: seq<string>) {
    forall e :: e in exams ==> GroupOk(env, site, Select(records, e))
  }

  /** The manifest hashes to what was sent and the node signed that hash. */
  predicate Authentic(env: Env, b: SyncBundle) {
    ToHex(ManifestDigest(env, b.manifest)) == b.manifestHash && SignatureOk(env, b)
  }

  lemma NoGroupRefusalIff(env: Env, site: Site, rs: seq<ExportRecord>)
    ensures GroupRefusal(env, site, rs).None? <==> GroupOk(env, site, rs)
  {
  }

  lemma GroupsOkLast(env: Env, site: Site, records: seq<ExportRecord>, exams: seq<string>)
    requires |exams| > 0
    ensures var n := |exams| - 1;
      GroupsOk(env, site, records, exams) <==>
      GroupsOk(env, site, records, exams[..n]) && GroupOk(env, site, Select(records, exams[n]))
  {
    var n := |exams| - 1;
    assert exams == exams[..n] + [exams[n]];
  }

  lemma FirstRefusalLast(env: Env, site: Site, records: seq<ExportRecord>, exams: seq<string>)
    requires |exams| > 0
    ensures var n := |exams| - 1;
      FirstRefusal(env, site, records, exams).None? <==>
        FirstRefusal(env, site, records, exams[..n]).None? && GroupRefusal(env, site, Select(records, exams[n])).None?
  {
  }

  lemma {:induction false} NoRefusalIff(env: Env, site: Site, records: seq<ExportRecord>, exams: seq<string>)
    ensures FirstRefusal(env, site, records, exams).None? <==> GroupsOk(env, site, records, exams)
  {
    if |exams| > 0 {
      var n := |exams| - 1;
      NoRefusalIff(env, site, records, exams[..n]);
      GroupsOkLast(env, site, records, exams);
      FirstRefusalLast(env, site, records, exams);
      NoGroupRefusalIff(env, site, Select(records, exams[n]));
    }
  }

  function LastRootText(records: seq<ExportRecord>, exam: string): string
    requires Select(records, exam) != []
  {
    var rs := Select(records, exam);
    SortByIndex(rs)[|rs| - 1].chainRoot
  }

  // ---------- Nothing is lost, nothing counted twice ----------

  lemma AnswersAppend(env: Env, site: Site, rs: seq<ExportRecord>, r: ExportRecord)
    ensures Answers(env, site, rs + [r]) == Answers(env, site, rs) + [AnswerOf(env, site, r)]
  {
  }

  lemma MultisetSwap<T>(a: seq<T>, x: T, y: T, b: seq<T>)
    requires multiset(b) == multiset(a + [x])
    ensures multiset(b + [y]) == multiset(a + [y] + [x])
  {
  }

  lemma AnswersLast(env: Env, site: Site, rs: seq<ExportRecord>)
    requires |rs| > 0
    ensures Answers(env, site, rs) == Answers(env, site, rs[..|rs| - 1]) + [AnswerOf(env, site, rs[|rs| - 1])]
  {
  }

  lemma {:induction false} AnswersInsert(env: Env, site: Site, rs: seq<ExportRecord>, r: ExportRecord)
    ensures multiset(Answers(env, site, InsertByIndex(rs, r)))
      == multiset(Answers(env, site, rs) + [AnswerOf(env, site, r)])
  {
    var n := |rs| - 1;
    if |rs| == 0 || rs[n].leafIndex <= r.leafIndex {
      AnswersAppend(env, site, rs, r);
    } else {
      AnswersInsert(env, site, rs[..n], r);
      AnswersAppend(env, site, InsertByIndex(rs[..n], r), rs[n]);
      AnswersLast(env, site, rs);
      MultisetSwap(Answers(env, site, rs[..n]), AnswerOf(env, site, r), AnswerOf(env, site, rs[n]),
                   Answers(env, site, InsertByIndex(rs[..n], r)));
    }
  }

  lemma SameWithOneMore<T>(a: seq<T>, b: seq<T>, x: T)
    requires multiset(a) == multiset(b)
    ensures multiset(a + [x]) == multiset(b + [x])
  {
  }

  lemma {:induction false} AnswersSorted(env: Env, site: Site, rs: seq<ExportRecord>)
    ensures multiset(Answers(env, site, SortByIndex(rs))) == multiset(Answers(env, site, rs))
  {
    if |rs| > 0 {
      var n := |rs| - 1;
      AnswersSorted(env, site, rs[..n]);
      AnswersInsert(env, site, SortByIndex(rs[..n]), rs[n]);
      AnswersLast(env, site, rs);
      SameWithOneMore(Answers(env, site, SortByIndex(rs[..n])), Answers(env, site, rs[..n]),
                      AnswerOf(env, site, rs[n]));
    }
  }

  /** The answers of the groups of these exams, order aside. */
  ghost function Gathered(env: Env, site: Site, records: seq<ExportRecord>,
                          exams: seq<string>): multiset<DecryptedAnswer> {
    if |exams| == 0 then multiset{}
    else Gathered(env, site, records, exams[..|exams| - 1]) + GroupAnswers(env, site, records, exams[|exams| - 1])
  }

  lemma {:induction false} AllAnswersGathered(env: Env, site: Site, records: seq<ExportRecord>, exams: seq<string>)
    ensures multiset(AllAnswers(env, site, records, exams)) == Gathered(env, site, records, exams)
  {
    if |exams| > 0 {
      var n := |exams| - 1;
      AllAnswersGathered(env, site, records, exams[..n]);
      AnswersSorted(env, site, Select(records, exams[n]));
    }
  }

  lemma SelectAppend(records: seq<ExportRecord>, r: ExportRecord, e: string)
    ensures Select(records + [r], e) == if r.examId == e then Select(records, e) + [r] else Select(records, e)
  {
    assert (records + [r])[..|records|] == records;
  }

  ghost function GroupAnswers(env: Env, site: Site, records: seq<ExportRecord>, e: string): multiset<DecryptedAnswer> {
    multiset(Answers(env, site, Select(records, e)))
  }

  ghost function OneIf(env: Env, site: Site, r: ExportRecord, joins: bool): multiset<DecryptedAnswer> {
    if joins then multiset{AnswerOf(env, site, r)} else multiset{}
  }

  lemma GroupAnswersAppend(env: Env, site: Site, records: seq<ExportRecord>, r: ExportRecord, e: string)
    ensures GroupAnswers(env, site, records + [r], e)
      == GroupAnswers(env, site, records, e) + OneIf(env, site, r, r.examId == e)
  {
    SelectAppend(records, r, e);
    AnswersAppend(env, site, Select(records, e), r);
  }

  ghost predicate Distinct(exams: seq<string>) {
    forall i, j :: 0 <= i < j < |exams| ==> exams[i] != exams[j]
  }

  lemma LastExam(exams: seq<string>, x: string)
    requires |exams| > 0 && Distinct(exams)
    ensures Distinct(exams[..|exams| - 1])
    ensures x in exams <==> x in exams[..|exams| - 1] || x == exams[|exams| - 1]
    ensures exams[|exams| - 1] !in exams[..|exams| - 1]
  {
  }

  /** One more record joins exactly the group of its exam. */
  lemma {:induction false} GatherOneMore(env: Env, site: Site, records: seq<ExportRecord>, r: ExportRecord,
                                         exams: seq<string>)
    requires Distinct(exams)
    ensures Gathered(env, site, records + [r], exams)
      == Gathered(env, site, records, exams) + OneIf(env, site, r, r.examId in exams)
  {
    if |exams| > 0 {
      var n := |exams| - 1;
      LastExam(exams, r.examId);
      GatherOneMore(env, site, records, r, exams[..n]);
      GroupAnswersAppend(env, site, records, r, exams[n]);
    }
  }

  lemma {:induction false} GatheredAll(env: Env, site: Site, records: seq<ExportRecord>)
    ensures Gathered(env, site, records, Exams(records)) == multiset(Answers(env, site, records))
  {
    if |records| > 0 {
      var n := |records| - 1;
      var init, r := records[..n], records[n];
      assert records == init + [r];
      GatheredAll(env, site, init);
      ExamsAre(init);
      AnswersAppend(env, site, init, r);
      GatherOneMore(env, site, init, r, Exams(init));
      if r.examId !in Exams(init) {
        assert Exams(records)[..|Exams(init)|] == Exams(init);
        AnswersAppend(env, site, [], r);
      }
    }
  }

  function SumCounts(anchors: seq<AnchorPayload>): int {
    if |anchors| == 0 then 0 else SumCounts(anchors[..|anchors| - 1]) + anchors[|anchors| - 1].count
  }

  lemma SumAppend(anchors: seq<AnchorPayload>, a: AnchorPayload)
    ensures SumCounts(anchors + [a]) == SumCounts(anchors) + a.count
  {
    assert (anchors + [a])[..|anchors|] == anchors;
  }

  lemma {:induction false} CountsAreAnswers(env: Env, site: Site, b: SyncBundle, exams: seq<string>)
    requires forall e :: e in exams ==> Select(b.manifest.records, e) != []
    ensures SumCounts(AllAnchors(env, site, b, exams)) == |AllAnswers(env, site, b.manifest.records, exams)|
  {
    if |exams| > 0 {
      var n := |exams| - 1;
      CountsAreAnswers(env, site, b, exams[..n]);
      SumAppend(AllAnchors(env, site, b, exams[..n]),
                AnchorOf(env, site, b, exams[n], Select(b.manifest.records, exams[n])));
    }
  }

  lemma SameSize<T>(a: seq<T>, b: seq<T>)
    requires multiset(a) == multiset(b)
    ensures |a| == |b|
  {
    assert |multiset(a)| == |a| && |multiset(b)| == |b|;
  }

  /** An accepted bundle yields one answer a record and one anchor an exam, and the anchors' counts
      add up to the number of records. */
  lemma AcceptedIsComplete(env: Env, site: Site, b: SyncBundle)
    requires IngestOutcome(env, site, b).Accepted?
    ensures var r := IngestOutcome(env, site, b);
      && multiset(r.decrypted) == multiset(Answers(env, site, b.manifest.records))
      && |r.decrypted| == |b.manifest.records| == SumCounts(r.anchors)
      && |r.anchors| == |Exams(b.manifest.records)|
  {
    var records := b.manifest.records;
    ExamsAre(records);
    assert IngestOutcome(env, site, b) == Yield(env, site, b);
    AllAnswersGathered(env, site, records, Exams(records));
    GatheredAll(env, site, records);
    CountsAreAnswers(env, site, b, Exams(records));
    SameSize(AllAnswers(env, site, records, Exams(records)), Answers(env, site, records));
  }

  // ---------- Where the two programs differ ----------

  /** The record opens to a text that starts with a byte order mark. */
  predicate OpensToBom(env: Env, r: ExportRecord) {
    match OpenEnvelope(env, r) case None => false case Some(pt) => BOM <= pt
  }

  predicate NoBom(env: Env, rs: seq<ExportRecord>) {
    forall i :: 0 <= i < |rs| ==> !OpensToBom(env, rs[i])
  }

  /** The byte order mark is the only difference in reading. */
  lemma ReadingsDiffer(env: Env, r: ExportRecord)
    requires RefusesBom(env)
    ensures OpensToBom(env, r) ==> ReadRecord(env, Portal, r) == Unparsed
    ensures !OpensToBom(env, r) ==> ReadRecord(env, Portal, r) == ReadRecord(env, Edge, r)
    ensures ReadRecord(env, Edge, r).Unopened? <==> ReadRecord(env, Portal, r).Unopened?
  {
  }

  lemma ReadableDiffer(env: Env, rs: seq<ExportRecord>)
    requires RefusesBom(env)
    ensures Readable(env, Portal, rs) <==> Readable(env, Edge, rs) && NoBom(env, rs)
  {
    forall i | 0 <= i < |rs|
      ensures ReadRecord(env, Portal, rs[i]).Read? <==> ReadRecord(env, Edge, rs[i]).Read? && !OpensToBom(env, rs[i])
    {
      ReadingsDiffer(env, rs[i]);
    }
  }

  lemma GroupsDiffer(env: Env, records: seq<ExportRecord>)
    requires RefusesBom(env)
    ensures GroupsOk(env, Portal, records, Exams(records))
      <==> GroupsOk(env, Edge, records, Exams(records)) && NoBom(env, records)
  {
    var exams := Exams(records);
    forall e | e in exams
      ensures GroupOk(env, Portal, Select(records, e))
        <==> GroupOk(env, Edge, Select(records, e)) && NoBom(env, Select(records, e))
    {
      ReadableDiffer(env, Select(records, e));
    }
    NoBomByGroup(env, records);
  }

  lemma NoBomSelect(env: Env, records: seq<ExportRecord>, e: string)
    requires NoBom(env, records)
    ensures NoBom(env, Select(records, e))
  {
    SelectIs(records, e);
    forall i | 0 <= i < |Select(records, e)| ensures !OpensToBom(env, Select(records, e)[i]) {
      assert Select(records, e)[i] in records;
    }
  }

  ghost predicate NoBomInGroups(env: Env, records: seq<ExportRecord>) {
    forall e :: e in Exams(records) ==> NoBom(env, Select(records, e))
  }

  lemma NoBomFromGroup(env: Env, records: seq<ExportRecord>, i: nat)
    requires NoBomInGroups(env, records) && i < |records|
    ensures !OpensToBom(env, records[i])
  {
    var group := Select(records, records[i].examId);
    SelectIs(records, records[i].examId);
    ExamsAre(records);
    assert records[i] in group;
    var j :| 0 <= j < |group| && group[j] == records[i];
    assert NoBom(env, group);
  }

  lemma NoBomByGroup(env: Env, records: seq<ExportRecord>)
    ensures NoBom(env, records) <==> NoBomInGroups(env, records)
  {
    if NoBom(env, records) {
      forall e | e in Exams(records) ensures NoBom(env, Select(records, e)) {
        NoBomSelect(env, records, e);
      }
    } else if NoBomInGroups(env, records) {
      forall i | 0 <= i < |records| ensures !OpensToBom(env, records[i]) {
        NoBomFromGroup(env, records, i);
      }
    }
  }

  /** The exam id is clean, the last root and the node's key are bare hexadecimal text. */
  predicate ExamPublishable(b: SyncBundle, e: string)
    requires Select(b.manifest.records, e) != []
  {
    ExamIdClean(e) && IsBareHash(LastRootText(b.manifest.records, e)) && IsBareHash(b.nodePubkey)
  }

  /** What a bundle has to look like for the portal to publish its anchors. */
  predicate Publishable(b: SyncBundle)
    requires forall e :: e in Exams(b.manifest.records) ==> Select(b.manifest.records, e) != []
  {
    forall e :: e in Exams(b.manifest.records) ==> ExamPublishable(b, e)
  }

  lemma ExamCleanIff(env: Env, b: SyncBundle, e: string)
    requires Select(b.manifest.records, e) != []
    ensures AnchorClean(env, AnchorOf(env, Portal, b, e, Select(b.manifest.records, e))) <==> ExamPublishable(b, e)
  {
    GuardExactly(env, AnchorOf(env, Portal, b, e, Select(b.manifest.records, e)));
  }

  lemma CleanIffPublishable(env: Env, b: SyncBundle)
    requires forall e :: e in Exams(b.manifest.records) ==> Select(b.manifest.records, e) != []
    ensures AllClean(env, AllAnchors(env, Portal, b, Exams(b.manifest.records))) <==> Publishable(b)
  {
    var exams := Exams(b.manifest.records);
    var anchors := AllAnchors(env, Portal, b, exams);
    forall i | 0 <= i < |exams| ensures AnchorClean(env, anchors[i]) <==> ExamPublishable(b, exams[i]) {
      AnchorAt(env, Portal, b, exams, i);
      ExamCleanIff(env, b, exams[i]);
    }
  }

  lemma AcceptedIff(env: Env, site: Site, b: SyncBundle)
    ensures var records := b.manifest.records;
      (forall e :: e in Exams(records) ==> Select(records, e) != [])
      && (IngestOutcome(env, site, b).Accepted? <==>
            Authentic(env, b) && GroupsOk(env, site, records, Exams(records)) && (site.Portal? ==> Publishable(b)))
  {
    ExamsAre(b.manifest.records);
    NoRefusalIff(env, site, b.manifest.records, Exams(b.manifest.records));
    CleanIffPublishable(env, b);
  }

  /** An authentic bundle whose groups all pass fails at most at the portal's guard. */
  lemma OnlyTheGuard(env: Env, site: Site, b: SyncBundle)
    requires Authentic(env, b) && GroupsOk(env, site, b.manifest.records, Exams(b.manifest.records))
    requires forall e :: e in Exams(b.manifest.records) ==> Select(b.manifest.records, e) != []
    ensures BundleRefusal(env, site, b) == if site.Portal? && !Publishable(b) then Some(Refused(NoPiiAnchor)) else None
  {
    NoRefusalIff(env, site, b.manifest.records, Exams(b.manifest.records));
    CleanIffPublishable(env, b);
  }

  lemma AnswersSame(env: Env, rs: seq<ExportRecord>)
    requires RefusesBom(env) && NoBom(env, rs)
    ensures Answers(env, Portal, rs) == Answers(env, Edge, rs)
  {
    forall i | 0 <= i < |rs| ensures AnswerOf(env, Portal, rs[i]) == AnswerOf(env, Edge, rs[i]) {
      ReadingsDiffer(env, rs[i]);
    }
  }

  /** A root text that decodes to 32 bytes and is lower-case hexadecimal is canonical exactly when it
      has 64 digits. */
  lemma CanonicalRoot(s: string)
    requires IsLowerHex(s) && |FromHex(s)| == 32
    ensures ToHex(FromHex(s)) == s <==> |s| == 64
  {
    if |s| == 64 {
      ToFromHex(s);
    }
  }

  lemma LastRootDecodes(env: Env, rs: seq<ExportRecord>)
    requires |rs| > 0 && WellChained(env.hash, RecordToChain(rs))
    ensures |FromHex(SortByIndex(rs)[|rs| - 1].chainRoot)| == 32
  {
    assert LinkOk(env.hash, RecordToChain(rs), |rs| - 1);
  }

  lemma AnchorAgrees(env: Env, b: SyncBundle, e: string)
    requires Select(b.manifest.records, e) != [] && ExamPublishable(b, e)
    requires GroupOk(env, Portal, Select(b.manifest.records, e))
    ensures AnchorOf(env, Portal, b, e, Select(b.manifest.records, e))
      == AnchorOf(env, Edge, b, e, Select(b.manifest.records, e))
      <==> |LastRootText(b.manifest.records, e)| == 64
  {
    LastRootDecodes(env, Select(b.manifest.records, e));
    CanonicalRoot(LastRootText(b.manifest.records, e));
  }

  lemma AnchorsAgree(env: Env, b: SyncBundle)
    requires IngestOutcome(env, Portal, b).Accepted?
    requires forall e :: e in Exams(b.manifest.records) ==> Select(b.manifest.records, e) != []
    ensures var exams := Exams(b.manifest.records);
      AllAnchors(env, Portal, b, exams) == AllAnchors(env, Edge, b, exams)
      <==> forall e :: e in exams ==> |LastRootText(b.manifest.records, e)| == 64
  {
    var exams := Exams(b.manifest.records);
    AcceptedIff(env, Portal, b);
    forall i | 0 <= i < |exams|
      ensures AllAnchors(env, Portal, b, exams)[i] == AllAnchors(env, Edge, b, exams)[i]
        <==> |LastRootText(b.manifest.records, exams[i])| == 64
    {
      AnchorAt(env, Portal, b, exams, i);
      AnchorAt(env, Edge, b, exams, i);
      AnchorAgrees(env, b, exams[i]);
    }
  }

  /** The portal accepts exactly the publishable bundles that the Edge side accepts and that open to
      no byte order mark. Then both yield the same answers, order aside, under the same centre hash,
      and the same anchors exactly when every exam's last root is spelt in 64 digits. */
  lemma IngestsAgree(env: Env, b: SyncBundle)
    requires RefusesBom(env)
    ensures forall e :: e in Exams(b.manifest.records) ==> Select(b.manifest.records, e) != []
    ensures var p, q := IngestOutcome(env, Portal, b), IngestOutcome(env, Edge, b);
      && (p.Accepted? <==> q.Accepted? && NoBom(env, b.manifest.records) && Publishable(b))
      && (p.Accepted? ==>
            && p.centreIdHash == q.centreIdHash && multiset(p.decrypted) == multiset(q.decrypted)
            && (p.anchors == q.anchors
              <==> forall e :: e in Exams(b.manifest.records) ==> |LastRootText(b.manifest.records, e)| == 64))
  {
    AcceptedIff(env, Portal, b);
    AcceptedIff(env, Edge, b);
    GroupsDiffer(env, b.manifest.records);
    if IngestOutcome(env, Portal, b).Accepted? {
      AcceptedIsComplete(env, Portal, b);
      AcceptedIsComplete(env, Edge, b);
      AnswersSame(env, b.manifest.records);
      AnchorsAgree(env, b);
      assert IngestOutcome(env, Portal, b) == Yield(env, Portal, b)
        && IngestOutcome(env, Edge, b) == Yield(env, Edge, b);
    }
  }

  // ---------- Refusals ----------

  /** The same check refused, or neither could read the group. */
  predicate SameFailure(p: Option<Failure>, q: Option<Failure>) {
    p == q || (p == Some(Refused(HsmDecrypt)) && q == Some(Threw))
  }

  lemma FirstUnreadIsUnread(env: Env, site: Site, rs: seq<ExportRecord>)
    requires !Readable(env, site, rs)
    ensures !FirstUnread(env, site, rs).Read?
  {
  }

  lemma {:induction false} SameGroupFailure(env: Env, rs: seq<ExportRecord>)
    requires RefusesBom(env) && NoBom(env, rs)
    ensures SameFailure(GroupRefusal(env, Portal, rs), GroupRefusal(env, Edge, rs))
  {
    ReadableDiffer(env, rs);
  }

  lemma {:induction false} SameFirstFailure(env: Env, records: seq<ExportRecord>, exams: seq<string>)
    requires RefusesBom(env) && NoBom(env, records)
    ensures SameFailure(FirstRefusal(env, Portal, records, exams), FirstRefusal(env, Edge, records, exams))
  {
    if |exams| > 0 {
      var n := |exams| - 1;
      SameFirstFailure(env, records, exams[..n]);
      NoBomSelect(env, records, exams[n]);
      SameGroupFailure(env, Select(records, exams[n]));
    }
  }

  /** Without byte order marks the two refuse the same bundles by the same check, the portal's guard
      on anchors apart; where the portal reports a failed decryption the Edge side throws. */
  lemma RefusalsAgree(env: Env, b: SyncBundle)
    requires RefusesBom(env) && NoBom(env, b.manifest.records)
    ensures var p, q := BundleRefusal(env, Portal, b), BundleRefusal(env, Edge, b);
      SameFailure(p, q) || (p == Some(Refused(NoPiiAnchor)) && q == None)
  {
    SameFirstFailure(env, b.manifest.records, Exams(b.manifest.records));
  }
}
