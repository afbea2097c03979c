/** The sealed question paper: every question under its own key, committed to by one Merkle root,
    opened one at a time against that root. Key derivation, cipher and JSON are parameters. */
module SealedPaper {
  import opened ByteStrings
  import opened MerkleTree
  import opened MerkleBinding
  import opened MerkleBuilders

  /** A question maps field names to values; `V` is whatever JSON values are. */
  type Question<V> = map<string, V>

  datatype Suite<!V> = Suite(
    hash: Hash,
    /** HKDF-SHA256 of key material, salt and info, 32 bytes long. */
    hkdf: (Bytes, Bytes, Bytes) -> Bytes,
    /** AES-GCM-256 under key and iv: ciphertext and tag. */
    seal: (Bytes, Bytes, Bytes) -> (Bytes, Bytes),
    open: (Bytes, Bytes, Bytes, Bytes) -> Option<Bytes>,
    utf8: string -> Bytes,
    /** The bytes of `json.dumps`, and `json.loads` of bytes. */
    dumps: Question<V> -> Bytes,
    loads: Bytes -> Option<Question<V>>,
    /** `str(value)` of an id. */
    text: V -> string)

  /** Keys have 32 bytes; under such a key and an iv of 12 bytes decryption inverts encryption and tags
      have 16 bytes; and JSON reads back what it wrote. */
  ghost predicate Lawful<V(!new)>(suite: Suite<V>) {
    && (forall master, salt, info :: |suite.hkdf(master, salt, info)| == 32)
    && (forall key, iv, pt :: |key| == 32 && |iv| == 12 ==>
          var s := suite.seal(key, iv, pt); suite.open(key, iv, s.0, s.1) == Some(pt) && |s.1| == 16)
    && (forall q :: suite.loads(suite.dumps(q)) == Some(q))
  }

  datatype Item = Item(questionId: string, iv: Bytes, ct: Bytes, tag: Bytes, leaf: string, proof: seq<Step>)

  datatype Bundle = Bundle(examId: string, questionsRoot: string, count: nat, items: seq<Item>)

  datatype Error = EmptyPaper | MissingId | NotARoot | NotInCommittedSet | Altered | NotJson

  datatype Result<+T> = Ok(value: T) | Err(error: Error)

  // ---------- Keys and leaves ----------

  const CANDIDATE_FIELDS: set<string> :=
    {"id", "sequence_number", "set_label", "text", "text_hi", "text_regional",
     "options", "options_hi", "options_regional", "subject", "topic", "marks"}

  /** `_candidate_view`: grading material is not a candidate field. */
  function CandidateView<V>(q: Question<V>): Question<V> {
    map k | k in q && k in CANDIDATE_FIELDS :: q[k]
  }

  function QuestionKey<V>(suite: Suite<V>, masterSeed: Bytes, examId: string, questionId: string): Bytes {
    suite.hkdf(masterSeed, suite.utf8(examId), suite.utf8("cryptoexam:q:" + questionId))
  }

  function LeafInput<V>(suite: Suite<V>, questionId: string, iv: Bytes, ct: Bytes, tag: Bytes): Bytes {
    suite.utf8(questionId) + iv + ct + tag
  }

  /** `question_leaf`. */
  function QuestionLeaf<V>(suite: Suite<V>, item: Item): (leaf: Digest)
    ensures leaf == suite.hash(suite.utf8(item.questionId) + item.iv + item.ct + item.tag)
  {
    suite.hash(LeafInput(suite, item.questionId, item.iv, item.ct, item.tag))
  }

  /** One sealed question, its proof still missing. */
  function SealQuestion<V>(suite: Suite<V>, id: string, payload: Question<V>, masterSeed: Bytes, examId: string,
                           iv: Bytes): Item {
    var (ct, tag) := suite.seal(QuestionKey(suite, masterSeed, examId, id), iv, suite.dumps(payload));
    var bare := Item(id, iv, ct, tag, "", []);
    bare.(leaf := ToHex(QuestionLeaf(suite, bare)))
  }

  function LeavesOf<V>(suite: Suite<V>, items: seq<Item>): (leaves: seq<Digest>)
    ensures |leaves| == |items|
    ensures forall i :: 0 <= i < |items| ==> leaves[i] == QuestionLeaf(suite, items[i])
  {
    if |items| == 0 then [] else [QuestionLeaf(suite, items[0])] + LeavesOf(suite, items[1..])
  }

  /** Item `i` is question `i` sealed, with some proof attached. */
  ghost predicate Seals<V>(suite: Suite<V>, items: seq<Item>, ids: seq<string>, payloads: seq<Question<V>>,
                           masterSeed: Bytes, examId: string, ivs: seq<Bytes>)
  {
    && |items| == |ids| == |payloads| <= |ivs|
    && forall i :: 0 <= i < |items| ==>
         items[i].(proof := []) == SealQuestion(suite, ids[i], payloads[i], masterSeed, examId, ivs[i])
  }

  /** What is sealed, written out: the question's JSON under the key derived from seed, exam and id. */
  lemma SealedAs<V>(suite: Suite<V>, items: seq<Item>, ids: seq<string>, payloads: seq<Question<V>>,
                    masterSeed: Bytes, examId: string, ivs: seq<Bytes>, i: nat)
    requires Seals(suite, items, ids, payloads, masterSeed, examId, ivs) && i < |items|
    ensures items[i].questionId == ids[i] && items[i].iv == ivs[i]
    ensures var key := suite.hkdf(masterSeed, suite.utf8(examId), suite.utf8("cryptoexam:q:" + ids[i]));
      (items[i].ct, items[i].tag) == suite.seal(key, ivs[i], suite.dumps(payloads[i]))
    ensures items[i].leaf == ToHex(suite.hash(suite.utf8(ids[i]) + ivs[i] + items[i].ct + items[i].tag))
  {
    assert items[i].(proof := []) == SealQuestion(suite, ids[i], payloads[i], masterSeed, examId, ivs[i]);
  }

  lemma LeavesIgnoreProofs<V>(suite: Suite<V>, a: seq<Item>, b: seq<Item>)
    requires |a| == |b| && forall i :: 0 <= i < |a| ==> a[i].(proof := []) == b[i].(proof := [])
    ensures LeavesOf(suite, a) == LeavesOf(suite, b)
  {
    forall i | 0 <= i < |a| ensures LeavesOf(suite, a)[i] == LeavesOf(suite, b)[i] {
      assert a[i].(proof := []) == b[i].(proof := []);
    }
  }

  /** The loop of both sealers: seal every payload and collect the leaves. */
  method SealAll<V>(suite: Suite<V>, ids: seq<string>, payloads: seq<Question<V>>, masterSeed: Bytes, examId: string,
                    ivs: seq<Bytes>)
    returns (items: seq<Item>, leaves: seq<Digest>)
    requires |ids| == |payloads| <= |ivs|
    ensures Seals(suite, items, ids, payloads, masterSeed, examId, ivs) && leaves == LeavesOf(suite, items)
  {
    items, leaves := [], [];
    for i := 0 to |ids|
      invariant |items| == |leaves| == i
      invariant forall j :: 0 <= j < i ==>
        items[j] == items[j].(proof := []) == SealQuestion(suite, ids[j], payloads[j], masterSeed, examId, ivs[j])
      invariant forall j :: 0 <= j < i ==> leaves[j] == QuestionLeaf(suite, items[j])
    {
      var item := SealQuestion(suite, ids[i], payloads[i], masterSeed, examId, ivs[i]);
      items := items + [item];
      leaves := leaves + [QuestionLeaf(suite, item)];
    }
  }

  predicate HaveIds<V>(questions: seq<Question<V>>) {
    forall i :: 0 <= i < |questions| ==> "id" in questions[i]
  }

  /** The items with their proofs: `proofs[i]` goes to item `i`. */
  ghost predicate Attached(items: seq<Item>, bare: seq<Item>, proofs: seq<seq<Step>>) {
    |items| == |bare| == |proofs| && forall i :: 0 <= i < |items| ==> items[i] == bare[i].(proof := proofs[i])
  }

  method Attach(bare: seq<Item>, proofs: seq<seq<Step>>) returns (items: seq<Item>)
    requires |bare| == |proofs|
    ensures Attached(items, bare, proofs)
  {
    items := [];
    for i := 0 to |bare|
      invariant Attached(items, bare[..i], proofs[..i])
    {
      items := items + [bare[i].(proof := proofs[i])];
    }
    assert bare[..|bare|] == bare && proofs[..|proofs|] == proofs;
  }

  lemma AttachedSeals<V>(suite: Suite<V>, items: seq<Item>, bare: seq<Item>, proofs: seq<seq<Step>>, ids: seq<string>,
                         payloads: seq<Question<V>>, masterSeed: Bytes, examId: string, ivs: seq<Bytes>)
    requires Attached(items, bare, proofs) && Seals(suite, bare, ids, payloads, masterSeed, examId, ivs)
    ensures Seals(suite, items, ids, payloads, masterSeed, examId, ivs)
      && LeavesOf(suite, items) == LeavesOf(suite, bare)
  {
    forall i | 0 <= i < |items| ensures items[i].(proof := []) == bare[i].(proof := []) {
    }
    LeavesIgnoreProofs(suite, items, bare);
  }

  /** Every item carries its own proof in the tree over the leaves. */
  ghost predicate Proved<V>(suite: Suite<V>, items: seq<Item>, leaves: seq<Digest>) {
    |items| <= |leaves| && forall i :: 0 <= i < |items| ==> items[i].proof == Proof(suite.hash, leaves, i)
  }

  /** `seal_exam_questions`, with the random ivs as a parameter. Only the candidate's fields are
      sealed, and the zero-padding tree commits to them. */
  method SealExamQuestions<V>(suite: Suite<V>, questions: seq<Question<V>>, masterSeed: Bytes, examId: string,
                              ivs: seq<Bytes>)
    returns (r: Result<Bundle>)
    requires |ivs| >= |questions|
    ensures r.Err? <==> questions == [] || !HaveIds(questions)
    ensures r.Err? ==> r.error == if questions == [] then EmptyPaper else MissingId
    ensures r.Ok? ==> r.value.examId == examId && r.value.count == |r.value.items|
    ensures r.Ok? ==> |r.value.items| > 0
                      && r.value.questionsRoot == "0x" + ToHex(Root(suite.hash, Pad(LeavesOf(suite, r.value.items))))
    ensures r.Ok? ==> Seals(suite, r.value.items, Ids(suite, questions), Views(questions), masterSeed, examId, ivs)
    ensures r.Ok? ==> Proved(suite, r.value.items, Pad(LeavesOf(suite, r.value.items)))
  {
    if |questions| == 0 { return Err(EmptyPaper); }
    if !HaveIds(questions) { return Err(MissingId); }
    var bare, leaves := SealAll(suite, Ids(suite, questions), Views(questions), masterSeed, examId, ivs);
    var tree := BuildTree(suite.hash, leaves);
    var (root, proofs) := tree.value;
    var paths := seq(|leaves|, i requires 0 <= i < |leaves| => proofs[i]);
    var items := Attach(bare, paths);
    AttachedSeals(suite, items, bare, paths, Ids(suite, questions), Views(questions), masterSeed, examId, ivs);
    return Ok(Bundle(examId, "0x" + ToHex(root), |items|, items));
  }

  function Ids<V>(suite: Suite<V>, questions: seq<Question<V>>): (ids: seq<string>)
    requires HaveIds(questions)
    ensures |ids| == |questions|
  {
    seq(|questions|, i requires 0 <= i < |questions| => suite.text(questions[i]["id"]))
  }

  function Views<V>(questions: seq<Question<V>>): (views: seq<Question<V>>)
    ensures |views| == |questions|
    ensures forall i :: 0 <= i < |views| ==> views[i] == CandidateView(questions[i])
  {
    seq(|questions|, i requires 0 <= i < |questions| => CandidateView(questions[i]))
  }

  /** `sealExam` of question-seal.ts: seals the questions as they are, under the duplicating tree and
      a root without prefix. */
  method SealExam<V>(suite: Suite<V>, ids: seq<string>, questions: seq<Question<V>>, masterSeed: Bytes,
                     examId: string, ivs: seq<Bytes>)
    returns (r: Result<Bundle>)
    requires |ids| == |questions| <= |ivs|
    ensures r.Err? <==> questions == []
    ensures r.Ok? ==> r.value.examId == examId && r.value.count == |r.value.items|
    ensures r.Ok? ==> |r.value.items| > 0
                      && r.value.questionsRoot == ToHex(Root(suite.hash, LeavesOf(suite, r.value.items)))
    ensures r.Ok? ==> Seals(suite, r.value.items, ids, questions, masterSeed, examId, ivs)
    ensures r.Ok? ==> Proved(suite, r.value.items, LeavesOf(suite, r.value.items))
  {
    if |questions| == 0 { return Err(EmptyPaper); }
    var bare, leaves := SealAll(suite, ids, questions, masterSeed, examId, ivs);
    var tree := BuildDuplicating(suite.hash, leaves);
    var (root, proofs) := tree.value;
    var items := Attach(bare, proofs);
    AttachedSeals(suite, items, bare, proofs, ids, questions, masterSeed, examId, ivs);
    return Ok(Bundle(examId, ToHex(root), |items|, items));
  }

  // ---------- Opening ----------

  function StripPrefix(s: string): string {
    if |s| >= 2 && s[0] == '0' && s[1] == 'x' then s[2..] else s
  }

  /** `bytes.fromhex` on text without blanks; `None` is its ValueError. */
  function StrictHex(s: string): Option<Bytes> {
    if |s| % 2 == 0 && forall i :: 0 <= i < |s| ==> IsHexDigit(s[i]) then Some(FromHex(s)) else None
  }

  /** Derive the question's key, decrypt, parse. */
  function Unseal<V>(suite: Suite<V>, item: Item, masterSeed: Bytes, examId: string): Result<Question<V>> {
    match suite.open(QuestionKey(suite, masterSeed, examId, item.questionId), item.iv, item.ct, item.tag)
    case None => Err(Altered)
    case Some(plain) =>
      match suite.loads(plain)
      case None => Err(NotJson)
      case Some(q) => Ok(q)
  }

  /** `open_question`: no decryption before the proof verifies against the committed root. */
  function OpenQuestion<V>(suite: Suite<V>, item: Item, masterSeed: Bytes, examId: string,
                           questionsRoot: string): Result<Question<V>> {
    match StrictHex(StripPrefix(questionsRoot))
    case None => Err(NotARoot)
    case Some(root) =>
      if Fold(suite.hash, QuestionLeaf(suite, item), item.proof) != root then Err(NotInCommittedSet)
      else Unseal(suite, item, masterSeed, examId)
  }

  /** `openQuestion` of the terminal: the same walk, compared as text. */
  function OpenOnTerminal<V>(suite: Suite<V>, item: Item, masterSeed: Bytes, examId: string,
                             rootHex: string): Result<Question<V>> {
    if !FoldsTo(suite, item, rootHex) then Err(NotInCommittedSet)
    else Unseal(suite, item, masterSeed, examId)
  }

  /** Each answer of `open_question`, exactly when: the root's text, the committed set, the tag, the JSON. */
  lemma OpenExactly<V>(suite: Suite<V>, item: Item, masterSeed: Bytes, examId: string, rootText: string)
    ensures var s := if |rootText| >= 2 && rootText[..2] == "0x" then rootText[2..] else rootText;
      var isRoot := |s| % 2 == 0 && forall i :: 0 <= i < |s| ==> IsHexDigit(s[i]);
      var leaf := suite.hash(suite.utf8(item.questionId) + item.iv + item.ct + item.tag);
      var committed := isRoot && Fold(suite.hash, leaf, item.proof) == FromHex(s);
      var key := suite.hkdf(masterSeed, suite.utf8(examId), suite.utf8("cryptoexam:q:" + item.questionId));
      var plain := suite.open(key, item.iv, item.ct, item.tag);
      var r := OpenQuestion(suite, item, masterSeed, examId, rootText);
      && (r == Err(NotARoot) <==> !isRoot)
      && (r == Err(NotInCommittedSet) <==> isRoot && !committed)
      && (r == Err(Altered) <==> committed && plain.None?)
      && (r == Err(NotJson) <==> committed && plain.Some? && suite.loads(plain.value).None?)
      && (r.Ok? <==> committed && plain.Some? && suite.loads(plain.value).Some?)
      && (r.Ok? ==> suite.loads(plain.value) == Some(r.value))
  {
  }

  lemma HexRoot(root: Digest)
    ensures StripPrefix("0x" + ToHex(root)) == ToHex(root) && StripPrefix(ToHex(root)) == ToHex(root)
    ensures StrictHex(ToHex(root)) == Some(root)
  {
    FromToHex(root);
    assert ("0x" + ToHex(root))[2..] == ToHex(root);
    assert !IsLowerHexDigit('x');
  }

  /** An item that was sealed and whose proof leads to the root opens to its payload, by either
      implementation. */
  lemma SealedItemOpens<V(!new)>(suite: Suite<V>, item: Item, id: string, payload: Question<V>, masterSeed: Bytes,
                           examId: string, iv: Bytes, root: Digest)
    requires Lawful(suite) && item.(proof := []) == SealQuestion(suite, id, payload, masterSeed, examId, iv)
    requires Fold(suite.hash, QuestionLeaf(suite, item), item.proof) == root && |iv| == 12
    ensures OpenQuestion(suite, item, masterSeed, examId, "0x" + ToHex(root)) == Ok(payload)
    ensures OpenOnTerminal(suite, item, masterSeed, examId, "0x" + ToHex(root)) == Ok(payload)
    ensures OpenOnTerminal(suite, item, masterSeed, examId, ToHex(root)) == Ok(payload)
  {
    HexRoot(root);
    var key := QuestionKey(suite, masterSeed, examId, id);
    var s := suite.seal(key, iv, suite.dumps(payload));
    assert item.questionId == id && item.iv == iv && item.ct == s.0 && item.tag == s.1;
    assert suite.open(key, iv, s.0, s.1) == Some(suite.dumps(payload));
  }

  /** Round trip of the published sealer: item `i` opens to exactly the candidate view of question
      `i`. */
  lemma SealedPaperOpens<V(!new)>(suite: Suite<V>, questions: seq<Question<V>>, b: Bundle, masterSeed: Bytes,
                                  examId: string, ivs: seq<Bytes>, i: nat)
    requires Lawful(suite) && HaveIds(questions)
    requires Seals(suite, b.items, Ids(suite, questions), Views(questions), masterSeed, examId, ivs) && i < |b.items|
    requires b.questionsRoot == "0x" + ToHex(Root(suite.hash, Pad(LeavesOf(suite, b.items))))
    requires Proved(suite, b.items, Pad(LeavesOf(suite, b.items))) && |ivs[i]| == 12
    ensures OpenQuestion(suite, b.items[i], masterSeed, examId, b.questionsRoot) == Ok(CandidateView(questions[i]))
    ensures OpenOnTerminal(suite, b.items[i], masterSeed, examId, b.questionsRoot) == Ok(CandidateView(questions[i]))
    ensures CandidateView(questions[i]).Keys == questions[i].Keys *
      {"id", "sequence_number", "set_label", "text", "text_hi", "text_regional",
       "options", "options_hi", "options_regional", "subject", "topic", "marks"}
    ensures forall k :: k in CandidateView(questions[i]) ==> CandidateView(questions[i])[k] == questions[i][k]
  {
    var leaves := LeavesOf(suite, b.items);
    PaddedProofs(suite.hash, leaves, i);
    SealedItemOpens(suite, b.items[i], Ids(suite, questions)[i], Views(questions)[i], masterSeed, examId, ivs[i],
                    Root(suite.hash, Pad(leaves)));
  }

  /** Round trip of the staging sealer on the terminal: item `i` opens to question `i`. */
  lemma StagedPaperOpens<V(!new)>(suite: Suite<V>, ids: seq<string>, questions: seq<Question<V>>, b: Bundle,
                                  masterSeed: Bytes, examId: string, ivs: seq<Bytes>, i: nat)
    requires Lawful(suite) && Seals(suite, b.items, ids, questions, masterSeed, examId, ivs) && i < |b.items|
    requires b.questionsRoot == ToHex(Root(suite.hash, LeavesOf(suite, b.items)))
    requires Proved(suite, b.items, LeavesOf(suite, b.items)) && |ivs[i]| == 12
    ensures OpenOnTerminal(suite, b.items[i], masterSeed, examId, b.questionsRoot) == Ok(questions[i])
  {
    DuplicatingProofs(suite.hash, LeavesOf(suite, b.items), i);
    SealedItemOpens(suite, b.items[i], ids[i], questions[i], masterSeed, examId, ivs[i],
                    Root(suite.hash, LeavesOf(suite, b.items)));
  }

  // ---------- Tampering ----------

  /** Where two items with different hashed strings would have to collide: in their leaves, or on the way
      up. */
  function ItemConflict<V>(suite: Suite<V>, item: Item, other: Item): (Bytes, Bytes)
    requires |item.proof| == |other.proof|
  {
    if QuestionLeaf(suite, item) == QuestionLeaf(suite, other) then
      (suite.utf8(item.questionId) + item.iv + item.ct + item.tag,
       suite.utf8(other.questionId) + other.iv + other.ct + other.tag)
    else FoldConflict(suite.hash, QuestionLeaf(suite, item), item.proof, QuestionLeaf(suite, other), other.proof)
  }

  /** Neither program opens the item or takes it for one of the committed set. */
  ghost predicate Refused<V>(suite: Suite<V>, item: Item, masterSeed: Bytes, examId: string, root: Digest) {
    && OpenQuestion(suite, item, masterSeed, examId, "0x" + ToHex(root)) == Err(NotInCommittedSet)
    && OpenOnTerminal(suite, item, masterSeed, examId, "0x" + ToHex(root)) == Err(NotInCommittedSet)
    && !FoldsTo(suite, item, "0x" + ToHex(root))
  }

  /** Under the proof of a committed item another item is refused exactly if id, iv, ciphertext and tag, one
      after the other, are another string, or the conflict is a collision. */
  lemma OtherItemRefusedIff<V>(suite: Suite<V>, item: Item, other: Item, masterSeed: Bytes, examId: string,
                               root: Digest)
    requires Fold(suite.hash, QuestionLeaf(suite, item), item.proof) == root && other.proof == item.proof
    ensures var u := suite.utf8(item.questionId) + item.iv + item.ct + item.tag;
      var v := suite.utf8(other.questionId) + other.iv + other.ct + other.tag;
      (Refused(suite, other, masterSeed, examId, root) <==> u != v)
        || Collision(suite.hash, ItemConflict(suite, item, other))
  {
    HexRoot(root);
    if Fold(suite.hash, QuestionLeaf(suite, other), other.proof) == root {
      FoldBinds(suite.hash, QuestionLeaf(suite, item), item.proof, QuestionLeaf(suite, other), other.proof);
    } else {
      FromToHex(Fold(suite.hash, QuestionLeaf(suite, other), other.proof));
      FromToHex(root);
    }
  }

  lemma LeafInputParts(id: Bytes, iv: Bytes, ct: Bytes, tag: Bytes, id': Bytes, iv': Bytes, ct': Bytes, tag': Bytes)
    requires |id| == |id'| && |iv| == |iv'| && |tag| == |tag'|
    requires id + iv + ct + tag == id' + iv' + ct' + tag'
    ensures id == id' && iv == iv' && ct == ct' && tag == tag'
  {
    SplitConcat(id + iv + ct, tag, id' + iv' + ct', tag');
    SplitConcat(id + iv, ct, id' + iv', ct');
    SplitConcat(id, iv, id', iv');
  }

  /** UTF-8 loses nothing. */
  ghost predicate Lossless<V>(suite: Suite<V>) {
    forall s, t :: suite.utf8(s) == suite.utf8(t) ==> s == t
  }

  /** Among ids of one length in bytes, an item with another id, iv, ciphertext or tag is refused before
      any key is used, or the conflict is a collision. */
  lemma AlteredItemRefused<V>(suite: Suite<V>, item: Item, altered: Item, masterSeed: Bytes, examId: string,
                              root: Digest)
    requires Lossless(suite) && Fold(suite.hash, QuestionLeaf(suite, item), item.proof) == root
    requires altered.proof == item.proof && |suite.utf8(altered.questionId)| == |suite.utf8(item.questionId)|
    requires (altered.questionId, altered.iv, altered.ct, altered.tag) != (item.questionId, item.iv, item.ct, item.tag)
    requires |item.iv| == |altered.iv| == 12 && |item.tag| == |altered.tag| == 16
    ensures Refused(suite, altered, masterSeed, examId, root)
      || Collision(suite.hash, ItemConflict(suite, item, altered))
  {
    OtherItemRefusedIff(suite, item, altered, masterSeed, examId, root);
    var id, id' := suite.utf8(item.questionId), suite.utf8(altered.questionId);
    if id + item.iv + item.ct + item.tag == id' + altered.iv + altered.ct + altered.tag {
      LeafInputParts(id, item.iv, item.ct, item.tag, id', altered.iv, altered.ct, altered.tag);
    }
  }

  /** The same iv, ciphertext and tag under another id, whatever its length, are refused too. */
  lemma RenamedItemRefused<V>(suite: Suite<V>, item: Item, id: string, masterSeed: Bytes, examId: string, root: Digest)
    requires Lossless(suite) && Fold(suite.hash, QuestionLeaf(suite, item), item.proof) == root && id != item.questionId
    ensures var renamed := item.(questionId := id);
      Refused(suite, renamed, masterSeed, examId, root) || Collision(suite.hash, ItemConflict(suite, item, renamed))
  {
    var renamed := item.(questionId := id);
    OtherItemRefusedIff(suite, item, renamed, masterSeed, examId, root);
    var u, v := suite.utf8(item.questionId), suite.utf8(id);
    if u + item.iv + item.ct + item.tag == v + item.iv + item.ct + item.tag {
      SplitConcat(u + item.iv + item.ct, item.tag, v + item.iv + item.ct, item.tag);
      SplitConcat(u + item.iv, item.ct, v + item.iv, item.ct);
      SplitConcat(u, item.iv, v, item.iv);
    }
  }

  /** The hashed string does not say where the id ends. An item under a shorter id, which starts its iv with
      the rest of the genuine id and passes the surplus on, is taken for the committed one. */
  lemma ShiftedItemPasses<V>(suite: Suite<V>, item: Item, id: string, rest: Bytes, root: Digest)
    requires Fold(suite.hash, QuestionLeaf(suite, item), item.proof) == root
    requires suite.utf8(item.questionId) == suite.utf8(id) + rest && |item.iv| == 12
    ensures var tail := rest + item.iv;
      var shifted := item.(questionId := id, iv := tail[..12], ct := tail[12..] + item.ct);
      |shifted.iv| == 12 && FoldsTo(suite, shifted, "0x" + ToHex(root))
  {
    var tail := rest + item.iv;
    var u := suite.utf8(id);
    assert u + tail[..12] + (tail[12..] + item.ct) + item.tag == u + rest + item.iv + item.ct + item.tag by {
      assert tail[..12] + tail[12..] == tail;
      assert u + tail[..12] + (tail[12..] + item.ct) == u + tail + item.ct == u + rest + item.iv + item.ct;
    }
    HexRoot(root);
  }

  /** Neither reader compares the length of a proof with the number of questions. An item whose proof
      is too short is accepted exactly for an inner node: its id, iv, ciphertext and tag, put
      together, have to be the two digests below that node, or the hash collides. */
  lemma ShortItemIsInnerNode<V>(suite: Suite<V>, leaves: seq<Digest>, x: Item)
    requires |leaves| > 0 && |x.proof| < CeilLog2(|leaves|)
    requires Fold(suite.hash, QuestionLeaf(suite, x), x.proof) == Root(suite.hash, leaves)
    ensures var input := LeafInput(suite, x.questionId, x.iv, x.ct, x.tag);
      || input == InnerInput(suite.hash, leaves, x.proof)
      || Collision(suite.hash, (input, InnerInput(suite.hash, leaves, x.proof)))
      || Collision(suite.hash, StartConflict(suite.hash, leaves, QuestionLeaf(suite, x), x.proof))
  {
    InclusionBinds(suite.hash, leaves, QuestionLeaf(suite, x), x.proof);
  }

  /** And such an item is accepted: the reader goes on to decrypt it. */
  lemma InnerNodeItemPasses<V>(suite: Suite<V>, leaves: seq<Digest>, x: Item, i: nat, k: nat, masterSeed: Bytes,
                               examId: string)
    requires 0 < k <= CeilLog2(|leaves|) && |leaves| > 0 && i < |Level(suite.hash, leaves, k)|
    requires x.proof == Proof(suite.hash, Level(suite.hash, leaves, k), i)
    requires suite.hash(LeafInput(suite, x.questionId, x.iv, x.ct, x.tag)) == Level(suite.hash, leaves, k)[i]
    ensures FoldsTo(suite, x, ToHex(Root(suite.hash, leaves)))
    ensures OpenQuestion(suite, x, masterSeed, examId, "0x" + ToHex(Root(suite.hash, leaves))) != Err(NotInCommittedSet)
  {
    NodesAreAccepted(suite.hash, leaves, k, i);
    HexRoot(Root(suite.hash, leaves));
  }

  /** An item whose proof has the length of the depth, whatever its id, was hashed from the same
      string as the genuine item at that position, or the hash collides. */
  lemma FullItemIsGenuine<V>(suite: Suite<V>, items: seq<Item>, x: Item)
    requires |items| > 0 && |x.proof| == CeilLog2(|items|)
    requires Fold(suite.hash, QuestionLeaf(suite, x), x.proof) == Root(suite.hash, LeavesOf(suite, items))
    ensures var genuine := items[Resolve(|items|, IndexOf(x.proof))];
      var u, v := LeafInput(suite, x.questionId, x.iv, x.ct, x.tag),
        LeafInput(suite, genuine.questionId, genuine.iv, genuine.ct, genuine.tag);
      || u == v || Collision(suite.hash, (u, v))
      || Collision(suite.hash, StartConflict(suite.hash, LeavesOf(suite, items), QuestionLeaf(suite, x), x.proof))
  {
    InclusionBinds(suite.hash, LeavesOf(suite, items), QuestionLeaf(suite, x), x.proof);
  }

  /** The same for the published paper, whose tree is padded: the genuine item at the position, or a
      position of the padding, and then the string hashes to 32 zero bytes. */
  lemma FullPaddedItemIsGenuine<V>(suite: Suite<V>, items: seq<Item>, x: Item)
    requires |items| > 0 && |x.proof| == CeilLog2(|items|)
    requires Fold(suite.hash, QuestionLeaf(suite, x), x.proof) == Root(suite.hash, Pad(LeavesOf(suite, items)))
    ensures var u, i := LeafInput(suite, x.questionId, x.iv, x.ct, x.tag), IndexOf(x.proof);
      || (i < |items| && var v := LeafInput(suite, items[i].questionId, items[i].iv, items[i].ct, items[i].tag);
                         u == v || Collision(suite.hash, (u, v)))
      || (i >= |items| && suite.hash(u) == ZERO_DIGEST)
      || (CeilLog2(|Pad(LeavesOf(suite, items))|) == |x.proof|
          && Collision(suite.hash,
                       StartConflict(suite.hash, Pad(LeavesOf(suite, items)), QuestionLeaf(suite, x), x.proof)))
  {
    var leaves := LeavesOf(suite, items);
    PaddedInclusionBinds(suite.hash, leaves, QuestionLeaf(suite, x), x.proof);
    PadAt(leaves, IndexOf(x.proof));
  }

  // ---------- Checking a whole bundle ----------

  /** The walk from an item's recomputed leaf ends at the root written as `rootHex`. */
  predicate FoldsTo<V>(suite: Suite<V>, item: Item, rootHex: string) {
    ToHex(Fold(suite.hash, QuestionLeaf(suite, item), item.proof)) == StripPrefix(rootHex)
  }

  /** Every item folds to the root written as `rootHex`. */
  predicate AllFoldTo<V>(suite: Suite<V>, items: seq<Item>, rootHex: string) {
    forall i :: 0 <= i < |items| ==> FoldsTo(suite, items[i], rootHex)
  }

  /** `verifyBundleAgainstRoot`. */
  method VerifyBundle<V>(suite: Suite<V>, bundle: Bundle, rootHex: string) returns (ok: bool)
    ensures ok <==> Lower(bundle.questionsRoot) == Lower(rootHex) && AllFoldTo(suite, bundle.items, rootHex)
    ensures ok ==> forall x :: x in bundle.items ==>
      ToHex(Fold(suite.hash, suite.hash(suite.utf8(x.questionId) + x.iv + x.ct + x.tag), x.proof))
        == StripPrefix(rootHex)
  {
    if Lower(bundle.questionsRoot) != Lower(rootHex) { return false; }
    ok := VerifyItems(suite, bundle.items, rootHex);
  }

  /** Its loop over the items. */
  method VerifyItems<V>(suite: Suite<V>, items: seq<Item>, rootHex: string) returns (ok: bool)
    ensures ok <==> AllFoldTo(suite, items, rootHex)
  {
    for i := 0 to |items|
      invariant forall j :: 0 <= j < i ==> FoldsTo(suite, items[j], rootHex)
    {
      if !FoldsTo(suite, items[i], rootHex) { return false; }
    }
    return true;
  }

  /** A genuine published bundle passes against exactly one spelling of the root, its own: the
      first comparison ignores case, the second does not. */
  lemma GenuineBundlePasses<V>(suite: Suite<V>, b: Bundle, rootHex: string)
    requires |b.items| > 0 && b.questionsRoot == "0x" + ToHex(Root(suite.hash, Pad(LeavesOf(suite, b.items))))
    requires Proved(suite, b.items, Pad(LeavesOf(suite, b.items)))
    ensures Lower(b.questionsRoot) == Lower(rootHex) && AllFoldTo(suite, b.items, rootHex)
      <==> rootHex == b.questionsRoot
  {
    var leaves := LeavesOf(suite, b.items);
    var root := Root(suite.hash, Pad(leaves));
    HexRoot(root);
    forall i | 0 <= i < |b.items| ensures Fold(suite.hash, QuestionLeaf(suite, b.items[i]), b.items[i].proof) == root {
      PaddedProofs(suite.hash, leaves, i);
    }
    if Lower(b.questionsRoot) == Lower(rootHex) && AllFoldTo(suite, b.items, rootHex) {
      assert |rootHex| == |Lower(rootHex)| == |Lower(b.questionsRoot)| == 66;
      assert FoldsTo(suite, b.items[0], rootHex);
      assert ToHex(root) == StripPrefix(rootHex);
      assert rootHex == "0x" + rootHex[2..];
    }
  }
}
