/** The append-only hash chain of a centre: `root_n = SHA-256(root_{n-1} || leaf_n)` from 32 zero
    bytes. */
module MerkleChain {
  import opened ByteStrings

  const GENESIS: Digest := ZERO_DIGEST

  /** Stored bytes may be anything; only computed roots are known to be digests. */
  datatype ChainRecord = ChainRecord(index: int, leaf: Bytes, prevRoot: Bytes, root: Bytes)

  function NextRoot(h: Hash, prevRoot: Bytes, leaf: Bytes): Digest {
    h(prevRoot + leaf)
  }

  /** `appendLeaf`. */
  function AppendLeaf(h: Hash, records: seq<ChainRecord>, leaf: Bytes): ChainRecord {
    var prevRoot := if |records| == 0 then GENESIS else records[|records| - 1].root;
    ChainRecord(|records|, leaf, prevRoot, NextRoot(h, prevRoot, leaf))
  }

  /** Folding `appendLeaf` over leaves. */
  function Chain(h: Hash, leaves: seq<Bytes>): (records: seq<ChainRecord>)
    ensures |records| == |leaves|
  {
    if |leaves| == 0 then []
    else
      var init := Chain(h, leaves[..|leaves| - 1]);
      init + [AppendLeaf(h, init, leaves[|leaves| - 1])]
  }

  /** The root after the leaves. */
  function ChainRoot(h: Hash, leaves: seq<Bytes>): Digest {
    if |leaves| == 0 then GENESIS
    else NextRoot(h, ChainRoot(h, leaves[..|leaves| - 1]), leaves[|leaves| - 1])
  }

  lemma {:induction false} ChainEnds(h: Hash, leaves: seq<Bytes>)
    requires |leaves| > 0
    ensures Chain(h, leaves)[|leaves| - 1].root == ChainRoot(h, leaves)
  {
    if |leaves| > 1 {
      ChainEnds(h, leaves[..|leaves| - 1]);
    }
  }

  function Leaves(records: seq<ChainRecord>): (leaves: seq<Bytes>)
    ensures |leaves| == |records|
  {
    seq(|records|, i requires 0 <= i < |records| => records[i].leaf)
  }

  /** Record `i` links to the stored root before it and to its own leaf. */
  predicate LinkOk(h: Hash, records: seq<ChainRecord>, i: nat)
    requires i < |records|
  {
    var prevRoot := if i == 0 then GENESIS else records[i - 1].root;
    records[i].prevRoot == prevRoot && records[i].root == NextRoot(h, prevRoot, records[i].leaf)
  }

  predicate WellChained(h: Hash, records: seq<ChainRecord>) {
    forall i :: 0 <= i < |records| ==> LinkOk(h, records, i)
  }

  /** Record `i` is the first that does not link. */
  predicate FirstBreak(h: Hash, records: seq<ChainRecord>, i: int) {
    0 <= i < |records| && !LinkOk(h, records, i) && forall j :: 0 <= j < i ==> LinkOk(h, records, j)
  }

  /** `verifyChain`: `None` accepts, `Some(brokenAt)` carries the index field of a record. */
  method VerifyChain(h: Hash, records: seq<ChainRecord>) returns (brokenAt: Option<int>)
    ensures brokenAt.None? <==> WellChained(h, records)
    ensures brokenAt.Some? ==> exists i :: FirstBreak(h, records, i) && brokenAt.value == records[i].index
  {
    var prevRoot: Bytes := GENESIS;
    for i := 0 to |records|
      invariant prevRoot == if i == 0 then GENESIS else records[i - 1].root
      invariant forall j :: 0 <= j < i ==> LinkOk(h, records, j)
    {
      var rec := records[i];
      assert !LinkOk(h, records, i) ==> FirstBreak(h, records, i);
      if rec.prevRoot != prevRoot { return Some(rec.index); }
      var root := NextRoot(h, prevRoot, rec.leaf);
      if rec.root != root { return Some(rec.index); }
      prevRoot := rec.root;
    }
    return None;
  }

  /** The records agree in everything `verifyChain` looks at. */
  ghost predicate SameLinks(a: seq<ChainRecord>, b: seq<ChainRecord>) {
    |a| == |b| && forall i :: 0 <= i < |a| ==> a[i].(index := 0) == b[i].(index := 0)
  }

  lemma WellChainedInit(h: Hash, records: seq<ChainRecord>)
    requires |records| > 0
    ensures WellChained(h, records) <==> WellChained(h, records[..|records| - 1]) && LinkOk(h, records, |records| - 1)
  {
    var init := records[..|records| - 1];
    forall i | 0 <= i < |init| ensures LinkOk(h, init, i) <==> LinkOk(h, records, i) {
    }
  }

  lemma SameLinksInit(a: seq<ChainRecord>, b: seq<ChainRecord>)
    requires |a| == |b| > 0
    ensures SameLinks(a, b) <==>
      SameLinks(a[..|a| - 1], b[..|b| - 1]) && a[|a| - 1].(index := 0) == b[|b| - 1].(index := 0)
  {
    var n := |a| - 1;
    assert forall i :: 0 <= i < n ==> a[..n][i] == a[i] && b[..n][i] == b[i];
  }

  /** Accepted are exactly the records that folding `appendLeaf` over their leaves produces. */
  lemma {:induction false} AcceptsExactlyChains(h: Hash, records: seq<ChainRecord>)
    ensures WellChained(h, records) <==> SameLinks(records, Chain(h, Leaves(records)))
  {
    if |records| > 0 {
      var n := |records| - 1;
      var chain := Chain(h, Leaves(records));
      AcceptsExactlyChains(h, records[..n]);
      assert Leaves(records)[..n] == Leaves(records[..n]);
      assert chain[..n] == Chain(h, Leaves(records[..n]));
      WellChainedInit(h, records);
      SameLinksInit(records, chain);
      if n > 0 && SameLinks(records[..n], chain[..n]) {
        assert records[..n][n - 1].(index := 0) == chain[..n][n - 1].(index := 0);
      }
    }
  }

  // ---------- The last root fixes the chain ----------

  datatype Conflict = Colliding(pair: (Bytes, Bytes)) | GenesisPreimage(x: Bytes)

  /** Either a collision or a string that hashes to 32 zero bytes. */
  predicate Breaks(h: Hash, c: Conflict) {
    match c
    case Colliding(pair) => Collision(h, pair)
    case GenesisPreimage(x) => h(x) == GENESIS
  }

  /** Walks two chains back from their common last root to the first difference. */
  function ChainConflict(h: Hash, a: seq<Bytes>, b: seq<Bytes>): Conflict
    decreases |a|
  {
    if |a| == 0 && |b| == 0 then GenesisPreimage([])
    else if |a| == 0 then GenesisPreimage(ChainRoot(h, b[..|b| - 1]) + b[|b| - 1])
    else if |b| == 0 then GenesisPreimage(ChainRoot(h, a[..|a| - 1]) + a[|a| - 1])
    else
      var u, v := ChainRoot(h, a[..|a| - 1]) + a[|a| - 1], ChainRoot(h, b[..|b| - 1]) + b[|b| - 1];
      if u != v then Colliding((u, v)) else ChainConflict(h, a[..|a| - 1], b[..|b| - 1])
  }

  /** Two chains with one last root agree leaf for leaf, or the conflict breaks the hash; for
      chains of one length it is a collision. */
  lemma {:induction false} ChainBinds(h: Hash, a: seq<Bytes>, b: seq<Bytes>)
    requires ChainRoot(h, a) == ChainRoot(h, b)
    ensures a == b || Breaks(h, ChainConflict(h, a, b))
    ensures |a| == |b| && a != b ==> ChainConflict(h, a, b).Colliding?
    decreases |a|
  {
    if |a| > 0 && |b| > 0 {
      var a', b' := a[..|a| - 1], b[..|b| - 1];
      var u, v := ChainRoot(h, a') + a[|a| - 1], ChainRoot(h, b') + b[|b| - 1];
      if u == v {
        SplitConcat<byte>(ChainRoot(h, a'), a[|a| - 1], ChainRoot(h, b'), b[|b| - 1]);
        ChainBinds(h, a', b');
        assert a == a' + [a[|a| - 1]] && b == b' + [b[|b| - 1]];
      }
    }
  }

  /** The same for the records `verifyChain` accepts. */
  lemma AcceptedChainsBind(h: Hash, a: seq<ChainRecord>, b: seq<ChainRecord>)
    requires |a| > 0 && |b| > 0 && WellChained(h, a) && WellChained(h, b)
    requires a[|a| - 1].root == b[|b| - 1].root
    ensures Leaves(a) == Leaves(b) || Breaks(h, ChainConflict(h, Leaves(a), Leaves(b)))
    ensures |a| == |b| && Leaves(a) != Leaves(b) ==> ChainConflict(h, Leaves(a), Leaves(b)).Colliding?
  {
    LastRoot(h, a);
    LastRoot(h, b);
    ChainBinds(h, Leaves(a), Leaves(b));
  }

  lemma LastRoot(h: Hash, records: seq<ChainRecord>)
    requires |records| > 0 && WellChained(h, records)
    ensures records[|records| - 1].root == ChainRoot(h, Leaves(records))
  {
    AcceptsExactlyChains(h, records);
    ChainEnds(h, Leaves(records));
    var n := |records| - 1;
    assert records[n].(index := 0) == Chain(h, Leaves(records))[n].(index := 0);
  }

  // ---------- Inclusion witnesses ----------

  /** `verifyInclusion` of a receipt. */
  predicate WitnessOk(h: Hash, w: ChainRecord) {
    w.root == NextRoot(h, w.prevRoot, w.leaf)
  }

  /** Every record of an accepted chain is a valid receipt, and two valid receipts with 32-byte
      previous roots and one root certify the same leaf, or collide. */
  lemma WitnessBinds(h: Hash, v: ChainRecord, w: ChainRecord)
    requires WitnessOk(h, v) && WitnessOk(h, w) && v.root == w.root && |v.prevRoot| == |w.prevRoot|
    ensures (v.leaf == w.leaf && v.prevRoot == w.prevRoot) || Collision(h, (v.prevRoot + v.leaf, w.prevRoot + w.leaf))
  {
    if v.prevRoot + v.leaf == w.prevRoot + w.leaf {
      SplitConcat(v.prevRoot, v.leaf, w.prevRoot, w.leaf);
    }
  }
}
