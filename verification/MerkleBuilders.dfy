/** The two tree builders and the verifier they feed: `build_tree` pads with zero leaves to a
    power of two and reads proofs off its layers; `merkle` duplicates an unpaired last node and
    extends the proofs in place while it climbs. */
module MerkleBuilders {
  import opened ByteStrings
  import opened MerkleTree

  /** `verify_inclusion`. */
  method VerifyInclusion(h: Hash, leaf: Digest, path: seq<Step>, expectedRoot: Bytes) returns (ok: bool)
    ensures ok <==> Fold(h, leaf, path) == expectedRoot
  {
    var current := leaf;
    assert path[0..] == path;
    for i := 0 to |path|
      invariant Fold(h, current, path[i..]) == Fold(h, leaf, path)
    {
      var step := path[i];
      assert path[i..][0] == step && path[i..][1..] == path[i + 1..];
      if step.side == Right {
        current := h(current + step.sibling);
      } else {
        current := h(step.sibling + current);
      }
    }
    return current == expectedRoot;
  }

  // ---------- Zero padding ----------

  /** The layers above and including a level, leaves first. */
  function Layers(h: Hash, level: seq<Digest>): (layers: seq<seq<Digest>>)
    requires |level| > 0
    ensures |layers| == CeilLog2(|level|) + 1 && layers[0] == level
    decreases |level|
  {
    if |level| == 1 then [level] else [level] + Layers(h, NextLevel(h, level))
  }

  lemma {:induction false} LayersTop(h: Hash, level: seq<Digest>)
    requires |level| > 0
    ensures Layers(h, level)[CeilLog2(|level|)] == [Root(h, level)]
    decreases |level|
  {
    if |level| > 1 {
      LayersTop(h, NextLevel(h, level));
    } else {
      assert level == [level[0]];
    }
  }

  lemma {:induction false} LayersStep(h: Hash, level: seq<Digest>, j: nat)
    requires |level| > 0 && j < CeilLog2(|level|)
    ensures var layers := Layers(h, level);
      |layers[j]| > 1 && CeilLog2(|layers[j]|) == CeilLog2(|level|) - j && layers[j + 1] == NextLevel(h, layers[j])
    ensures IsPow2(|level|) ==> |Layers(h, level)[j]| % 2 == 0
    decreases |level|
  {
    if j > 0 {
      LayersStep(h, NextLevel(h, level), j - 1);
    }
  }

  /** `bytes(32)` where a node has no partner. */
  function NodeOrZero(layer: seq<Digest>, i: nat): Digest {
    if i < |layer| then layer[i] else ZERO_DIGEST
  }

  function Sibling(pos: nat): nat {
    if pos % 2 == 0 then pos + 1 else pos - 1
  }

  /** Neither out-of-range fallback of `build_tree` is ever taken: below the root every layer of a
      power of two many leaves has even length, so every node has its sibling. */
  lemma SiblingInRange(h: Hash, leaves: seq<Digest>, j: nat, pos: nat)
    requires |leaves| > 0 && j < CeilLog2(|Pad(leaves)|) && pos < |Layers(h, Pad(leaves))[j]|
    ensures Sibling(pos) < |Layers(h, Pad(leaves))[j]|
  {
    LayersStep(h, Pad(leaves), j);
    SiblingBelowEven(|Layers(h, Pad(leaves))[j]|, pos);
  }

  lemma SiblingBelowEven(n: nat, pos: nat)
    requires n % 2 == 0 && pos < n
    ensures Sibling(pos) < n
  {
  }

  /** One layer of hashed pairs. */
  method HashPairs(h: Hash, current: seq<Digest>) returns (nextLayer: seq<Digest>)
    ensures |nextLayer| == (|current| + 1) / 2
    ensures forall k :: 0 <= k < |nextLayer| ==> nextLayer[k] == h(current[2 * k] + NodeOrZero(current, 2 * k + 1))
  {
    nextLayer := [];
    var i := 0;
    while i < |current|
      invariant 0 <= i <= |current| + 1 && i % 2 == 0 && |nextLayer| == i / 2
      invariant forall k :: 0 <= k < |nextLayer| ==> nextLayer[k] == h(current[2 * k] + NodeOrZero(current, 2 * k + 1))
    {
      assert i == 2 * (i / 2);
      nextLayer := nextLayer + [h(current[i] + NodeOrZero(current, i + 1))];
      i := i + 2;
    }
  }

  /** On a layer of even length pairing is the next level of the tree. */
  lemma EvenPairs(h: Hash, current: seq<Digest>, nextLayer: seq<Digest>)
    requires |current| > 0 && |current| % 2 == 0 && |nextLayer| == (|current| + 1) / 2
    requires forall k :: 0 <= k < |nextLayer| ==> nextLayer[k] == h(current[2 * k] + NodeOrZero(current, 2 * k + 1))
    ensures nextLayer == NextLevel(h, current)
  {
    forall k | 0 <= k < |nextLayer| ensures nextLayer[k] == NextLevel(h, current)[k] {
      assert NodeOrZero(current, 2 * k + 1) == RightOf(current, k);
    }
  }

  /** On a layer of even length the recorded step is the tree's. */
  lemma EvenStep(layer: seq<Digest>, pos: nat)
    requires |layer| % 2 == 0 && pos < |layer|
    ensures StepAt(layer, pos) == SiblingStep(layer, pos)
  {
  }

  /** Moving one step from the rest of a proof to its beginning. */
  lemma MoveStep(done: seq<Step>, step: Step, rest: seq<Step>, whole: seq<Step>)
    requires done + ([step] + rest) == whole
    ensures done + [step] + rest == whole
  {
  }

  /** The step `build_tree` records at one layer. */
  function StepAt(layer: seq<Digest>, pos: nat): Step {
    Step(NodeOrZero(layer, Sibling(pos)), if pos % 2 == 0 then Right else Left)
  }

  /** The proof of one leaf, read off the layers from the leaves up. */
  method PathOf(h: Hash, ghost padded: seq<Digest>, layers: seq<seq<Digest>>, leaf: nat) returns (path: seq<Step>)
    requires |padded| > 0 && IsPow2(|padded|) && layers == Layers(h, padded) && leaf < |padded|
    ensures path == Proof(h, padded, leaf)
  {
    path := [];
    var pos: nat := leaf;
    for j := 0 to |layers| - 1
      invariant pos < |layers[j]|
      invariant path + Proof(h, layers[j], pos) == Proof(h, padded, leaf)
    {
      LayersStep(h, padded, j);
      EvenStep(layers[j], pos);
      MoveStep(path, StepAt(layers[j], pos), Proof(h, layers[j + 1], pos / 2), Proof(h, padded, leaf));
      path := path + [StepAt(layers[j], pos)];
      pos := pos / 2;
    }
    LayersTop(h, padded);
  }

  lemma HalfIsPow2(n: nat)
    requires n > 1 && IsPow2(n)
    ensures IsPow2((n + 1) / 2)
  {
    assert (n + 1) / 2 == n / 2;
  }

  lemma LayersRest(h: Hash, level: seq<Digest>)
    requires |level| > 1
    ensures Layers(h, level)[1..] == Layers(h, NextLevel(h, level))
    ensures |Layers(h, NextLevel(h, level))| > 0 && Layers(h, NextLevel(h, level))[0] == NextLevel(h, level)
  {
  }

  /** One layer goes from those to come to those built. */
  lemma LayersMove(h: Hash, padded: seq<Digest>, layers: seq<seq<Digest>>, current: seq<Digest>, nextLayer: seq<Digest>)
    requires |padded| > 0 && |current| > 1 && IsPow2(|current|) && nextLayer == NextLevel(h, current)
    requires layers + Layers(h, current)[1..] == Layers(h, padded)
    ensures IsPow2(|nextLayer|) && layers + [nextLayer] + Layers(h, nextLayer)[1..] == Layers(h, padded)
  {
    LayersRest(h, current);
    HalfIsPow2(|current|);
    MoveFirst(layers, Layers(h, nextLayer), Layers(h, padded));
  }

  lemma MoveFirst<T>(done: seq<T>, rest: seq<T>, whole: seq<T>)
    requires |rest| > 0 && done + rest == whole
    ensures done + [rest[0]] + rest[1..] == whole
  {
    assert rest == [rest[0]] + rest[1..];
  }

  /** The layers of `build_tree`, bottom up. */
  method BuildLayers(h: Hash, padded: seq<Digest>) returns (layers: seq<seq<Digest>>)
    requires IsPow2(|padded|)
    ensures layers == Layers(h, padded)
  {
    layers := [padded];
    var current := padded;
    while |current| > 1
      invariant |current| > 0 && IsPow2(|current|)
      invariant layers + Layers(h, current)[1..] == Layers(h, padded)
      decreases |current|
    {
      var nextLayer := HashPairs(h, current);
      EvenPairs(h, current, nextLayer);
      LayersMove(h, padded, layers, current, nextLayer);
      layers := layers + [nextLayer];
      current := nextLayer;
    }
    assert Layers(h, current)[1..] == [];
  }

  /** The padding loop. */
  method PadLeaves(leaves: seq<Digest>) returns (padded: seq<Digest>)
    ensures padded == Pad(leaves)
  {
    var n := 1;
    while n < |leaves|
      invariant IsPow2(n) && PadSize(n, |leaves|) == PadSize(1, |leaves|)
      decreases |leaves| - n
    {
      IsPow2Double(n);
      n := 2 * n;
    }
    padded := leaves + seq<Digest>(n - |leaves|, _ => ZERO_DIGEST);
  }

  /** These are the proofs of the first `n` leaves. */
  ghost predicate ProofsOf(h: Hash, padded: seq<Digest>, proofs: map<nat, seq<Step>>, n: nat)
    requires n <= |padded|
  {
    && (forall i: nat :: i in proofs <==> i < n)
    && forall i: nat :: i in proofs ==> proofs[i] == Proof(h, padded, i)
  }

  /** The loop over the original leaves. */
  method AllPaths(h: Hash, ghost padded: seq<Digest>, layers: seq<seq<Digest>>, n: nat)
    returns (proofs: map<nat, seq<Step>>)
    requires IsPow2(|padded|) && layers == Layers(h, padded) && n <= |padded|
    ensures ProofsOf(h, padded, proofs, n)
  {
    proofs := map[];
    for leaf := 0 to n
      invariant ProofsOf(h, padded, proofs, leaf)
    {
      var path := PathOf(h, padded, layers, leaf);
      ProofsGrow(h, padded, proofs, leaf, path);
      proofs := proofs[leaf := path];
    }
  }

  lemma ProofsGrow(h: Hash, padded: seq<Digest>, proofs: map<nat, seq<Step>>, n: nat, path: seq<Step>)
    requires n < |padded| && ProofsOf(h, padded, proofs, n) && path == Proof(h, padded, n)
    ensures ProofsOf(h, padded, proofs[n := path], n + 1)
  {
  }

  /** `build_tree`; `None` is its error on an empty leaf list. */
  method BuildTree(h: Hash, leaves: seq<Digest>) returns (r: Option<(Digest, map<nat, seq<Step>>)>)
    ensures r.None? <==> leaves == []
    ensures r.Some? ==> r.value.0 == Root(h, Pad(leaves))
    ensures r.Some? ==> forall i: nat :: i in r.value.1 <==> i < |leaves|
    ensures r.Some? ==> forall i: nat :: i in r.value.1 ==> r.value.1[i] == Proof(h, Pad(leaves), i)
  {
    if |leaves| == 0 { return None; }
    var padded := PadLeaves(leaves);
    var layers := BuildLayers(h, padded);
    LayersTop(h, padded);
    var root := layers[|layers| - 1][0];
    var proofs := AllPaths(h, padded, layers, |leaves|);
    return Some((root, proofs));
  }

  /** What `build_tree` promises: every proof verifies against the root and has the length of
      the tree's depth. */
  lemma PaddedProofs(h: Hash, leaves: seq<Digest>, i: nat)
    requires i < |leaves|
    ensures Fold(h, leaves[i], Proof(h, Pad(leaves), i)) == Root(h, Pad(leaves))
    ensures |Proof(h, Pad(leaves), i)| == CeilLog2(|leaves|)
  {
    assert Pad(leaves)[i] == Pad(leaves)[..|leaves|][i] == leaves[i];
    ProofVerifies(h, Pad(leaves), i);
    ProofLength(h, Pad(leaves), i);
    PadSizeDepth(1, |leaves|);
  }

  datatype MerkleProof = MerkleProof(leaf: Digest, leafIndex: nat, path: seq<Step>, root: Digest)

  /** `get_merkle_proof` from the generated leaf on; `None` when the leaf is not in the tree. */
  method GetMerkleProof(h: Hash, leaf: Digest, allLeaves: seq<Digest>) returns (r: Option<MerkleProof>)
    ensures r.Some? <==> leaf in allLeaves
    ensures r.Some? ==> var p := r.value;
      && p.leaf == leaf && p.leafIndex < |allLeaves| && allLeaves[p.leafIndex] == leaf
      && leaf !in allLeaves[..p.leafIndex]
      && p.root == Root(h, Pad(allLeaves)) && Fold(h, leaf, p.path) == p.root
      && SidesOf(p.path, p.leafIndex) && |p.path| == CeilLog2(|allLeaves|)
  {
    var tree := BuildTree(h, allLeaves);
    if tree.None? { return None; }
    var (root, proofs) := tree.value;
    var i := FirstIndex(allLeaves, leaf);
    if i.None? { return None; }
    PaddedProofs(h, allLeaves, i.value);
    ProofSides(h, Pad(allLeaves), i.value);
    return Some(MerkleProof(leaf, i.value, proofs[i.value], root));
  }

  /** `list.index`; `None` is its ValueError. */
  method FirstIndex(leaves: seq<Digest>, leaf: Digest) returns (r: Option<nat>)
    ensures r.Some? <==> leaf in leaves
    ensures r.Some? ==> r.value < |leaves| && leaves[r.value] == leaf && leaf !in leaves[..r.value]
  {
    for i := 0 to |leaves|
      invariant leaf !in leaves[..i]
    {
      if leaves[i] == leaf { return Some(i); }
    }
    return None;
  }

  // ---------- Duplicating the last node ----------

  /** The leaf indices below the nodes of a level are a partition of the first `n` numbers: leaf
      `i` is below node `node[i]` and below no other, and is listed there once. */
  ghost predicate Partition(idxMap: seq<seq<nat>>, node: seq<nat>) {
    && (forall i :: 0 <= i < |node| ==> node[i] < |idxMap| && i in idxMap[node[i]])
    && (forall k, m :: 0 <= k < |idxMap| && 0 <= m < |idxMap[k]| ==> idxMap[k][m] < |node| && node[idxMap[k][m]] == k)
    && (forall k, m, m' :: 0 <= k < |idxMap| && 0 <= m < m' < |idxMap[k]| ==> idxMap[k][m] != idxMap[k][m'])
  }

  /** Appends one step to the proof of every leaf listed. */
  method PushAll(proofs: array<seq<Step>>, indices: seq<nat>, step: Step)
    requires forall m :: 0 <= m < |indices| ==> indices[m] < proofs.Length
    requires forall m, m' :: 0 <= m < m' < |indices| ==> indices[m] != indices[m']
    modifies proofs
    ensures forall i :: 0 <= i < proofs.Length ==>
      proofs[i] == if i in indices then old(proofs[i]) + [step] else old(proofs[i])
  {
    for m := 0 to |indices|
      invariant forall i :: 0 <= i < proofs.Length ==>
        proofs[i] == if i in indices[..m] then old(proofs[i]) + [step] else old(proofs[i])
    {
      assert indices[m] !in indices[..m];
      assert indices[..m + 1] == indices[..m] + [indices[m]];
      proofs[indices[m]] := proofs[indices[m]] + [step];
    }
  }

  /** The partial proof of every leaf folds to its node and, continued from there, is the leaf's
      whole proof. */
  ghost predicate PartialProofs(h: Hash, leaves: seq<Digest>, level: seq<Digest>, node: seq<nat>,
                                partial: seq<seq<Step>>)
    requires |node| == |partial| == |leaves|
  {
    forall i :: 0 <= i < |leaves| ==>
      && node[i] < |level|
      && Fold(h, leaves[i], partial[i]) == level[node[i]]
      && partial[i] + Proof(h, level, node[i]) == Proof(h, leaves, i)
  }

  /** From `before` to `now` exactly the leaves below nodes `from..to` got their sibling's step. */
  ghost predicate Stepped(level: seq<Digest>, node: seq<nat>, from: nat, to: nat, before: seq<seq<Step>>,
                          now: seq<seq<Step>>) {
    && |node| == |before| == |now|
    && (forall l :: 0 <= l < |node| ==> node[l] < |level|)
    && (forall l :: 0 <= l < |node| ==>
         now[l] == if from <= node[l] < to then before[l] + [SiblingStep(level, node[l])] else before[l])
  }

  lemma SteppedTwice(level: seq<Digest>, node: seq<nat>, from: nat, mid: nat, to: nat,
                     s0: seq<seq<Step>>, s1: seq<seq<Step>>, s2: seq<seq<Step>>)
    requires from <= mid <= to && Stepped(level, node, from, mid, s0, s1) && Stepped(level, node, mid, to, s1, s2)
    ensures Stepped(level, node, from, to, s0, s2)
  {
  }

  /** Where the level ends, the next node has no leaves. */
  lemma SteppedPastEnd(level: seq<Digest>, node: seq<nat>, from: nat, before: seq<seq<Step>>, now: seq<seq<Step>>)
    requires Stepped(level, node, from, |level|, before, now)
    ensures Stepped(level, node, from, |level| + 1, before, now)
  {
  }

  /** The step goes to every leaf below node `k`. */
  method PushBelow(level: seq<Digest>, idxMap: seq<seq<nat>>, proofs: array<seq<Step>>, k: nat, step: Step,
                   ghost node: seq<nat>)
    requires k < |level| == |idxMap| && |node| == proofs.Length && Partition(idxMap, node)
      && step == SiblingStep(level, k)
    modifies proofs
    ensures Stepped(level, node, k, k + 1, old(proofs[..]), proofs[..])
  {
    BelowNode(idxMap, node, k);
    PushAll(proofs, idxMap[k], step);
  }

  /** The loop body of a sweep: the pair of nodes at `i` gives every leaf below it a step, and
      becomes one node with the joined leaves. */
  method JoinPair(h: Hash, level: seq<Digest>, idxMap: seq<seq<nat>>, proofs: array<seq<Step>>, i: nat,
                  ghost node: seq<nat>)
    returns (parent: Digest, joined: seq<nat>)
    requires i < |level| == |idxMap| && i % 2 == 0 && |node| == proofs.Length && Partition(idxMap, node)
    modifies proofs
    ensures parent == ParentAt(h, level, i / 2) && joined == JoinedAt(idxMap, i / 2)
    ensures Stepped(level, node, i, i + 2, old(proofs[..]), proofs[..])
  {
    var hasRight := i + 1 < |level|;
    var left: Digest, right: Digest := level[i], if hasRight then level[i + 1] else level[i];
    PushBelow(level, idxMap, proofs, i, Step(right, Right), node);
    joined := idxMap[i];
    if hasRight {
      ghost var between := proofs[..];
      PushBelow(level, idxMap, proofs, i + 1, Step(left, Left), node);
      SteppedTwice(level, node, i, i + 1, i + 2, old(proofs[..]), between, proofs[..]);
      joined := joined + idxMap[i + 1];
    } else {
      SteppedPastEnd(level, node, i, old(proofs[..]), proofs[..]);
    }
    parent := h(left + right);
  }

  /** One sweep of `merkle` over a level. */
  method Sweep(h: Hash, level: seq<Digest>, idxMap: seq<seq<nat>>, proofs: array<seq<Step>>, ghost node: seq<nat>)
    returns (next: seq<Digest>, nextIdx: seq<seq<nat>>)
    requires |level| > 1 && |idxMap| == |level| && |node| == proofs.Length && Partition(idxMap, node)
    modifies proofs
    ensures next == NextLevel(h, level) && nextIdx == JoinPairs(idxMap)
    ensures Stepped(level, node, 0, |level|, old(proofs[..]), proofs[..])
  {
    next, nextIdx := [], [];
    var i := 0;
    while i < |level|
      invariant 0 <= i <= |level| + 1 && i % 2 == 0
      invariant next == NextLevel(h, level)[..i / 2]
      invariant nextIdx == JoinPairs(idxMap)[..i / 2]
      invariant Stepped(level, node, 0, i, old(proofs[..]), proofs[..])
      decreases |level| - i
    {
      ghost var before := proofs[..];
      var parent, joined := JoinPair(h, level, idxMap, proofs, i, node);
      SteppedTwice(level, node, 0, i, i + 2, old(proofs[..]), before, proofs[..]);
      PrefixGrows(NextLevel(h, level), i / 2);
      PrefixGrows(JoinPairs(idxMap), i / 2);
      next := next + [parent];
      nextIdx := nextIdx + [joined];
      i := i + 2;
    }
    SteppedAll(level, node, i, old(proofs[..]), proofs[..]);
  }

  lemma PrefixGrows<T>(s: seq<T>, k: nat)
    requires k < |s|
    ensures s[..k + 1] == s[..k] + [s[k]]
  {
  }

  lemma SteppedAll(level: seq<Digest>, node: seq<nat>, to: nat, before: seq<seq<Step>>, now: seq<seq<Step>>)
    requires to >= |level| && Stepped(level, node, 0, to, before, now)
    ensures Stepped(level, node, 0, |level|, before, now)
  {
  }

  function Halved(node: seq<nat>): (r: seq<nat>)
    ensures |r| == |node|
  {
    seq(|node|, i requires 0 <= i < |node| => node[i] / 2)
  }

  /** The leaves below the `k`-th pair of nodes. */
  function JoinedAt(idxMap: seq<seq<nat>>, k: nat): seq<nat>
    requires 2 * k < |idxMap|
  {
    if 2 * k + 1 < |idxMap| then idxMap[2 * k] + idxMap[2 * k + 1] else idxMap[2 * k]
  }

  function JoinPairs(idxMap: seq<seq<nat>>): (joined: seq<seq<nat>>)
    ensures |joined| == (|idxMap| + 1) / 2
    ensures forall k :: 0 <= k < |joined| ==> joined[k] == JoinedAt(idxMap, k)
  {
    seq((|idxMap| + 1) / 2, k requires 0 <= k < (|idxMap| + 1) / 2 => JoinedAt(idxMap, k))
  }

  lemma BelowNode(idxMap: seq<seq<nat>>, node: seq<nat>, k: nat)
    requires Partition(idxMap, node) && k < |idxMap|
    ensures forall i :: 0 <= i < |node| ==> (i in idxMap[k] <==> node[i] == k)
    ensures forall m :: 0 <= m < |idxMap[k]| ==> idxMap[k][m] < |node|
  {
    forall i | 0 <= i < |node| && i in idxMap[k] ensures node[i] == k {
      var m :| 0 <= m < |idxMap[k]| && idxMap[k][m] == i;
    }
  }

  /** Where an entry of a joined list comes from. */
  lemma JoinedEntry(idxMap: seq<seq<nat>>, node: seq<nat>, k: nat, m: nat)
    requires Partition(idxMap, node) && 2 * k < |idxMap| && m < |JoinedAt(idxMap, k)|
    ensures var l := JoinedAt(idxMap, k)[m];
      l < |node| && node[l] == (if m < |idxMap[2 * k]| then 2 * k else 2 * k + 1)
  {
  }

  lemma JoinedDistinct(idxMap: seq<seq<nat>>, node: seq<nat>, k: nat, m: nat, m': nat)
    requires Partition(idxMap, node) && 2 * k < |idxMap| && m < m' < |JoinedAt(idxMap, k)|
    ensures JoinedAt(idxMap, k)[m] != JoinedAt(idxMap, k)[m']
  {
    JoinedEntry(idxMap, node, k, m);
    JoinedEntry(idxMap, node, k, m');
  }

  lemma JoinedMember(idxMap: seq<seq<nat>>, node: seq<nat>, i: nat)
    requires Partition(idxMap, node) && i < |node|
    ensures 2 * (node[i] / 2) < |idxMap| && i in JoinedAt(idxMap, node[i] / 2)
  {
    var k := node[i] / 2;
    assert node[i] == 2 * k || node[i] == 2 * k + 1;
  }

  /** Joining neighbours keeps the index lists a partition. */
  lemma JoinPartition(idxMap: seq<seq<nat>>, node: seq<nat>)
    requires Partition(idxMap, node)
    ensures Partition(JoinPairs(idxMap), Halved(node))
  {
    var joined, half := JoinPairs(idxMap), Halved(node);
    forall i | 0 <= i < |half| ensures half[i] < |joined| && i in joined[half[i]] {
      JoinedMember(idxMap, node, i);
    }
    forall k, m | 0 <= k < |joined| && 0 <= m < |joined[k]| ensures joined[k][m] < |half| && half[joined[k][m]] == k {
      JoinedEntry(idxMap, node, k, m);
    }
    forall k, m, m' | 0 <= k < |joined| && 0 <= m < m' < |joined[k]| ensures joined[k][m] != joined[k][m'] {
      JoinedDistinct(idxMap, node, k, m, m');
    }
  }

  lemma ExtendPartialProofs(h: Hash, leaves: seq<Digest>, level: seq<Digest>, node: seq<nat>,
                            partial: seq<seq<Step>>, extended: seq<seq<Step>>)
    requires |level| > 1 && |leaves| == |node| && Stepped(level, node, 0, |level|, partial, extended)
    requires PartialProofs(h, leaves, level, node, partial)
    ensures PartialProofs(h, leaves, NextLevel(h, level), Halved(node), extended)
  {
    var next := NextLevel(h, level);
    forall i | 0 <= i < |leaves|
      ensures Halved(node)[i] < |next| && Fold(h, leaves[i], extended[i]) == next[Halved(node)[i]]
      ensures extended[i] + Proof(h, next, Halved(node)[i]) == Proof(h, leaves, i)
    {
      MoveStep(partial[i], SiblingStep(level, node[i]), Proof(h, next, node[i] / 2), Proof(h, leaves, i));
      FoldAppend(h, leaves[i], partial[i], SiblingStep(level, node[i]));
      StepLeadsToParent(h, level, node[i]);
    }
  }

  lemma {:induction false} FoldAppend(h: Hash, node: Digest, path: seq<Step>, step: Step)
    ensures Fold(h, node, path + [step]) == h(StepInput(Fold(h, node, path), step))
    decreases |path|
  {
    if |path| > 0 {
      assert (path + [step])[1..] == path[1..] + [step];
      FoldAppend(h, h(StepInput(node, path[0])), path[1..], step);
    } else {
      assert path + [step] == [step];
    }
  }

  /** What holds between two levels: the index lists are a partition, the root is still to be
      reached, and every partial proof leads to its node. */
  ghost predicate Climbing(h: Hash, leaves: seq<Digest>, level: seq<Digest>, idxMap: seq<seq<nat>>, node: seq<nat>,
                           partial: seq<seq<Step>>) {
    && |level| == |idxMap| > 0 && |node| == |leaves| == |partial| > 0 && Partition(idxMap, node)
    && Root(h, level) == Root(h, leaves) && PartialProofs(h, leaves, level, node, partial)
  }

  lemma ClimbLevel(h: Hash, leaves: seq<Digest>, level: seq<Digest>, idxMap: seq<seq<nat>>, node: seq<nat>,
                   before: seq<seq<Step>>, after: seq<seq<Step>>)
    requires Climbing(h, leaves, level, idxMap, node, before) && |level| > 1
      && Stepped(level, node, 0, |level|, before, after)
    ensures Climbing(h, leaves, NextLevel(h, level), JoinPairs(idxMap), Halved(node), after)
  {
    ExtendPartialProofs(h, leaves, level, node, before, after);
    JoinPartition(idxMap, node);
  }

  lemma ClimbStarts(h: Hash, leaves: seq<Digest>, idxMap: seq<seq<nat>>, node: seq<nat>, partial: seq<seq<Step>>)
    requires |leaves| == |idxMap| == |node| == |partial| > 0
    requires forall i :: 0 <= i < |leaves| ==> idxMap[i] == [i] && node[i] == i && partial[i] == []
    ensures Climbing(h, leaves, leaves, idxMap, node, partial)
  {
  }

  /** `merkle` of question-seal.ts: climbs level by level, extending `proofs` in place; `None` is its
      error on an empty leaf list. */
  method BuildDuplicating(h: Hash, leaves: seq<Digest>) returns (r: Option<(Digest, seq<seq<Step>>)>)
    ensures r.None? <==> leaves == []
    ensures r.Some? ==> r.value.0 == Root(h, leaves) && |r.value.1| == |leaves|
    ensures r.Some? ==> forall i :: 0 <= i < |leaves| ==> r.value.1[i] == Proof(h, leaves, i)
  {
    if |leaves| == 0 { return None; }
    var proofs := new seq<Step>[|leaves|](_ => []);
    var level := leaves;
    var idxMap: seq<seq<nat>> := seq(|leaves|, i requires 0 <= i < |leaves| => [i]);
    ghost var node: seq<nat> := seq(|leaves|, i requires 0 <= i < |leaves| => i);
    ClimbStarts(h, leaves, idxMap, node, proofs[..]);
    while |level| > 1
      invariant proofs.Length == |leaves| && Climbing(h, leaves, level, idxMap, node, proofs[..])
      decreases |level|
    {
      ghost var before := proofs[..];
      var next, nextIdx := Sweep(h, level, idxMap, proofs, node);
      ClimbLevel(h, leaves, level, idxMap, node, before, proofs[..]);
      level, idxMap, node := next, nextIdx, Halved(node);
    }
    return Some((level[0], proofs[..]));
  }

  /** Whatever the number of leaves, every proof of the duplicating builder verifies. */
  lemma DuplicatingProofs(h: Hash, leaves: seq<Digest>, i: nat)
    requires i < |leaves|
    ensures Fold(h, leaves[i], Proof(h, leaves, i)) == Root(h, leaves)
    ensures |Proof(h, leaves, i)| == CeilLog2(|leaves|)
  {
    ProofVerifies(h, leaves, i);
    ProofLength(h, leaves, i);
  }

  /** For a power of two many leaves the two builders return the same root and proofs. */
  lemma BuildersAgree(h: Hash, leaves: seq<Digest>)
    requires IsPow2(|leaves|)
    ensures Root(h, Pad(leaves)) == Root(h, leaves)
    ensures forall i :: 0 <= i < |leaves| ==> Proof(h, Pad(leaves), i) == Proof(h, leaves, i)
  {
    PadOfPow2(leaves);
  }
}
