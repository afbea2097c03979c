/** What a root and an accepted path pin down. The verifier sees neither the number of leaves nor a
    position, so it accepts every node of the tree, not only leaves, and paths that go on below a
    leaf; and roots of lists of different depths can agree. This module says exactly when. */
module MerkleBinding {
  import opened ByteStrings
  import opened MerkleTree

  // ---------- Levels ----------

  /** The level `k` steps above the leaves. */
  function Level(h: Hash, leaves: seq<Digest>, k: nat): (level: seq<Digest>)
    requires |leaves| > 0
    ensures |level| > 0
    decreases k
  {
    if k == 0 then leaves else Level(h, NextLevel(h, leaves), k - 1)
  }

  /** Up to its root a tree is the tree over any of its levels. */
  lemma {:induction false} RootOfLevel(h: Hash, leaves: seq<Digest>, k: nat)
    requires |leaves| > 0 && k <= CeilLog2(|leaves|)
    ensures Root(h, Level(h, leaves, k)) == Root(h, leaves)
    ensures CeilLog2(|Level(h, leaves, k)|) == CeilLog2(|leaves|) - k
    decreases k
  {
    if k > 0 {
      RootOfLevel(h, NextLevel(h, leaves), k - 1);
    }
  }

  // ---------- Positions of the completed tree ----------

  /** Duplicating a node without partner completes the tree to a power of two positions; this is
      the node of `n` that position `i` repeats. */
  function Resolve(n: nat, i: nat): (j: nat)
    requires n > 0
    ensures j < n && (i < n ==> j == i)
    decreases n
  {
    if n == 1 then 0
    else
      var k := Resolve((n + 1) / 2, i / 2);
      if 2 * k + i % 2 < n then 2 * k + i % 2 else 2 * k
  }

  lemma ResolveChild(n: nat, i: nat)
    requires n > 1
    ensures var k := Resolve((n + 1) / 2, i / 2);
      2 * k < n && Resolve(n, i) == if i % 2 == 1 && 2 * k + 1 < n then 2 * k + 1 else 2 * k
  {
  }

  /** The first step from position `i` of the completed tree. */
  function FullFirst(level: seq<Digest>, i: nat): Step
    requires |level| > 1
  {
    var k := Resolve((|level| + 1) / 2, i / 2);
    if i % 2 == 0 then Step(RightOf(level, k), Right) else Step(level[2 * k], Left)
  }

  /** The proof of position `i` of the completed tree. */
  function FullProof(h: Hash, level: seq<Digest>, i: nat): seq<Step>
    requires |level| > 0
    decreases |level|
  {
    if |level| == 1 then [] else [FullFirst(level, i)] + FullProof(h, NextLevel(h, level), i / 2)
  }

  /** The node at position `i` of the completed tree, and its parent. */
  lemma FullStep(h: Hash, level: seq<Digest>, i: nat)
    requires |level| > 1
    ensures h(StepInput(level[Resolve(|level|, i)], FullFirst(level, i)))
      == NextLevel(h, level)[Resolve((|level| + 1) / 2, i / 2)]
  {
    ResolveChild(|level|, i);
    var k := Resolve((|level| + 1) / 2, i / 2);
    assert NextLevel(h, level)[k] == ParentAt(h, level, k);
  }

  lemma {:induction false} FullProofVerifies(h: Hash, level: seq<Digest>, i: nat)
    requires |level| > 0
    ensures Fold(h, level[Resolve(|level|, i)], FullProof(h, level, i)) == Root(h, level)
    ensures |FullProof(h, level, i)| == CeilLog2(|level|) && SidesOf(FullProof(h, level, i), i)
    decreases |level|
  {
    if |level| > 1 {
      FullStep(h, level, i);
      assert FullProof(h, level, i)[0] == FullFirst(level, i);
      FullProofVerifies(h, NextLevel(h, level), i / 2);
      assert FullProof(h, level, i)[1..] == FullProof(h, NextLevel(h, level), i / 2);
    }
  }

  lemma FirstOfLeaf(level: seq<Digest>, i: nat)
    requires i < |level| && |level| > 1
    ensures FullFirst(level, i) == SiblingStep(level, i)
  {
    assert Resolve((|level| + 1) / 2, i / 2) == i / 2;
  }

  /** At the position of a real leaf this is the leaf's own proof. */
  lemma {:induction false} FullProofOfLeaf(h: Hash, level: seq<Digest>, i: nat)
    requires i < |level|
    ensures FullProof(h, level, i) == Proof(h, level, i)
    decreases |level|
  {
    if |level| > 1 {
      FullProofOfLeaf(h, NextLevel(h, level), i / 2);
      FirstOfLeaf(level, i);
    }
  }

  /** The position that the sides of a path spell. */
  function IndexOf(path: seq<Step>): nat {
    if |path| == 0 then 0 else (if path[0].side == Right then 0 else 1) + 2 * IndexOf(path[1..])
  }

  lemma {:induction false} IndexHasSides(path: seq<Step>)
    ensures SidesOf(path, IndexOf(path))
  {
    if |path| > 0 {
      IndexHasSides(path[1..]);
    }
  }

  // ---------- What an accepted path proves ----------

  /** A path as long as the tree is deep proves the leaf at the position its sides spell, or the
      conflict is a collision. */
  lemma FullPathBinds(h: Hash, leaves: seq<Digest>, x: Digest, path: seq<Step>)
    requires |leaves| > 0 && |path| == CeilLog2(|leaves|) && Fold(h, x, path) == Root(h, leaves)
    ensures var i := IndexOf(path);
      |FullProof(h, leaves, i)| == |path|
      && (x == leaves[Resolve(|leaves|, i)]
          || Collision(h, FoldConflict(h, x, path, leaves[Resolve(|leaves|, i)], FullProof(h, leaves, i))))
  {
    var i := IndexOf(path);
    IndexHasSides(path);
    FullProofVerifies(h, leaves, i);
    SidesAgree(path, FullProof(h, leaves, i), i);
    FoldBinds(h, x, path, leaves[Resolve(|leaves|, i)], FullProof(h, leaves, i));
  }

  /** The level that a path of this length, no longer than the depth, starts from. */
  function StartLevel(h: Hash, leaves: seq<Digest>, path: seq<Step>): (level: seq<Digest>)
    requires |leaves| > 0 && |path| <= CeilLog2(|leaves|)
    ensures |level| > 0
  {
    Level(h, leaves, CeilLog2(|leaves|) - |path|)
  }

  /** The node an accepted path has to start from. */
  function StartNode(h: Hash, leaves: seq<Digest>, path: seq<Step>): Digest
    requires |leaves| > 0 && |path| <= CeilLog2(|leaves|)
  {
    var level := StartLevel(h, leaves, path);
    level[Resolve(|level|, IndexOf(path))]
  }

  /** Two walks that would have to meet. */
  function StartConflict(h: Hash, leaves: seq<Digest>, x: Digest, path: seq<Step>): (Bytes, Bytes)
    requires |leaves| > 0 && |path| <= CeilLog2(|leaves|)
  {
    var level := StartLevel(h, leaves, path);
    var proof := FullProof(h, level, IndexOf(path));
    if |proof| == |path| then FoldConflict(h, x, path, StartNode(h, leaves, path), proof) else ([], [])
  }

  /** Whatever is accepted along a path no longer than the depth is the node at the position spelt
      by the sides, on the level as far below the root as the path is long; or the conflict is a
      collision. */
  lemma InclusionBinds(h: Hash, leaves: seq<Digest>, x: Digest, path: seq<Step>)
    requires |leaves| > 0 && |path| <= CeilLog2(|leaves|) && Fold(h, x, path) == Root(h, leaves)
    ensures x == StartNode(h, leaves, path) || Collision(h, StartConflict(h, leaves, x, path))
  {
    RootOfLevel(h, leaves, CeilLog2(|leaves|) - |path|);
    FullPathBinds(h, StartLevel(h, leaves, path), x, path);
  }

  lemma {:induction false} LevelAbove(h: Hash, leaves: seq<Digest>, k: nat)
    requires |leaves| > 0
    ensures Level(h, leaves, k + 1) == NextLevel(h, Level(h, leaves, k))
    decreases k
  {
    if k > 0 {
      LevelAbove(h, NextLevel(h, leaves), k - 1);
    }
  }

  /** What was hashed for the inner node that a path shorter than the depth starts from: two digests. */
  function InnerInput(h: Hash, leaves: seq<Digest>, path: seq<Step>): (input: Bytes)
    requires |leaves| > 0 && |path| < CeilLog2(|leaves|)
    ensures h(input) == StartNode(h, leaves, path) && |input| == 64
  {
    var k := CeilLog2(|leaves|) - |path| - 1;
    LevelAbove(h, leaves, k);
    var lower, j := Level(h, leaves, k), Resolve(|StartLevel(h, leaves, path)|, IndexOf(path));
    lower[2 * j] + RightOf(lower, j)
  }

  /** And every node of every level is accepted, by its proof on that level. */
  lemma NodesAreAccepted(h: Hash, leaves: seq<Digest>, k: nat, i: nat)
    requires |leaves| > 0 && k <= CeilLog2(|leaves|) && i < |Level(h, leaves, k)|
    ensures Fold(h, Level(h, leaves, k)[i], Proof(h, Level(h, leaves, k), i)) == Root(h, leaves)
    ensures |Proof(h, Level(h, leaves, k), i)| == CeilLog2(|leaves|) - k
  {
    RootOfLevel(h, leaves, k);
    ProofVerifies(h, Level(h, leaves, k), i);
    ProofLength(h, Level(h, leaves, k), i);
  }

  /** Which length proves a leaf: an accepted path no longer than the depth proves the leaf at the
      position its sides spell exactly when it has the length of the depth. The exceptions are a
      collision, and a tree in which an inner node is equal to that leaf. */
  lemma LeafIffFullLength(h: Hash, leaves: seq<Digest>, x: Digest, path: seq<Step>)
    requires |leaves| > 0 && |path| <= CeilLog2(|leaves|) && Fold(h, x, path) == Root(h, leaves)
    ensures var leaf := leaves[Resolve(|leaves|, IndexOf(path))];
      || (x == leaf <==> |path| == CeilLog2(|leaves|))
      || (|path| < CeilLog2(|leaves|) && StartNode(h, leaves, path) == leaf)
      || Collision(h, StartConflict(h, leaves, x, path))
  {
    InclusionBinds(h, leaves, x, path);
  }

  /** Splitting a walk. */
  lemma {:induction false} FoldSplit(h: Hash, x: Digest, path: seq<Step>, e: nat)
    requires e <= |path|
    ensures Fold(h, x, path) == Fold(h, Fold(h, x, path[..e]), path[e..])
    decreases e
  {
    if e == 0 {
      assert path[..0] == [] && path[0..] == path;
    } else {
      FoldSplit(h, h(StepInput(x, path[0])), path[1..], e - 1);
      assert path[1..][..e - 1] == path[..e][1..] && path[1..][e - 1..] == path[e..];
    }
  }

  lemma FoldLast(h: Hash, x: Digest, path: seq<Step>)
    requires |path| > 0
    ensures var n := |path| - 1; Fold(h, x, path) == h(StepInput(Fold(h, x, path[..n]), path[n]))
  {
    var n := |path| - 1;
    FoldSplit(h, x, path, n);
    assert path[n..] == [path[n]];
    assert Fold(h, Fold(h, x, path[..n]), [path[n]]) == h(StepInput(Fold(h, x, path[..n]), path[n]));
  }

  /** What is hashed by the last step of an overlong path before it reaches the leaves. */
  function HashedLeaf(h: Hash, leaves: seq<Digest>, x: Digest, path: seq<Step>): Bytes
    requires |leaves| > 0 && |path| > CeilLog2(|leaves|)
  {
    var e := |path| - CeilLog2(|leaves|);
    StepInput(Fold(h, x, path[..e - 1]), path[e - 1])
  }

  /** A path longer than the depth contains a string that hashes to the leaf at the position its
      upper sides spell, or there is a collision. */
  lemma LongPathOpensLeaf(h: Hash, leaves: seq<Digest>, x: Digest, path: seq<Step>)
    requires |leaves| > 0 && |path| > CeilLog2(|leaves|) && Fold(h, x, path) == Root(h, leaves)
    ensures var upper := path[|path| - CeilLog2(|leaves|)..];
      var u := HashedLeaf(h, leaves, x, path);
      h(u) == leaves[Resolve(|leaves|, IndexOf(upper))] || Collision(h, StartConflict(h, leaves, h(u), upper))
  {
    var e := |path| - CeilLog2(|leaves|);
    FoldSplit(h, x, path, e);
    FoldLast(h, x, path[..e]);
    assert path[..e][..e - 1] == path[..e - 1];
    InclusionBinds(h, leaves, h(HashedLeaf(h, leaves, x, path)), path[e..]);
  }

  /** And every known string of at least 32 bytes that hashes to a leaf makes such a path. */
  lemma OpenedLeafIsAccepted(h: Hash, leaves: seq<Digest>, i: nat, s: Bytes)
    requires i < |leaves| && h(s) == leaves[i] && |s| >= 32
    ensures Fold(h, s[..32], [Step(s[32..], Right)] + Proof(h, leaves, i)) == Root(h, leaves)
    ensures |[Step(s[32..], Right)] + Proof(h, leaves, i)| == CeilLog2(|leaves|) + 1
  {
    var path := [Step(s[32..], Right)] + Proof(h, leaves, i);
    assert s[..32] + s[32..] == s;
    assert path[1..] == Proof(h, leaves, i);
    ProofVerifies(h, leaves, i);
    ProofLength(h, leaves, i);
  }

  /** The smallest case: an inner node passes for a leaf, and the root for a tree of one leaf. */
  lemma InnerNodeIsAccepted(h: Hash, a: Digest, b: Digest, c: Digest, d: Digest)
    ensures Fold(h, h(a + b), [Step(h(c + d), Right)]) == Root(h, [a, b, c, d])
    ensures Fold(h, Root(h, [a, b, c, d]), []) == Root(h, [a, b, c, d])
    ensures SidesOf([Step(h(c + d), Right)], 0)
  {
    assert NextLevel(h, [a, b, c, d]) == [h(a + b), h(c + d)];
    assert NextLevel(h, [h(a + b), h(c + d)]) == [h(h(a + b) + h(c + d))];
    assert Root(h, [h(h(a + b) + h(c + d))]) == h(h(a + b) + h(c + d));
    assert [Step(h(c + d), Right)][1..] == [];
  }

  // ---------- When two roots agree ----------

  lemma {:induction false} Pow2Size(n: nat)
    requires IsPow2(n)
    ensures n == Pow(2, CeilLog2(n))
  {
    if n > 1 {
      Pow2Size(n / 2);
      assert (n + 1) / 2 == n / 2;
    }
  }

  lemma {:induction false} LevelIsPow2(h: Hash, leaves: seq<Digest>, k: nat)
    requires IsPow2(|leaves|) && k <= CeilLog2(|leaves|)
    ensures IsPow2(|Level(h, leaves, k)|)
    decreases k
  {
    if k > 0 {
      LevelIsPow2(h, NextLevel(h, leaves), k - 1);
    }
  }

  lemma SameDepthSameSize(h: Hash, a: seq<Digest>, b: seq<Digest>)
    requires IsPow2(|a|) && IsPow2(|b|) && CeilLog2(|a|) <= CeilLog2(|b|)
    ensures |Level(h, b, CeilLog2(|b|) - CeilLog2(|a|))| == |a|
  {
    var k := CeilLog2(|b|) - CeilLog2(|a|);
    RootOfLevel(h, b, k);
    LevelIsPow2(h, b, k);
    Pow2Size(|Level(h, b, k)|);
    Pow2Size(|a|);
  }

  /** Two complete trees have one root exactly when the smaller one's leaves are the level of the
      larger one at that depth; or the conflict is a collision. */
  lemma CompleteRootsAgree(h: Hash, a: seq<Digest>, b: seq<Digest>)
    requires IsPow2(|a|) && IsPow2(|b|) && CeilLog2(|a|) <= CeilLog2(|b|)
    ensures var level := Level(h, b, CeilLog2(|b|) - CeilLog2(|a|));
      && |level| == |a|
      && (level == a ==> Root(h, a) == Root(h, b))
      && (Root(h, a) == Root(h, b) ==> level == a || Collision(h, RootConflict(h, a, level)))
  {
    var k := CeilLog2(|b|) - CeilLog2(|a|);
    SameDepthSameSize(h, a, b);
    RootOfLevel(h, b, k);
    if Root(h, a) == Root(h, b) {
      RootBinds(h, a, Level(h, b, k));
    }
  }

  // ---------- Padding ----------

  /** Roots under padding, for all nonempty lists. */
  lemma PaddedRootsAgree(h: Hash, a: seq<Digest>, b: seq<Digest>)
    requires 0 < |a| && 0 < |b| && CeilLog2(|a|) <= CeilLog2(|b|)
    ensures CeilLog2(|Pad(a)|) == CeilLog2(|a|) && CeilLog2(|Pad(b)|) == CeilLog2(|b|)
    ensures var level := Level(h, Pad(b), CeilLog2(|b|) - CeilLog2(|a|));
      && |level| == |Pad(a)|
      && (level == Pad(a) ==> Root(h, Pad(a)) == Root(h, Pad(b)))
      && (Root(h, Pad(a)) == Root(h, Pad(b)) ==> level == Pad(a) || Collision(h, RootConflict(h, Pad(a), level)))
  {
    PadSizeDepth(1, |a|);
    PadSizeDepth(1, |b|);
    CompleteRootsAgree(h, Pad(a), Pad(b));
  }

  function ZeroLeaves(n: nat): (zeros: seq<Digest>)
    ensures |zeros| == n && forall i :: 0 <= i < n ==> zeros[i] == ZERO_DIGEST
  {
    seq(n, _ => ZERO_DIGEST)
  }

  lemma PadAt(leaves: seq<Digest>, i: nat)
    requires i < |Pad(leaves)|
    ensures Pad(leaves)[i] == if i < |leaves| then leaves[i] else ZERO_DIGEST
  {
  }

  lemma SameDepthSizes(a: seq<Digest>, b: seq<Digest>)
    requires 0 < |a| && 0 < |b| && CeilLog2(|a|) == CeilLog2(|b|)
    ensures |Pad(a)| == |Pad(b)|
  {
    PadSizeDepth(1, |a|);
    PadSizeDepth(1, |b|);
    Pow2Size(|Pad(a)|);
    Pow2Size(|Pad(b)|);
  }

  lemma SamePadsDiffer(a: seq<Digest>, b: seq<Digest>)
    requires |a| <= |b| && Pad(a) == Pad(b)
    ensures b == a + ZeroLeaves(|b| - |a|)
  {
    forall i | 0 <= i < |b| ensures b[i] == (a + ZeroLeaves(|b| - |a|))[i] {
      PadAt(a, i);
      PadAt(b, i);
    }
  }

  lemma ZerosPadAlike(a: seq<Digest>, b: seq<Digest>)
    requires |a| <= |b| && |Pad(a)| == |Pad(b)| && b == a + ZeroLeaves(|b| - |a|)
    ensures Pad(a) == Pad(b)
  {
    forall i | 0 <= i < |Pad(a)| ensures Pad(a)[i] == Pad(b)[i] {
      PadAt(a, i);
      PadAt(b, i);
    }
  }

  /** At one depth padding confuses a list exactly with the same list and zero leaves after it. */
  lemma SameDepthPaddedRoots(h: Hash, a: seq<Digest>, b: seq<Digest>)
    requires 0 < |a| <= |b| && CeilLog2(|a|) == CeilLog2(|b|)
    ensures |Pad(a)| == |Pad(b)|
    ensures b == a + ZeroLeaves(|b| - |a|) ==> Root(h, Pad(a)) == Root(h, Pad(b))
    ensures Root(h, Pad(a)) == Root(h, Pad(b))
      ==> b == a + ZeroLeaves(|b| - |a|) || Collision(h, RootConflict(h, Pad(a), Pad(b)))
  {
    SameDepthSizes(a, b);
    if b == a + ZeroLeaves(|b| - |a|) {
      ZerosPadAlike(a, b);
    }
    if Root(h, Pad(a)) == Root(h, Pad(b)) {
      RootBinds(h, Pad(a), Pad(b));
      if Pad(a) == Pad(b) {
        SamePadsDiffer(a, b);
      }
    }
  }

  /** So for lists of one length the padded root binds. */
  lemma PaddedRootBinds(h: Hash, a: seq<Digest>, b: seq<Digest>)
    requires |a| == |b| > 0 && Root(h, Pad(a)) == Root(h, Pad(b))
    ensures a == b || Collision(h, RootConflict(h, Pad(a), Pad(b)))
  {
    SameDepthPaddedRoots(h, a, b);
    assert a + ZeroLeaves(0) == a;
  }

  lemma {:induction false} IndexBelow(path: seq<Step>)
    ensures IndexOf(path) < Pow(2, |path|)
  {
    if |path| > 0 {
      IndexBelow(path[1..]);
    }
  }

  /** The same for the padded tree, whose positions are all real: a path of the full length proves the
      padded list's entry at the position its sides spell, a shorter one an inner node. */
  lemma PaddedInclusionBinds(h: Hash, leaves: seq<Digest>, x: Digest, path: seq<Step>)
    requires |leaves| > 0 && |path| <= CeilLog2(|leaves|) && Fold(h, x, path) == Root(h, Pad(leaves))
    ensures CeilLog2(|Pad(leaves)|) == CeilLog2(|leaves|)
    ensures x == StartNode(h, Pad(leaves), path) || Collision(h, StartConflict(h, Pad(leaves), x, path))
    ensures |path| == CeilLog2(|leaves|) ==>
      IndexOf(path) < |Pad(leaves)| && StartNode(h, Pad(leaves), path) == Pad(leaves)[IndexOf(path)]
  {
    PadSizeDepth(1, |leaves|);
    Pow2Size(|Pad(leaves)|);
    IndexBelow(path);
    InclusionBinds(h, Pad(leaves), x, path);
  }

  // ---------- Duplication ----------

  /** The leaves of the completed tree. */
  function Complete(leaves: seq<Digest>): (full: seq<Digest>)
    requires |leaves| > 0
    ensures |full| == Pow(2, CeilLog2(|leaves|))
    ensures forall i :: 0 <= i < |full| ==> full[i] == leaves[Resolve(|leaves|, i)]
  {
    seq<Digest>(Pow(2, CeilLog2(|leaves|)),
                i requires 0 <= i < Pow(2, CeilLog2(|leaves|)) => leaves[Resolve(|leaves|, i)])
  }

  lemma DoubleDepth(m: nat)
    requires IsPow2(m)
    ensures IsPow2(2 * m) && CeilLog2(2 * m) == CeilLog2(m) + 1
  {
    IsPow2Double(m);
    assert (2 * m + 1) / 2 == m;
  }

  lemma {:induction false} PowIsPow2(d: nat)
    ensures IsPow2(Pow(2, d)) && CeilLog2(Pow(2, d)) == d
  {
    if d > 0 {
      PowIsPow2(d - 1);
      DoubleDepth(Pow(2, d - 1));
    }
  }

  lemma CompleteChildren(leaves: seq<Digest>, k: nat)
    requires |leaves| > 1 && 2 * k + 1 < |Complete(leaves)|
    ensures var j := Resolve((|leaves| + 1) / 2, k);
      2 * j < |leaves| && Complete(leaves)[2 * k] == leaves[2 * j] && Complete(leaves)[2 * k + 1] == RightOf(leaves, j)
  {
    ResolveChild(|leaves|, 2 * k);
    ResolveChild(|leaves|, 2 * k + 1);
    assert 2 * k / 2 == k && (2 * k + 1) / 2 == k;
  }

  /** Completing commutes with going up a level. */
  lemma CompleteNext(h: Hash, leaves: seq<Digest>)
    requires |leaves| > 1
    ensures |Complete(leaves)| > 1 && NextLevel(h, Complete(leaves)) == Complete(NextLevel(h, leaves))
  {
    var full, next := Complete(leaves), NextLevel(h, leaves);
    assert |full| == 2 * Pow(2, CeilLog2(|next|));
    forall k | 0 <= k < |Complete(next)| ensures NextLevel(h, full)[k] == Complete(next)[k] {
      CompleteChildren(leaves, k);
      assert NextLevel(h, full)[k] == ParentAt(h, full, k);
      assert next[Resolve(|next|, k)] == ParentAt(h, leaves, Resolve(|next|, k));
    }
  }

  /** Duplication builds the complete tree's root. */
  lemma {:induction false} CompleteKeepsRoot(h: Hash, leaves: seq<Digest>)
    requires |leaves| > 0
    ensures Root(h, Complete(leaves)) == Root(h, leaves)
    decreases |leaves|
  {
    if |leaves| > 1 {
      CompleteNext(h, leaves);
      CompleteKeepsRoot(h, NextLevel(h, leaves));
    }
  }

  lemma CompleteTree(h: Hash, leaves: seq<Digest>) returns (full: seq<Digest>)
    requires |leaves| > 0
    ensures full == Complete(leaves) && IsPow2(|full|) && CeilLog2(|full|) == CeilLog2(|leaves|)
    ensures Root(h, full) == Root(h, leaves)
  {
    PowIsPow2(CeilLog2(|leaves|));
    CompleteKeepsRoot(h, leaves);
    full := Complete(leaves);
  }

  /** Roots under duplication, for all nonempty lists. */
  lemma DuplicatedRootsAgree(h: Hash, a: seq<Digest>, b: seq<Digest>)
    requires 0 < |a| && 0 < |b| && CeilLog2(|a|) <= CeilLog2(|b|)
    ensures CeilLog2(|Complete(b)|) == CeilLog2(|b|)
    ensures var level := Level(h, Complete(b), CeilLog2(|b|) - CeilLog2(|a|));
      && |level| == |Complete(a)|
      && (level == Complete(a) ==> Root(h, a) == Root(h, b))
      && (Root(h, a) == Root(h, b) ==> level == Complete(a) || Collision(h, RootConflict(h, Complete(a), level)))
  {
    var full := CompleteTree(h, a);
    var wide := CompleteTree(h, b);
    CompleteRootsAgree(h, full, wide);
  }

  // ---------- The three confusions, smallest cases ----------

  /** Padding: a list and the same list with a zero leaf. */
  lemma ZeroLeafIsInvisible(a: Digest, b: Digest, c: Digest)
    ensures Pad([a, b, c]) == Pad([a, b, c, ZERO_DIGEST])
  {
    assert IsPow2(4);
    PadSizeOfPow2(1, 4);
    assert PadSize(4, 3) == 4 && PadSize(2, 3) == 4 && PadSize(1, 3) == 4;
  }

  /** Duplication: repeating an unpaired last leaf. */
  lemma RepeatedLeafIsInvisible(h: Hash, a: Digest, b: Digest, c: Digest)
    ensures Root(h, [a, b, c]) == Root(h, [a, b, c, c])
  {
    assert NextLevel(h, [a, b, c]) == NextLevel(h, [a, b, c, c]);
  }

  /** Either: a list and the level above it. */
  lemma InnerLevelIsAList(h: Hash, a: Digest, b: Digest, c: Digest, d: Digest)
    ensures Root(h, [h(a + b), h(c + d)]) == Root(h, [a, b, c, d])
  {
    assert NextLevel(h, [a, b, c, d]) == [h(a + b), h(c + d)];
  }
}
