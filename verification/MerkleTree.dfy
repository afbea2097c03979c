/** Binary Merkle trees: levels, roots and inclusion proofs as functions of the leaves, and what
    a proof that verifies says about the leaf. The hash is a parameter; where it must not have been
    fooled, the two hashed strings that would collide are computed. */
module MerkleTree {
  import opened ByteStrings

  datatype Side = Left | Right

  /** One proof step: the sibling's bytes and the side it stands on. */
  datatype Step = Step(sibling: Bytes, side: Side)

  /** What is hashed when a proof step is applied to a node. */
  function StepInput(node: Digest, step: Step): Bytes {
    if step.side == Right then node + step.sibling else step.sibling + node
  }

  /** The verifier's walk from a leaf to a root. */
  function Fold(h: Hash, node: Digest, path: seq<Step>): Digest
    decreases |path|
  {
    if |path| == 0 then node else Fold(h, h(StepInput(node, path[0])), path[1..])
  }

  // ---------- Levels ----------

  /** The right partner of node `2 * k`; a last node without one is its own partner. */
  function RightOf(level: seq<Digest>, k: nat): Digest
    requires 2 * k < |level|
  {
    if 2 * k + 1 < |level| then level[2 * k + 1] else level[2 * k]
  }

  function ParentAt(h: Hash, level: seq<Digest>, k: nat): Digest
    requires 2 * k < |level|
  {
    h(level[2 * k] + RightOf(level, k))
  }

  function NextLevel(h: Hash, level: seq<Digest>): (next: seq<Digest>)
    requires |level| > 0
    ensures |next| == (|level| + 1) / 2
    ensures forall k :: 0 <= k < |next| ==> next[k] == ParentAt(h, level, k)
  {
    seq<Digest>((|level| + 1) / 2, k requires 0 <= k < (|level| + 1) / 2 => ParentAt(h, level, k))
  }

  function Root(h: Hash, level: seq<Digest>): Digest
    requires |level| > 0
    decreases |level|
  {
    if |level| == 1 then level[0] else Root(h, NextLevel(h, level))
  }

  /** The step that leads from node `i` of a level to its parent. */
  function SiblingStep(level: seq<Digest>, i: nat): Step
    requires i < |level|
  {
    if i % 2 == 0 then Step(RightOf(level, i / 2), Right) else Step(level[i - 1], Left)
  }

  function Proof(h: Hash, level: seq<Digest>, i: nat): seq<Step>
    requires i < |level|
    decreases |level|
  {
    if |level| == 1 then [] else [SiblingStep(level, i)] + Proof(h, NextLevel(h, level), i / 2)
  }

  lemma StepLeadsToParent(h: Hash, level: seq<Digest>, i: nat)
    requires i < |level|
    ensures h(StepInput(level[i], SiblingStep(level, i))) == NextLevel(h, level)[i / 2]
  {
  }

  /** Every proof verifies, whatever the number of leaves. */
  lemma {:induction false} ProofVerifies(h: Hash, level: seq<Digest>, i: nat)
    requires i < |level|
    ensures Fold(h, level[i], Proof(h, level, i)) == Root(h, level)
    decreases |level|
  {
    if |level| > 1 {
      StepLeadsToParent(h, level, i);
      ProofVerifies(h, NextLevel(h, level), i / 2);
      assert Proof(h, level, i)[1..] == Proof(h, NextLevel(h, level), i / 2);
    }
  }

  // ---------- Depth ----------

  /** The logarithm to base two, rounded up. */
  function CeilLog2(n: nat): nat {
    if n <= 1 then 0 else 1 + CeilLog2((n + 1) / 2)
  }

  lemma {:induction false} CeilLog2Bounds(n: nat)
    requires n > 0
    ensures n <= Pow(2, CeilLog2(n))
    ensures n > 1 ==> Pow(2, CeilLog2(n) - 1) < n
  {
    if n > 1 {
      CeilLog2Bounds((n + 1) / 2);
    }
  }

  lemma {:induction false} ProofLength(h: Hash, level: seq<Digest>, i: nat)
    requires i < |level|
    ensures |Proof(h, level, i)| == CeilLog2(|level|)
    decreases |level|
  {
    if |level| > 1 {
      ProofLength(h, NextLevel(h, level), i / 2);
    }
  }

  // ---------- Binding ----------

  /** The sides of a path are those of leaf `i`: right exactly where the bit of `i` is zero. */
  predicate SidesOf(path: seq<Step>, i: nat) {
    |path| == 0 || ((path[0].side == Right <==> i % 2 == 0) && SidesOf(path[1..], i / 2))
  }

  lemma {:induction false} ProofSides(h: Hash, level: seq<Digest>, i: nat)
    requires i < |level|
    ensures SidesOf(Proof(h, level, i), i)
    decreases |level|
  {
    if |level| > 1 {
      ProofSides(h, NextLevel(h, level), i / 2);
      assert Proof(h, level, i)[1..] == Proof(h, NextLevel(h, level), i / 2);
    }
  }

  /** Walks two paths side by side and stops at the first level where they meet in one node. */
  function FoldConflict(h: Hash, x: Digest, p: seq<Step>, y: Digest, q: seq<Step>): (Bytes, Bytes)
    requires |p| == |q|
    decreases |p|
  {
    if |p| == 0 then ([], [])
    else
      var u, v := StepInput(x, p[0]), StepInput(y, q[0]);
      if h(u) == h(v) then (u, v) else FoldConflict(h, h(u), p[1..], h(v), q[1..])
  }

  ghost predicate SameSides(p: seq<Step>, q: seq<Step>) {
    |p| == |q| && forall k :: 0 <= k < |p| ==> p[k].side == q[k].side
  }

  /** Two leaves that reach one root along paths with the same sides are the same leaf, or the
      conflict is a collision. The sibling bytes may be anything. */
  lemma {:induction false} FoldBinds(h: Hash, x: Digest, p: seq<Step>, y: Digest, q: seq<Step>)
    requires SameSides(p, q) && Fold(h, x, p) == Fold(h, y, q)
    ensures x == y || Collision(h, FoldConflict(h, x, p, y, q))
    decreases |p|
  {
    if |p| > 0 {
      var u, v := StepInput(x, p[0]), StepInput(y, q[0]);
      if h(u) == h(v) {
        if u == v {
          if p[0].side == Right {
            SplitConcat(x, p[0].sibling, y, q[0].sibling);
          } else {
            SplitConcat(p[0].sibling, x, q[0].sibling, y);
          }
        }
      } else {
        FoldBinds(h, h(u), p[1..], h(v), q[1..]);
      }
    }
  }

  lemma {:induction false} SidesAgree(p: seq<Step>, q: seq<Step>, i: nat)
    requires |p| == |q| && SidesOf(p, i) && SidesOf(q, i)
    ensures SameSides(p, q)
  {
    if |p| > 0 {
      SidesAgree(p[1..], q[1..], i / 2);
      forall k | 0 <= k < |p| ensures p[k].side == q[k].side {
        assert k > 0 ==> p[k] == p[1..][k - 1] && q[k] == q[1..][k - 1];
      }
    }
  }

  function FirstDifference(a: seq<Digest>, b: seq<Digest>): (k: nat)
    requires |a| == |b| && a != b
    ensures k < |a| && a[k] != b[k]
    decreases |a|
  {
    if a[0] != b[0] then 0 else 1 + FirstDifference(a[1..], b[1..])
  }

  /** The first level from the root down at which two trees differ below equal parents. */
  function RootConflict(h: Hash, a: seq<Digest>, b: seq<Digest>): (Bytes, Bytes)
    requires |a| == |b| > 0
    decreases |a|
  {
    if |a| == 1 || a == b then ([], [])
    else if NextLevel(h, a) != NextLevel(h, b) then RootConflict(h, NextLevel(h, a), NextLevel(h, b))
    else
      var k := FirstDifference(a, b) / 2;
      (a[2 * k] + RightOf(a, k), b[2 * k] + RightOf(b, k))
  }

  /** Binding of the whole list: equally many leaves with one root are the same leaves, or the
      conflict is a collision. */
  lemma {:induction false} RootBinds(h: Hash, a: seq<Digest>, b: seq<Digest>)
    requires |a| == |b| > 0 && Root(h, a) == Root(h, b)
    ensures a == b || Collision(h, RootConflict(h, a, b))
    decreases |a|
  {
    if |a| > 1 && a != b {
      if NextLevel(h, a) != NextLevel(h, b) {
        RootBinds(h, NextLevel(h, a), NextLevel(h, b));
      } else {
        var d := FirstDifference(a, b);
        var k := d / 2;
        assert d == 2 * k || d == 2 * k + 1;
        var u, v := a[2 * k] + RightOf(a, k), b[2 * k] + RightOf(b, k);
        assert h(u) == NextLevel(h, a)[k] == NextLevel(h, b)[k] == h(v);
        if u == v {
          SplitConcat(a[2 * k], RightOf(a, k), b[2 * k], RightOf(b, k));
        }
      }
    }
  }

  // ---------- Padding to a power of two ----------

  predicate IsPow2(n: nat) {
    n == 1 || (n > 0 && n % 2 == 0 && IsPow2(n / 2))
  }

  lemma {:induction false} IsPow2Double(n: nat)
    requires IsPow2(n)
    ensures IsPow2(2 * n)
  {
    assert 2 * n / 2 == n;
  }

  /** The smallest power of two that is at least `n`, by doubling `m`. */
  function PadSize(m: nat, n: nat): (size: nat)
    requires IsPow2(m)
    ensures size >= n && IsPow2(size)
    decreases n - m
  {
    if m < n then
      IsPow2Double(m);
      PadSize(2 * m, n)
    else m
  }

  function Pad(leaves: seq<Digest>): (padded: seq<Digest>)
    ensures |padded| == PadSize(1, |leaves|) >= |leaves|
    ensures padded[..|leaves|] == leaves
  {
    leaves + seq(PadSize(1, |leaves|) - |leaves|, _ => ZERO_DIGEST)
  }

  lemma {:induction false} PadSizeOfPow2(m: nat, n: nat)
    requires IsPow2(m) && IsPow2(n) && m <= n
    ensures PadSize(m, n) == n
    decreases n - m
  {
    if m < n {
      IsPow2Double(m);
      Pow2Gap(m, n);
      PadSizeOfPow2(2 * m, n);
    }
  }

  lemma {:induction false} Pow2Gap(m: nat, n: nat)
    requires IsPow2(m) && IsPow2(n) && m < n
    ensures 2 * m <= n
  {
    if m > 1 {
      Pow2Gap(m / 2, n / 2);
    }
  }

  /** A power of two many leaves are not padded. */
  lemma PadOfPow2(leaves: seq<Digest>)
    requires IsPow2(|leaves|)
    ensures Pad(leaves) == leaves
  {
    PadSizeOfPow2(1, |leaves|);
  }

  /** Padding does not change the depth. */
  lemma {:induction false} PadSizeDepth(m: nat, n: nat)
    requires IsPow2(m) && n > 0 && (m == 1 || m / 2 < n)
    ensures CeilLog2(PadSize(m, n)) == CeilLog2(n)
    decreases n - m
  {
    if m < n {
      IsPow2Double(m);
      PadSizeDepth(2 * m, n);
    } else {
      Pow2Depth(m, n);
    }
  }

  lemma {:induction false} Pow2Depth(m: nat, n: nat)
    requires IsPow2(m) && 0 < n <= m && (m == 1 || m / 2 < n)
    ensures CeilLog2(m) == CeilLog2(n)
    decreases m
  {
    if m > 2 {
      Pow2Depth(m / 2, (n + 1) / 2);
    }
  }

  // ---------- Left and right ----------

  /** Nodes are hashed in order, a last one without a partner with itself. */
  lemma LevelIs(h: Hash, level: seq<Digest>, k: nat)
    requires 2 * k < |level|
    ensures var left: Bytes, right: Bytes := level[2 * k], level[if 2 * k + 1 < |level| then 2 * k + 1 else 2 * k];
      NextLevel(h, level)[k] == h(left + right)
  {
  }

  /** A sibling on the right is hashed behind the node, one on the left before it. */
  lemma FoldIs(h: Hash, node: Digest, sibling: Bytes, rest: seq<Step>)
    ensures Fold(h, node, [Step(sibling, Right)] + rest) == Fold(h, h(node + sibling), rest)
    ensures Fold(h, node, [Step(sibling, Left)] + rest) == Fold(h, h(sibling + node), rest)
  {
    assert ([Step(sibling, Right)] + rest)[1..] == rest && ([Step(sibling, Left)] + rest)[1..] == rest;
  }

  lemma RootUp(h: Hash, level: seq<Digest>, next: seq<Digest>)
    requires |level| > 1 && next == NextLevel(h, level)
    ensures Root(h, level) == Root(h, next)
  {
  }

  /** Three leaves: duplicated, padded, and the proof of the last one. */
  lemma ThreeLeaves(h: Hash, a: Digest, b: Digest, c: Digest)
    ensures Root(h, [a, b, c]) == h(h(a + b) + h(c + c))
    ensures Proof(h, [a, b, c], 2) == [Step(c, Right), Step(h(a + b), Left)]
    ensures Pad([a, b, c]) == [a, b, c, Zeros(32)] && Root(h, Pad([a, b, c])) == h(h(a + b) + h(c + Zeros(32)))
  {
    var two := [h(a + b), h(c + c)];
    assert NextLevel(h, [a, b, c]) == two;
    PairRoot(h, h(a + b), h(c + c));
    RootUp(h, [a, b, c], two);
    assert Proof(h, two, 1) == [Step(h(a + b), Left)] + [];
    ThreePadded(h, a, b, c);
  }

  lemma PairRoot(h: Hash, a: Digest, b: Digest)
    ensures Root(h, [a, b]) == h(a + b)
  {
    assert NextLevel(h, [a, b]) == [h(a + b)];
    RootUp(h, [a, b], [h(a + b)]);
  }

  lemma ThreePadded(h: Hash, a: Digest, b: Digest, c: Digest)
    ensures Pad([a, b, c]) == [a, b, c, Zeros(32)] && Root(h, Pad([a, b, c])) == h(h(a + b) + h(c + Zeros(32)))
  {
    var four: seq<Digest> := [a, b, c, Zeros(32)];
    var two: seq<Digest> := [h(a + b), h(c + Zeros(32))];
    assert PadSize(1, 3) == PadSize(2, 3) == PadSize(4, 3) == 4;
    assert Pad([a, b, c]) == four;
    assert NextLevel(h, four) == two;
    PairRoot(h, two[0], two[1]);
    RootUp(h, four, two);
  }
}
