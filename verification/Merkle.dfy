/** The `pages_root` Merkle tree: builder, prover, derived proof shape and verifier. */
module Merkle {
  import opened Base

  const BRANCH_DOMAIN: Bytes := Ascii("mega.mst2.chunkbranch\0")

  /** Which side the sibling sits on. */
  datatype Side = Left | Right

  datatype ProofStep = ProofStep(side: Side, siblingPages: U64, digest: Digest)

  // ----- the split point -----

  predicate IsPow2(k: nat) {
    k == 1 || (k > 1 && k % 2 == 0 && IsPow2(k / 2))
  }

  /** The largest power of two strictly below `n`. */
  function Pow2Below(n: nat): (k: nat)
    requires n > 1
    ensures IsPow2(k) && k < n <= 2 * k
  {
    if n == 2 then 1 else 2 * Pow2Below((n + 1) / 2)
  }

  lemma {:induction false} Pow2BelowUnique(n: nat, k: nat)
    requires n > 1 && IsPow2(k) && k < n <= 2 * k
    ensures k == Pow2Below(n)
  {
    if n > 2 {
      Pow2BelowUnique((n + 1) / 2, k / 2);
    }
  }

  /** Shift down from the top bit of a `u64`. */
  method LargestPow2Below(n: U64) returns (k: U64)
    requires n > 1
    ensures k == Pow2Below(n)
  {
    TopBitIsPow2();
    k := 0x8000_0000_0000_0000;
    while k >= n
      invariant IsPow2(k) && n <= 2 * k
    {
      k := k / 2;
    }
    Pow2BelowUnique(n, k);
  }

  function Pow2(n: nat): (p: nat)
    ensures p > 0
  {
    if n == 0 then 1 else 2 * Pow2(n - 1)
  }

  lemma {:induction false} TimesPow2(k: nat, n: nat)
    requires IsPow2(k)
    ensures IsPow2(k * Pow2(n))
  {
    if n > 0 {
      TimesPow2(k, n - 1);
      TimesTwo(k, Pow2(n - 1));
      DoubleIsPow2(k * Pow2(n - 1));
    }
  }

  lemma TimesTwo(k: nat, p: nat)
    ensures k * (2 * p) == 2 * (k * p)
  {
  }

  lemma DoubleIsPow2(k: nat)
    requires IsPow2(k)
    ensures IsPow2(2 * k)
  {
    assert k > 0 && 2 * k / 2 == k;
  }

  lemma TopBitIsPow2()
    ensures IsPow2(0x8000_0000_0000_0000)
  {
    assert Pow2(7) == 0x80 && Pow2(14) == 0x4000 && Pow2(21) == 0x20_0000;
    TimesPow2(1, 21);
    TimesPow2(0x20_0000, 21);
    TimesPow2(0x400_0000_0000, 21);
  }

  // ----- the tree -----

  /** What is hashed for an inner node: the counts are interleaved with the child digests. */
  function BranchBytes(left: Digest, right: Digest, leftCount: nat, rightCount: nat): Bytes {
    BRANCH_DOMAIN + (Le64(leftCount) + (left + (Le64(rightCount) + right)))
  }

  function BranchHash(sha: Hash, left: Digest, right: Digest, leftCount: nat, rightCount: nat): Digest {
    sha(BranchBytes(left, right, leftCount, rightCount))
  }

  /** Root of a non-empty run of leaves; its count is their number. */
  function BuildSubtree(sha: Hash, leaves: seq<Digest>): (r: (Digest, nat))
    requires leaves != []
    ensures r.1 == |leaves|
  {
    if |leaves| == 1 then (leaves[0], 1)
    else
      var k := Pow2Below(|leaves|);
      var (left, lc) := BuildSubtree(sha, leaves[..k]);
      var (right, rc) := BuildSubtree(sha, leaves[k..]);
      (BranchHash(sha, left, right, lc, rc), |leaves|)
  }

  function MerkleRoot(sha: Hash, leaves: seq<Digest>): CodecResult<Digest> {
    if leaves == [] then Err(BadLength) else Ok(BuildSubtree(sha, leaves).0)
  }

  // ----- proof shapes -----

  /** Pages in the half of a tree of `count > 1` pages that holds leaf `index`. */
  function HalfCount(count: nat, index: nat): (n: nat)
    requires 1 < count && index < count
    ensures 0 < n < count
  {
    if index < Pow2Below(count) then Pow2Below(count) else count - Pow2Below(count)
  }

  /** The leaf's index within its half. */
  function HalfIndex(count: nat, index: nat): (i: nat)
    requires 1 < count && index < count
    ensures i < HalfCount(count, index)
  {
    if index < Pow2Below(count) then index else index - Pow2Below(count)
  }

  /** Side and page count of the other half. */
  function OtherHalf(count: nat, index: nat): (s: (Side, nat))
    requires 1 < count && index < count
    ensures HalfCount(count, index) + s.1 == count
    ensures HalfIndex(count, index) + (if s.0 == Left then s.1 else 0) == index
  {
    if index < Pow2Below(count) then (Right, count - Pow2Below(count)) else (Left, Pow2Below(count))
  }

  /** Sides and sibling counts from leaf `index` up to the root of a tree with `count` leaves. */
  function Shape(count: nat, index: nat): seq<(Side, nat)>
    requires index < count
  {
    if count == 1 then [] else Shape(HalfCount(count, index), HalfIndex(count, index)) + [OtherHalf(count, index)]
  }

  function ExpectedProofShape(count: nat, index: nat): CodecResult<seq<(Side, nat)>> {
    if count == 0 || index >= count then Err(BadLength) else Ok(Shape(count, index))
  }

  function Reversed<T>(s: seq<T>): (r: seq<T>)
    ensures |r| == |s|
  {
    if s == [] then [] else Reversed(s[1..]) + [s[0]]
  }

  lemma {:induction false} ReversedPush<T>(s: seq<T>, x: T)
    ensures Reversed(s + [x]) == [x] + Reversed(s)
  {
    if s != [] {
      ReversedPush(s[1..], x);
      assert (s + [x])[1..] == s[1..] + [x];
    } else {
      assert ([] + [x])[1..] == [];
    }
  }

  /** Walk from the root to the leaf, then turn the collected steps round. */
  method ComputeProofShape(count: U64, index: U64) returns (r: CodecResult<seq<(Side, nat)>>)
    ensures r == ExpectedProofShape(count, index)
  {
    if count == 0 || index >= count {
      return Err(BadLength);
    }
    var steps: seq<(Side, nat)> := [];
    var idx: nat, n: nat := index, count;
    assert Shape(n, idx) + [] == Shape(n, idx);
    while n > 1
      invariant idx < n < U64_LIMIT
      invariant Shape(count, index) == Shape(n, idx) + Reversed(steps)
      decreases n
    {
      var k := LargestPow2Below(n);
      ghost var below := Shape(HalfCount(n, idx), HalfIndex(n, idx));
      ReversedPush(steps, OtherHalf(n, idx));
      Assoc(below, [OtherHalf(n, idx)], Reversed(steps));
      if idx < k {
        steps := steps + [(Right, n - k)];
        n := k;
      } else {
        steps := steps + [(Left, k)];
        idx, n := idx - k, n - k;
      }
    }
    assert [] + Reversed(steps) == Reversed(steps);
    return Ok(Reversed(steps));
  }

  /** The half of the leaves that holds leaf `index`, or the other half. */
  function HalfLeaves(leaves: seq<Digest>, index: nat, other: bool): (r: seq<Digest>)
    requires 1 < |leaves| && index < |leaves|
    ensures |r| == if other then OtherHalf(|leaves|, index).1 else HalfCount(|leaves|, index)
    ensures r != []
    ensures !other ==> r[HalfIndex(|leaves|, index)] == leaves[index]
  {
    var k := Pow2Below(|leaves|);
    if (index < k) == !other then leaves[..k] else leaves[k..]
  }

  /** The step for the sibling of the leaf's half. */
  function TopStep(sha: Hash, leaves: seq<Digest>, index: nat): ProofStep
    requires 1 < |leaves| < U64_LIMIT && index < |leaves|
  {
    var (side, count) := OtherHalf(|leaves|, index);
    ProofStep(side, count, BuildSubtree(sha, HalfLeaves(leaves, index, true)).0)
  }

  /** The digests of all siblings from leaf `index` up to the root. */
  function Proof(sha: Hash, leaves: seq<Digest>, index: nat): (p: seq<ProofStep>)
    requires index < |leaves| < U64_LIMIT
    ensures |p| == |Shape(|leaves|, index)|
    decreases |leaves|
  {
    if |leaves| == 1 then []
    else Proof(sha, HalfLeaves(leaves, index, false), HalfIndex(|leaves|, index)) + [TopStep(sha, leaves, index)]
  }

  method LeafProof(sha: Hash, leaves: seq<Digest>, index: U64) returns (r: CodecResult<seq<ProofStep>>)
    requires |leaves| < U64_LIMIT
    ensures r == if index >= |leaves| then Err(BadLength) else Ok(Proof(sha, leaves, index))
  {
    if index >= |leaves| {
      return Err(BadLength);
    }
    var steps: seq<ProofStep> := [];
    var idx: nat, rest := index, leaves;
    assert Proof(sha, rest, idx) + [] == Proof(sha, rest, idx);
    while |rest| > 1
      invariant idx < |rest| <= |leaves|
      invariant Proof(sha, leaves, index) == Proof(sha, rest, idx) + Reversed(steps)
      decreases |rest|
    {
      var k := LargestPow2Below(|rest|);
      ghost var below := Proof(sha, HalfLeaves(rest, idx, false), HalfIndex(|rest|, idx));
      ReversedPush(steps, TopStep(sha, rest, idx));
      Assoc(below, [TopStep(sha, rest, idx)], Reversed(steps));
      if idx < k {
        var (root, count) := BuildSubtree(sha, rest[k..]);
        steps := steps + [ProofStep(Right, count, root)];
        rest := rest[..k];
      } else {
        var (root, count) := BuildSubtree(sha, rest[..k]);
        steps := steps + [ProofStep(Left, count, root)];
        idx, rest := idx - k, rest[k..];
      }
    }
    assert [] + Reversed(steps) == Reversed(steps);
    return Ok(Reversed(steps));
  }

  // ----- verification -----

  function ClimbBytes(side: Side, cur: Digest, curCount: nat, sibling: Digest, siblingCount: nat): Bytes {
    match side
    case Right => BranchBytes(cur, sibling, curCount, siblingCount)
    case Left => BranchBytes(sibling, cur, siblingCount, curCount)
  }

  /** Check the steps against the shape and hash upwards. */
  function Climb(sha: Hash, proof: seq<ProofStep>, shape: seq<(Side, nat)>, cur: Digest,
                 curCount: nat): CodecResult<Digest>
    requires |proof| == |shape|
  {
    if proof == [] then Ok(cur)
    else
      var (side, count) := shape[0];
      if proof[0].side != side || proof[0].siblingPages != count then Err(BadOrdering)
      else Climb(sha, proof[1..], shape[1..], sha(ClimbBytes(side, cur, curCount, proof[0].digest, count)),
                 curCount + count)
  }

  /** Specification of `verify_leaf`. */
  function Verify(sha: Hash, count: nat, index: nat, leaf: Digest, proof: seq<ProofStep>,
                  root: Digest): CodecResult<()> {
    var shape :- ExpectedProofShape(count, index);
    if |proof| != |shape| then Err(BadLength)
    else
      var top :- Climb(sha, proof, shape, leaf, 1);
      if top != root then Err(DigestMismatch) else Ok(())
  }

  method VerifyLeaf(sha: Hash, count: U64, index: U64, leaf: Digest, proof: seq<ProofStep>, root: Digest)
    returns (r: CodecResult<()>)
    ensures r == Verify(sha, count, index, leaf, proof, root)
  {
    hide Shape, Pow2Below, BranchBytes;
    var computed := ComputeProofShape(count, index);
    var shape :- computed;
    if |proof| != |shape| {
      return Err(BadLength);
    }
    var cur, curCount: nat := leaf, 1;
    for i := 0 to |proof|
      invariant Climb(sha, proof, shape, leaf, 1) == Climb(sha, proof[i..], shape[i..], cur, curCount)
    {
      var step := proof[i];
      var (side, siblingCount) := shape[i];
      assert proof[i..][1..] == proof[i + 1..] && shape[i..][1..] == shape[i + 1..];
      if step.side != side || step.siblingPages != siblingCount {
        return Err(BadOrdering);
      }
      match side {
        case Right => cur := BranchHash(sha, cur, step.digest, curCount, siblingCount);
        case Left => cur := BranchHash(sha, step.digest, cur, siblingCount, curCount);
      }
      curCount := curCount + siblingCount;
    }
    if cur != root {
      return Err(DigestMismatch);
    }
    return Ok(());
  }

  // ----- completeness -----

  /** Pages below the sibling subtrees of a shape, on one side or on both. */
  function SiblingSum(shape: seq<(Side, nat)>, leftOnly: bool): nat {
    if shape == [] then 0
    else SiblingSum(shape[..|shape| - 1], leftOnly)
         + (if leftOnly && shape[|shape| - 1].0 == Right then 0 else shape[|shape| - 1].1)
  }

  /** The siblings to the left are exactly the pages before the leaf, and all siblings are all other pages. */
  lemma {:induction false} ShapeCounts(count: nat, index: nat)
    requires index < count
    ensures SiblingSum(Shape(count, index), true) == index
    ensures SiblingSum(Shape(count, index), false) + 1 == count
  {
    if count > 1 {
      var below := Shape(HalfCount(count, index), HalfIndex(count, index));
      ShapeCounts(HalfCount(count, index), HalfIndex(count, index));
      assert Shape(count, index)[..|below|] == below;
    }
  }

  /** Different leaves of one tree never share a proof shape. */
  lemma ShapesDiffer(count: nat, i: nat, j: nat)
    requires i < count && j < count && i != j
    ensures Shape(count, i) != Shape(count, j)
  {
    ShapeCounts(count, i);
    ShapeCounts(count, j);
  }

  /** A proof is no longer than the depth of a full binary tree with room for the pages. */
  lemma {:induction false} ShapeLength(count: nat, index: nat, depth: nat)
    requires index < count <= Pow2(depth)
    ensures |Shape(count, index)| <= depth
    decreases count
  {
    if count > 1 {
      Pow2BelowFits(count, depth);
      ShapeLength(HalfCount(count, index), HalfIndex(count, index), depth - 1);
    }
  }

  lemma Pow2BelowFits(count: nat, depth: nat)
    requires 1 < count <= Pow2(depth)
    ensures depth > 0 && Pow2Below(count) <= Pow2(depth - 1)
  {
    var k := Pow2Below(count);
    if k > Pow2(depth - 1) {
      Pow2Spread(k, depth - 1);
    }
  }

  /** Distinct powers of two are at least a factor of two apart. */
  lemma {:induction false} Pow2Spread(k: nat, d: nat)
    requires IsPow2(k) && k > Pow2(d)
    ensures k >= 2 * Pow2(d)
  {
    if d > 0 {
      Pow2Spread(k / 2, d - 1);
    }
  }

  lemma {:induction false} ProofFollowsShape(sha: Hash, leaves: seq<Digest>, index: nat)
    requires index < |leaves| < U64_LIMIT
    ensures var p, s := Proof(sha, leaves, index), Shape(|leaves|, index);
            && |p| == |s|
            && forall i :: 0 <= i < |p| ==> p[i].side == s[i].0 && p[i].siblingPages == s[i].1
  {
    if |leaves| > 1 {
      ProofFollowsShape(sha, HalfLeaves(leaves, index, false), HalfIndex(|leaves|, index));
    }
  }

  /** One step of the climb. */
  lemma ClimbStep(sha: Hash, proof: seq<ProofStep>, shape: seq<(Side, nat)>, cur: Digest, curCount: nat)
    requires |proof| == |shape| > 0
    ensures var (side, count) := shape[0];
            Climb(sha, proof, shape, cur, curCount) ==
            if proof[0].side != side || proof[0].siblingPages != count then Err(BadOrdering)
            else Climb(sha, proof[1..], shape[1..], sha(ClimbBytes(side, cur, curCount, proof[0].digest, count)),
                       curCount + count)
  {
    hide ClimbBytes;
  }

  lemma ClimbNothing(sha: Hash, cur: Digest, curCount: nat)
    ensures Climb(sha, [], [], cur, curCount) == Ok(cur)
  {
  }

  /** The last step is checked after all others. */
  lemma {:induction false} ClimbLast(sha: Hash, proof: seq<ProofStep>, shape: seq<(Side, nat)>,
                                     last: ProofStep, lastShape: (Side, nat), cur: Digest, curCount: nat)
    requires |proof| == |shape|
    ensures Climb(sha, proof + [last], shape + [lastShape], cur, curCount) ==
            match Climb(sha, proof, shape, cur, curCount) {
              case Err(e) => Err(e)
              case Ok(mid) => Climb(sha, [last], [lastShape], mid, curCount + SiblingTotal(shape))
            }
  {
    hide Climb, ClimbBytes;
    if proof == [] {
      assert [] + [last] == [last] && [] + [lastShape] == [lastShape];
      ClimbNothing(sha, cur, curCount);
    } else {
      var (side, count) := shape[0];
      assert (proof + [last])[1..] == proof[1..] + [last] && (shape + [lastShape])[1..] == shape[1..] + [lastShape];
      ClimbStep(sha, proof, shape, cur, curCount);
      ClimbStep(sha, proof + [last], shape + [lastShape], cur, curCount);
      ClimbLast(sha, proof[1..], shape[1..], last, lastShape,
                sha(ClimbBytes(side, cur, curCount, proof[0].digest, count)), curCount + count);
    }
  }

  lemma ClimbLastOk(sha: Hash, proof: seq<ProofStep>, shape: seq<(Side, nat)>,
                    last: ProofStep, lastShape: (Side, nat), cur: Digest, mid: Digest)
    requires |proof| == |shape| && Climb(sha, proof, shape, cur, 1) == Ok(mid)
    ensures Climb(sha, proof + [last], shape + [lastShape], cur, 1)
         == Climb(sha, [last], [lastShape], mid, 1 + SiblingTotal(shape))
  {
    hide Climb, SiblingTotal;
    ClimbLast(sha, proof, shape, last, lastShape, cur, 1);
  }

  /** Sum of the sibling counts, from the leaf upwards. */
  function SiblingTotal(shape: seq<(Side, nat)>): nat {
    if shape == [] then 0 else shape[0].1 + SiblingTotal(shape[1..])
  }

  lemma {:induction false} SiblingTotalPush(shape: seq<(Side, nat)>, last: (Side, nat))
    ensures SiblingTotal(shape + [last]) == SiblingTotal(shape) + last.1
  {
    if shape != [] {
      SiblingTotalPush(shape[1..], last);
      assert (shape + [last])[1..] == shape[1..] + [last];
    }
  }

  lemma {:induction false} ShapeTotal(count: nat, index: nat)
    requires index < count
    ensures SiblingTotal(Shape(count, index)) + 1 == count
  {
    if count > 1 {
      var n, i := HalfCount(count, index), HalfIndex(count, index);
      ShapeTotal(n, i);
      SiblingTotalPush(Shape(n, i), OtherHalf(count, index));
    }
  }

  /** Completeness: the prover's steps climb from the leaf to the built root. */
  lemma {:induction false} ProofClimbs(sha: Hash, leaves: seq<Digest>, index: nat)
    requires index < |leaves| < U64_LIMIT
    ensures Climb(sha, Proof(sha, leaves, index), Shape(|leaves|, index), leaves[index], 1)
         == Ok(BuildSubtree(sha, leaves).0)
    decreases |leaves|
  {
    if |leaves| == 1 {
      ProofClimbsOne(sha, leaves);
    } else {
      hide BuildSubtree, HalfLeaves, OtherHalf, Climb, TopStep, HalfIndex, HalfCount, SiblingTotal, Pow2Below;
      var half, i := HalfLeaves(leaves, index, false), HalfIndex(|leaves|, index);
      var top, step := TopStep(sha, leaves, index), OtherHalf(|leaves|, index);
      var proof, shape := Proof(sha, half, i), Shape(|half|, i);
      ProofClimbs(sha, half, i);
      ShapeTotal(|half|, i);
      assert half[i] == leaves[index] && 1 + SiblingTotal(shape) == |half|;
      assert Proof(sha, leaves, index) == proof + [top] && Shape(|leaves|, index) == shape + [step];
      ClimbLastOk(sha, proof, shape, top, step, leaves[index], BuildSubtree(sha, half).0);
      TopClimb(sha, leaves, index);
    }
  }

  lemma ProofClimbsOne(sha: Hash, leaves: seq<Digest>)
    requires |leaves| == 1
    ensures Climb(sha, Proof(sha, leaves, 0), Shape(1, 0), leaves[0], 1) == Ok(BuildSubtree(sha, leaves).0)
  {
    assert Proof(sha, leaves, 0) == [] && Shape(1, 0) == [];
  }

  /** One climb from the root of the leaf's half reaches the root. */
  lemma TopClimb(sha: Hash, leaves: seq<Digest>, index: nat)
    requires 1 < |leaves| < U64_LIMIT && index < |leaves|
    ensures var half, step := HalfLeaves(leaves, index, false), OtherHalf(|leaves|, index);
            Climb(sha, [TopStep(sha, leaves, index)], [step], BuildSubtree(sha, half).0, |half|)
                == Ok(BuildSubtree(sha, leaves).0)
  {
    var half, other := HalfLeaves(leaves, index, false), HalfLeaves(leaves, index, true);
    ClimbOne(sha, TopStep(sha, leaves, index), OtherHalf(|leaves|, index), BuildSubtree(sha, half).0, |half|);
    TopBytes(sha, leaves, index);
  }

  lemma ClimbOne(sha: Hash, step: ProofStep, shape: (Side, nat), cur: Digest, curCount: nat)
    ensures Climb(sha, [step], [shape], cur, curCount) ==
            if step.side != shape.0 || step.siblingPages != shape.1 then Err(BadOrdering)
            else Ok(sha(ClimbBytes(shape.0, cur, curCount, step.digest, shape.1)))
  {
  }

  /** The bytes hashed for the root, seen from the leaf's half. */
  function RootBytes(sha: Hash, leaves: seq<Digest>): Bytes
    requires 1 < |leaves|
  {
    var k := Pow2Below(|leaves|);
    BranchBytes(BuildSubtree(sha, leaves[..k]).0, BuildSubtree(sha, leaves[k..]).0, k, |leaves| - k)
  }

  lemma TopBytes(sha: Hash, leaves: seq<Digest>, index: nat)
    requires 1 < |leaves| && index < |leaves|
    ensures BuildSubtree(sha, leaves).0 == sha(RootBytes(sha, leaves))
    ensures var half, other, (side, count) := HalfLeaves(leaves, index, false), HalfLeaves(leaves, index, true),
            OtherHalf(|leaves|, index);
            RootBytes(sha, leaves)
                == ClimbBytes(side, BuildSubtree(sha, half).0, |half|, BuildSubtree(sha, other).0, count)
  {
    var k := Pow2Below(|leaves|);
    if index < k {
      assert HalfLeaves(leaves, index, false) == leaves[..k] && HalfLeaves(leaves, index, true) == leaves[k..];
    } else {
      assert HalfLeaves(leaves, index, false) == leaves[k..] && HalfLeaves(leaves, index, true) == leaves[..k];
    }
  }

  lemma ProofVerifies(sha: Hash, leaves: seq<Digest>, index: nat)
    requires index < |leaves| < U64_LIMIT
    ensures MerkleRoot(sha, leaves).Ok?
    ensures Verify(sha, |leaves|, index, leaves[index], Proof(sha, leaves, index), MerkleRoot(sha, leaves).value)
            == Ok(())
  {
    ProofClimbs(sha, leaves, index);
  }

  // ----- soundness -----

  /** Everything hashed while building the tree over `leaves`. */
  function BuildInputs(sha: Hash, leaves: seq<Digest>): set<Bytes>
    requires leaves != []
  {
    if |leaves| == 1 then {}
    else
      var k := Pow2Below(|leaves|);
      {RootBytes(sha, leaves)} + BuildInputs(sha, leaves[..k]) + BuildInputs(sha, leaves[k..])
  }

  /** Everything hashed while climbing along a proof. */
  function ClimbInputs(sha: Hash, proof: seq<ProofStep>, shape: seq<(Side, nat)>, cur: Digest,
                       curCount: nat): set<Bytes>
    requires |proof| == |shape|
  {
    if proof == [] then {}
    else
      var (side, count) := shape[0];
      var input := ClimbBytes(side, cur, curCount, proof[0].digest, count);
      {input} + ClimbInputs(sha, proof[1..], shape[1..], sha(input), curCount + count)
  }

  lemma ClimbInputsStep(sha: Hash, proof: seq<ProofStep>, shape: seq<(Side, nat)>, cur: Digest, curCount: nat)
    requires |proof| == |shape| > 0
    ensures var (side, count) := shape[0];
            var input := ClimbBytes(side, cur, curCount, proof[0].digest, count);
            ClimbInputs(sha, proof, shape, cur, curCount)
            == {input} + ClimbInputs(sha, proof[1..], shape[1..], sha(input), curCount + count)
  {
    hide ClimbBytes;
  }

  lemma ClimbInputsNothing(sha: Hash, cur: Digest, curCount: nat)
    ensures ClimbInputs(sha, [], [], cur, curCount) == {}
  {
  }

  lemma {:induction false} ClimbInputsLast(sha: Hash, proof: seq<ProofStep>, shape: seq<(Side, nat)>,
                                           last: ProofStep, lastShape: (Side, nat), cur: Digest, curCount: nat)
    requires |proof| == |shape| && Climb(sha, proof, shape, cur, curCount).Ok?
    ensures ClimbInputs(sha, proof + [last], shape + [lastShape], cur, curCount)
         == ClimbInputs(sha, proof, shape, cur, curCount)
            + {ClimbBytes(lastShape.0, Climb(sha, proof, shape, cur, curCount).value, curCount + SiblingTotal(shape),
                          last.digest, lastShape.1)}
  {
    hide Climb, ClimbBytes, ClimbInputs;
    if proof == [] {
      assert [] + [last] == [last] && [] + [lastShape] == [lastShape];
      assert [last][1..] == [] && [lastShape][1..] == [];
      ClimbNothing(sha, cur, curCount);
      ClimbInputsStep(sha, [last], [lastShape], cur, curCount);
      ClimbInputsNothing(sha, cur, curCount);
      ClimbInputsNothing(sha, sha(ClimbBytes(lastShape.0, cur, curCount, last.digest, lastShape.1)),
                         curCount + lastShape.1);
    } else {
      var (side, count) := shape[0];
      assert (proof + [last])[1..] == proof[1..] + [last] && (shape + [lastShape])[1..] == shape[1..] + [lastShape];
      ClimbStep(sha, proof, shape, cur, curCount);
      ClimbInputsStep(sha, proof, shape, cur, curCount);
      ClimbInputsStep(sha, proof + [last], shape + [lastShape], cur, curCount);
      ClimbInputsLast(sha, proof[1..], shape[1..], last, lastShape,
                      sha(ClimbBytes(side, cur, curCount, proof[0].digest, count)), curCount + count);
    }
  }

  lemma BranchBytesInjective(l: Digest, r: Digest, l': Digest, r': Digest, lc: nat, rc: nat)
    requires BranchBytes(l, r, lc, rc) == BranchBytes(l', r', lc, rc)
    ensures l == l' && r == r'
  {
    var d := |BRANCH_DOMAIN|;
    var b, b' := BranchBytes(l, r, lc, rc), BranchBytes(l', r', lc, rc);
    assert b[d + 8..d + 40] == l && b'[d + 8..d + 40] == l';
    assert b[d + 48..] == r && b'[d + 48..] == r';
  }

  lemma ClimbBytesInjective(side: Side, cur: Digest, cur': Digest, curCount: nat, sibling: Digest, sibling': Digest,
                            count: nat)
    requires ClimbBytes(side, cur, curCount, sibling, count) == ClimbBytes(side, cur', curCount, sibling', count)
    ensures cur == cur' && sibling == sibling'
  {
    match side
    case Right => BranchBytesInjective(cur, sibling, cur', sibling', curCount, count);
    case Left => BranchBytesInjective(sibling, cur, sibling', cur', count, curCount);
  }

  lemma HalfInputs(sha: Hash, leaves: seq<Digest>, index: nat)
    requires 1 < |leaves| && index < |leaves|
    ensures BuildInputs(sha, HalfLeaves(leaves, index, false)) <= BuildInputs(sha, leaves)
    ensures RootBytes(sha, leaves) in BuildInputs(sha, leaves)
  {
  }

  /**
   * Soundness: unless two of the hashed inner nodes collide, a climb that reaches the root of `leaves`
   * started at the right leaf and used the prover's own steps.
   */
  lemma {:induction false} ClimbSound(sha: Hash, leaves: seq<Digest>, index: nat, leaf: Digest, proof: seq<ProofStep>)
    requires index < |leaves| < U64_LIMIT && |proof| == |Shape(|leaves|, index)|
    requires Climb(sha, proof, Shape(|leaves|, index), leaf, 1) == Ok(BuildSubtree(sha, leaves).0)
    requires CollisionFree(sha, BuildInputs(sha, leaves) + ClimbInputs(sha, proof, Shape(|leaves|, index), leaf, 1))
    ensures leaf == leaves[index] && proof == Proof(sha, leaves, index)
    decreases |leaves|
  {
    if |leaves| > 1 {
      hide BuildSubtree, HalfLeaves, OtherHalf, BuildInputs, ClimbInputs, Climb, TopStep, HalfIndex, HalfCount,
           Pow2Below;
      var half, i := HalfLeaves(leaves, index, false), HalfIndex(|leaves|, index);
      var rest := ClimbSoundTop(sha, leaves, index, leaf, proof);
      ClimbSound(sha, half, i, leaf, rest);
    }
  }

  /** The last step of a climb to the root is the prover's; what is left climbs to the root of the leaf's half. */
  lemma ClimbSoundTop(sha: Hash, leaves: seq<Digest>, index: nat, leaf: Digest, proof: seq<ProofStep>)
    returns (rest: seq<ProofStep>)
    requires 1 < |leaves| < U64_LIMIT && index < |leaves| && |proof| == |Shape(|leaves|, index)|
    requires Climb(sha, proof, Shape(|leaves|, index), leaf, 1) == Ok(BuildSubtree(sha, leaves).0)
    requires CollisionFree(sha, BuildInputs(sha, leaves) + ClimbInputs(sha, proof, Shape(|leaves|, index), leaf, 1))
    ensures proof == rest + [TopStep(sha, leaves, index)]
    ensures var half, i := HalfLeaves(leaves, index, false), HalfIndex(|leaves|, index);
            && |rest| == |Shape(|half|, i)|
            && Climb(sha, rest, Shape(|half|, i), leaf, 1) == Ok(BuildSubtree(sha, half).0)
            && CollisionFree(sha, BuildInputs(sha, half) + ClimbInputs(sha, rest, Shape(|half|, i), leaf, 1))
  {
    hide BuildSubtree, HalfLeaves, OtherHalf, BuildInputs, ClimbInputs, Climb, TopStep, HalfIndex, HalfCount,
         ClimbBytes, SiblingTotal, Pow2Below;
    var n := |proof| - 1;
    var last := proof[n];
    rest := proof[..n];
    var half, i, step := HalfLeaves(leaves, index, false), HalfIndex(|leaves|, index), OtherHalf(|leaves|, index);
    var shape := Shape(|half|, i);
    assert proof == rest + [last] && Shape(|leaves|, index) == shape + [step];
    ShapeTotal(|half|, i);
    ClimbLast(sha, rest, shape, last, step, leaf, 1);
    ClimbInputsLast(sha, rest, shape, last, step, leaf, 1);
    TopStepForced(sha, leaves, index, Climb(sha, rest, shape, leaf, 1).value, last,
                  BuildInputs(sha, leaves) + ClimbInputs(sha, proof, Shape(|leaves|, index), leaf, 1));
    HalfInputs(sha, leaves, index);
  }

  /** Without a collision there is one way to reach the root from the leaf's half. */
  lemma TopStepForced(sha: Hash, leaves: seq<Digest>, index: nat, mid: Digest, last: ProofStep, inputs: set<Bytes>)
    requires 1 < |leaves| < U64_LIMIT && index < |leaves|
    requires var half, step := HalfLeaves(leaves, index, false), OtherHalf(|leaves|, index);
             && Climb(sha, [last], [step], mid, |half|) == Ok(BuildSubtree(sha, leaves).0)
             && ClimbBytes(step.0, mid, |half|, last.digest, step.1) in inputs
    requires BuildInputs(sha, leaves) <= inputs && CollisionFree(sha, inputs)
    ensures mid == BuildSubtree(sha, HalfLeaves(leaves, index, false)).0 && last == TopStep(sha, leaves, index)
  {
    hide BuildSubtree, HalfLeaves, OtherHalf, BuildInputs, RootBytes, ClimbBytes;
    var half, other, step := HalfLeaves(leaves, index, false), HalfLeaves(leaves, index, true),
        OtherHalf(|leaves|, index);
    ClimbOne(sha, last, step, mid, |half|);
    TopBytes(sha, leaves, index);
    HalfInputs(sha, leaves, index);
    ClimbBytesInjective(step.0, mid, BuildSubtree(sha, half).0, |half|, last.digest, BuildSubtree(sha, other).0,
                        step.1);
  }

  lemma VerifySound(sha: Hash, leaves: seq<Digest>, index: nat, leaf: Digest, proof: seq<ProofStep>)
    requires 0 < |leaves| < U64_LIMIT
    requires Verify(sha, |leaves|, index, leaf, proof, MerkleRoot(sha, leaves).value).Ok?
    requires |proof| == |Shape(|leaves|, index)| ==>
               CollisionFree(sha, BuildInputs(sha, leaves) + ClimbInputs(sha, proof, Shape(|leaves|, index), leaf, 1))
    ensures index < |leaves| && leaf == leaves[index] && proof == Proof(sha, leaves, index)
  {
    ClimbSound(sha, leaves, index, leaf, proof);
  }

  // ----- what is hashed, and what is checked, on any input -----

  /** The 102 bytes of an inner node: domain, page count and digest of the left child, then of the right one. */
  predicate InPlace(b: Bytes, left: Digest, leftCount: nat, right: Digest, rightCount: nat) {
    && |b| == 102
    && b[..22] == Ascii("mega.mst2.chunkbranch\0")
    && LeValue(b[22..30]) == leftCount && b[30..62] == left
    && LeValue(b[62..70]) == rightCount && b[70..102] == right
  }

  /** `d` is the digest of the node over the two children. */
  ghost predicate Combines(sha: Hash, left: Digest, leftCount: nat, right: Digest, rightCount: nat, d: Digest) {
    exists b :: InPlace(b, left, leftCount, right, rightCount) && d == sha(b)
  }

  /** The hashed bytes are the only ones with these fields. */
  lemma BranchInPlace(b: Bytes, left: Digest, leftCount: nat, right: Digest, rightCount: nat)
    requires leftCount < U64_LIMIT && rightCount < U64_LIMIT
    ensures InPlace(b, left, leftCount, right, rightCount) <==> b == BranchBytes(left, right, leftCount, rightCount)
  {
    hide Le64, LeValue;
    var f3 := Le64(rightCount) + right;
    var f2 := left + f3;
    var f1 := Le64(leftCount) + f2;
    var c := BranchBytes(left, right, leftCount, rightCount);
    assert c[0..] == c && right[..] == right && right + [] == right;
    FieldAt(c, 0, BRANCH_DOMAIN, f1);
    FieldAt(c, 22, Le64(leftCount), f2);
    FieldAt(c, 30, left, f3);
    FieldAt(c, 62, Le64(rightCount), right);
    assert c[70..] == c[70..102];
    Le64Value(leftCount);
    Le64Value(rightCount);
    if InPlace(b, left, leftCount, right, rightCount) {
      ValueLe64(b[22..30]);
      ValueLe64(b[62..70]);
      CutAt(b, 0, 22);
      CutAt(b, 22, 8);
      CutAt(b, 30, 32);
      CutAt(b, 62, 8);
      assert b[0..] == b && b[70..] == b[70..102];
    }
  }

  lemma Le64Value(n: nat)
    requires n < U64_LIMIT
    ensures LeValue(Le64(n)) == n
  {
    Pow256Values();
    LeValueOfLe(n, 8);
  }

  lemma ValueLe64(b: Bytes)
    requires |b| == 8
    ensures Le64(LeValue(b)) == b
  {
    LeOfLeValue(b);
  }

  lemma CombinesMeans(sha: Hash, left: Digest, leftCount: nat, right: Digest, rightCount: nat, d: Digest)
    requires leftCount < U64_LIMIT && rightCount < U64_LIMIT
    ensures Combines(sha, left, leftCount, right, rightCount, d) <==>
            d == sha(BranchBytes(left, right, leftCount, rightCount))
  {
    hide InPlace, BranchBytes;
    var b := BranchBytes(left, right, leftCount, rightCount);
    BranchInPlace(b, left, leftCount, right, rightCount);
    forall c | InPlace(c, left, leftCount, right, rightCount) ensures c == b {
      BranchInPlace(c, left, leftCount, right, rightCount);
    }
  }

  /** `d` is the root over the leaves: of one, the leaf itself; of more, the node over the two parts. */
  ghost predicate RootOver(sha: Hash, leaves: seq<Digest>, d: Digest)
    decreases |leaves|
  {
    if |leaves| <= 1 then leaves == [d]
    else exists k: nat, left, right :: SplitsAt(sha, leaves, d, k, left, right)
  }

  /** The parts: as many leaves on the left as the largest power of two below their number. */
  ghost predicate SplitsAt(sha: Hash, leaves: seq<Digest>, d: Digest, k: nat, left: Digest, right: Digest)
    requires |leaves| > 1
    decreases |leaves|, 0
  {
    && IsPow2(k) && 0 < k < |leaves| <= 2 * k
    && RootOver(sha, leaves[..k], left) && RootOver(sha, leaves[k..], right)
    && Combines(sha, left, k, right, |leaves| - k, d)
  }

  /** `merkle_root` fails on no leaves, and otherwise gives the one digest that is the root over them. */
  lemma {:induction false} MerkleRootMeans(sha: Hash, leaves: seq<Digest>, d: Digest)
    requires |leaves| < U64_LIMIT
    ensures MerkleRoot(sha, leaves) == Ok(d) <==> RootOver(sha, leaves, d)
    decreases |leaves|
  {
    hide Combines, BranchBytes, Pow2Below;
    if |leaves| > 1 {
      var k := Pow2Below(|leaves|);
      var left, right := BuildSubtree(sha, leaves[..k]).0, BuildSubtree(sha, leaves[k..]).0;
      MerkleRootMeans(sha, leaves[..k], left);
      MerkleRootMeans(sha, leaves[k..], right);
      CombinesMeans(sha, left, k, right, |leaves| - k, BuildSubtree(sha, leaves).0);
      assert SplitsAt(sha, leaves, BuildSubtree(sha, leaves).0, k, left, right);
      forall n: nat, l, r | SplitsAt(sha, leaves, d, n, l, r) ensures MerkleRoot(sha, leaves) == Ok(d) {
        Pow2BelowUnique(|leaves|, n);
        MerkleRootMeans(sha, leaves[..k], l);
        MerkleRootMeans(sha, leaves[k..], r);
        CombinesMeans(sha, l, k, r, |leaves| - k, d);
      }
    }
  }

  /** Pages below the first `n` siblings. */
  function SiblingPages(proof: seq<ProofStep>, n: nat): nat
    requires n <= |proof|
  {
    if n == 0 then 0 else SiblingPages(proof, n - 1) + proof[n - 1].siblingPages
  }

  /** One step up: the node over `cur`, which has `pages` pages, and its sibling. */
  ghost predicate Rises(sha: Hash, cur: Digest, pages: nat, step: ProofStep, up: Digest) {
    match step.side
    case Right => Combines(sha, cur, pages, step.digest, step.siblingPages, up)
    case Left => Combines(sha, step.digest, step.siblingPages, cur, pages, up)
  }

  /** The digests from the leaf, first, to the root, last. */
  ghost predicate Path(sha: Hash, proof: seq<ProofStep>, leaf: Digest, pages: nat, root: Digest, ds: seq<Digest>) {
    && |ds| == |proof| + 1 && ds[0] == leaf && ds[|proof|] == root
    && forall i :: 0 <= i < |proof| ==> Rises(sha, ds[i], pages + SiblingPages(proof, i), proof[i], ds[i + 1])
  }

  predicate InShape(proof: seq<ProofStep>, shape: seq<(Side, nat)>) {
    |proof| == |shape| && forall i :: 0 <= i < |proof| ==> (proof[i].side, proof[i].siblingPages as nat) == shape[i]
  }

  lemma {:induction false} SiblingPagesCons(proof: seq<ProofStep>, n: nat)
    requires proof != [] && n < |proof|
    ensures SiblingPages(proof, n + 1) == proof[0].siblingPages + SiblingPages(proof[1..], n)
  {
    if n > 0 {
      SiblingPagesCons(proof, n - 1);
    }
  }

  lemma RisesMeans(sha: Hash, cur: Digest, pages: nat, step: ProofStep, up: Digest)
    requires pages < U64_LIMIT
    ensures Rises(sha, cur, pages, step, up) <==>
            up == sha(ClimbBytes(step.side, cur, pages, step.digest, step.siblingPages))
  {
    hide Combines, BranchBytes;
    CombinesMeans(sha, cur, pages, step.digest, step.siblingPages, up);
    CombinesMeans(sha, step.digest, step.siblingPages, cur, pages, up);
  }

  /** A path below the first step is a path of the rest. */
  lemma PathTail(sha: Hash, proof: seq<ProofStep>, leaf: Digest, pages: nat, root: Digest, ds: seq<Digest>)
    requires proof != [] && Path(sha, proof, leaf, pages, root, ds)
    ensures |ds| == |proof| + 1 && Rises(sha, leaf, pages, proof[0], ds[1])
    ensures Path(sha, proof[1..], ds[1], pages + proof[0].siblingPages, root, ds[1..])
  {
    hide Rises;
    assert Rises(sha, ds[0], pages + SiblingPages(proof, 0), proof[0], ds[1]);
    forall i | 0 <= i < |proof[1..]|
      ensures Rises(sha, ds[1..][i], pages + proof[0].siblingPages + SiblingPages(proof[1..], i), proof[1..][i],
                    ds[1..][i + 1])
    {
      SiblingPagesCons(proof, i);
      assert Rises(sha, ds[i + 1], pages + SiblingPages(proof, i + 1), proof[i + 1], ds[i + 2]);
    }
  }

  lemma PathCons(sha: Hash, proof: seq<ProofStep>, leaf: Digest, pages: nat, root: Digest, ds: seq<Digest>)
    requires proof != [] && ds != [] && Rises(sha, leaf, pages, proof[0], ds[0])
    requires Path(sha, proof[1..], ds[0], pages + proof[0].siblingPages, root, ds)
    ensures Path(sha, proof, leaf, pages, root, [leaf] + ds)
  {
    hide Rises;
    var all := [leaf] + ds;
    forall i | 0 <= i < |proof| ensures Rises(sha, all[i], pages + SiblingPages(proof, i), proof[i], all[i + 1]) {
      if i > 0 {
        SiblingPagesCons(proof, i - 1);
        assert Rises(sha, ds[i - 1], pages + proof[0].siblingPages + SiblingPages(proof[1..], i - 1), proof[1..][i - 1],
                     ds[i]);
      }
    }
  }

  lemma {:induction false} ClimbMeans(sha: Hash, proof: seq<ProofStep>, shape: seq<(Side, nat)>, leaf: Digest,
                                      pages: nat, root: Digest)
    requires |proof| == |shape| && pages + SiblingTotal(shape) < U64_LIMIT
    ensures Climb(sha, proof, shape, leaf, pages) == Ok(root) <==>
            InShape(proof, shape) && exists ds :: Path(sha, proof, leaf, pages, root, ds)
    decreases |proof|
  {
    hide ClimbBytes, Rises, Path, InShape;
    InShapeCons(proof, shape);
    if proof == [] {
      PathOfNothing(sha, leaf, pages, root);
    } else {
      ClimbStep(sha, proof, shape, leaf, pages);
      var step := proof[0];
      var up := sha(ClimbBytes(step.side, leaf, pages, step.digest, step.siblingPages));
      var rest, sum := proof[1..], pages + step.siblingPages;
      RisesMeans(sha, leaf, pages, step, up);
      if (step.side, step.siblingPages as nat) == shape[0] {
        ClimbMeans(sha, rest, shape[1..], up, sum, root);
      }
      forall ds | Path(sha, proof, leaf, pages, root, ds)
        ensures exists es :: Path(sha, rest, up, sum, root, es)
      {
        PathTail(sha, proof, leaf, pages, root, ds);
        RisesMeans(sha, leaf, pages, step, ds[1]);
      }
      forall es | Path(sha, rest, up, sum, root, es)
        ensures exists ds :: Path(sha, proof, leaf, pages, root, ds)
      {
        PathStarts(sha, rest, up, sum, root, es);
        PathCons(sha, proof, leaf, pages, root, es);
      }
    }
  }

  lemma PathStarts(sha: Hash, proof: seq<ProofStep>, leaf: Digest, pages: nat, root: Digest, ds: seq<Digest>)
    requires Path(sha, proof, leaf, pages, root, ds)
    ensures ds != [] && ds[0] == leaf
  {
    hide Rises;
  }

  lemma PathOfNothing(sha: Hash, leaf: Digest, pages: nat, root: Digest)
    ensures (exists ds :: Path(sha, [], leaf, pages, root, ds)) <==> leaf == root
    ensures InShape([], [])
  {
    if leaf == root {
      assert Path(sha, [], leaf, pages, root, [leaf]);
    }
  }

  lemma InShapeCons(proof: seq<ProofStep>, shape: seq<(Side, nat)>)
    requires |proof| == |shape|
    ensures proof != [] ==>
              (InShape(proof, shape) <==>
               (proof[0].side, proof[0].siblingPages as nat) == shape[0] && InShape(proof[1..], shape[1..]))
  {
    if proof != [] && (proof[0].side, proof[0].siblingPages as nat) == shape[0] && InShape(proof[1..], shape[1..]) {
      forall i | 0 <= i < |proof| ensures (proof[i].side, proof[i].siblingPages as nat) == shape[i] {
        assert i > 0 ==> (proof[1..][i - 1].side, proof[1..][i - 1].siblingPages as nat) == shape[1..][i - 1];
      }
    }
  }

  /**
   * Whatever proof and root are presented: `verify_leaf` accepts exactly when the steps have the sides and page counts
   * that the position demands and the node digests lead from the leaf to the root.
   */
  lemma VerifyMeans(sha: Hash, count: nat, index: nat, leaf: Digest, proof: seq<ProofStep>, root: Digest)
    requires count < U64_LIMIT
    ensures Verify(sha, count, index, leaf, proof, root) == Ok(()) <==>
            index < count && InShape(proof, Shape(count, index)) && exists ds :: Path(sha, proof, leaf, 1, root, ds)
  {
    hide Shape, Climb, Path;
    if index < count {
      ShapeTotal(count, index);
      if |proof| == |Shape(count, index)| {
        ClimbMeans(sha, proof, Shape(count, index), leaf, 1, root);
      }
    }
  }
}
