/** Tenant-bound Merkle batches with the duplicate-last rule (packages/trust/src/merkle.ts).

    Digests are free constructors: two digests are equal only when they were built from the
    same parts. `Foreign` stands for any other text that can appear where a digest is expected. */
module Merkle {
  import opened Wrappers
  import opened Texts

  datatype Digest =
    | Foreign(text: Text)
    | LeafHash(tenantId: Text, leaf: Text)
    | NodeHash(tenantId: Text, left: Digest, right: Digest)

  predicate IsHexText(t: Text) {
    |t| == 64 && forall u | u in t :: 0x30 <= u <= 0x39 || 0x61 <= u <= 0x66
  }

  predicate IsHexDigest(d: Digest) {
    d.Foreign? ==> IsHexText(d.text)
  }

  /** Integers that JavaScript's number type holds exactly. */
  const MAX_SAFE_INTEGER: int := 0x1F_FFFF_FFFF_FFFF
  const MAX_ARRAY_LENGTH: int := 0xFFFF_FFFF

  // ---------------------------------------------------------------- batches

  datatype BatchError = EmptyInput | InvalidLeaf | DuplicateLeaf

  datatype Batch = Batch(batchId: Text, tenantId: Text, leafDigests: seq<Text>, leafCount: nat, rootDigest: Digest)

  function ValidateLeaves(leaves: seq<Text>): (r: Result<seq<Text>, BatchError>)
    ensures r.Ok? <==> leaves != [] && (forall l | l in leaves :: IsHexText(l)) && Distinct(leaves)
    ensures r.Ok? ==> Sorted(r.value) && Distinct(r.value) && multiset(r.value) == multiset(leaves)
    ensures r == Err(EmptyInput) <==> leaves == []
    ensures r == Err(InvalidLeaf) <==> exists l | l in leaves :: !IsHexText(l)
    ensures r == Err(DuplicateLeaf) <==> leaves != [] && (forall l | l in leaves :: IsHexText(l)) && !Distinct(leaves)
  {
    if leaves == [] then Err(EmptyInput)
    else if exists l | l in leaves :: !IsHexText(l) then Err(InvalidLeaf)
    else
      var sorted := SortTexts(leaves);
      DistinctIsAdjacent(sorted);
      DistinctByCount(sorted, leaves);
      if exists i | 0 < i < |sorted| :: sorted[i] == sorted[i - 1] then Err(DuplicateLeaf)
      else Ok(sorted)
  }

  function LeafLevel(tenantId: Text, leaves: seq<Text>): (r: seq<Digest>)
    ensures |r| == |leaves|
    ensures forall i | 0 <= i < |leaves| :: r[i] == LeafHash(tenantId, leaves[i])
  {
    seq(|leaves|, i requires 0 <= i < |leaves| => LeafHash(tenantId, leaves[i]))
  }

  /** One level up: neighbours are paired, and an unpaired last node is paired with itself. */
  function Parents(tenantId: Text, level: seq<Digest>): (r: seq<Digest>)
    ensures |r| == (|level| + 1) / 2
    ensures forall p | 0 <= p < |r| ::
      r[p] == NodeHash(tenantId, level[2 * p], level[if 2 * p + 1 < |level| then 2 * p + 1 else 2 * p])
  {
    seq((|level| + 1) / 2, p requires 0 <= p < (|level| + 1) / 2 =>
      NodeHash(tenantId, level[2 * p], level[if 2 * p + 1 < |level| then 2 * p + 1 else 2 * p]))
  }

  function Levels(tenantId: Text, level: seq<Digest>): (r: seq<seq<Digest>>)
    requires level != []
    ensures r != [] && r[0] == level
    decreases |level|
  {
    if |level| == 1 then [level] else [level] + Levels(tenantId, Parents(tenantId, level))
  }

  function Root(tenantId: Text, level: seq<Digest>): Digest
    requires level != []
    decreases |level|
  {
    if |level| == 1 then level[0] else Root(tenantId, Parents(tenantId, level))
  }

  /** The number of pairing rounds for a level of n nodes. */
  function Height(n: nat): nat
    requires n > 0
  {
    if n == 1 then 0 else 1 + Height((n + 1) / 2)
  }

  function Pow2(n: nat): (r: nat)
    ensures r > 0
  {
    if n == 0 then 1 else 2 * Pow2(n - 1)
  }

  /** Every level after the first is the parents of the one before it. */
  ghost predicate Linked(tenantId: Text, levels: seq<seq<Digest>>) {
    && levels != [] && levels[0] != []
    && forall k :: 0 <= k < |levels| - 1 ==> |levels[k]| > 1 && levels[k + 1] == Parents(tenantId, levels[k])
  }

  lemma {:induction false} LevelsLinked(tenantId: Text, levels: seq<seq<Digest>>)
    requires Linked(tenantId, levels) && |levels[|levels| - 1]| == 1
    ensures levels == Levels(tenantId, levels[0])
    decreases |levels|
  {
    if |levels| > 1 {
      var rest := levels[1..];
      assert forall k :: 0 <= k < |rest| ==> rest[k] == levels[k + 1];
      LevelsLinked(tenantId, rest);
      assert levels == [levels[0]] + rest;
    }
  }

  /** The outer loop of `levelsFor`; its inner loop is `NextLevel`. */
  method LevelsFor(tenantId: Text, leaves: seq<Text>) returns (levels: seq<seq<Digest>>)
    requires leaves != []
    ensures levels == Levels(tenantId, LeafLevel(tenantId, leaves))
    ensures Linked(tenantId, levels) && |levels[|levels| - 1]| == 1
  {
    levels := [LeafLevel(tenantId, leaves)];
    while |levels[|levels| - 1]| > 1
      invariant Linked(tenantId, levels) && levels[|levels| - 1] != []
      invariant levels[0] == LeafLevel(tenantId, leaves)
      decreases |levels[|levels| - 1]|
    {
      var next := NextLevel(tenantId, levels[|levels| - 1]);
      levels := levels + [next];
    }
    LevelsLinked(tenantId, levels);
  }

  method NextLevel(tenantId: Text, current: seq<Digest>) returns (next: seq<Digest>)
    ensures next == Parents(tenantId, current)
  {
    next := [];
    var index := 0;
    while index < |current|
      invariant index == 2 * |next| && |next| <= |Parents(tenantId, current)|
      invariant forall p :: 0 <= p < |next| ==> next[p] == Parents(tenantId, current)[p]
    {
      var left := current[index];
      next := next + [NodeHash(tenantId, left, if index + 1 < |current| then current[index + 1] else left)];
      index := index + 2;
    }
  }

  method CreateMerkleBatch(batchId: Text, tenantId: Text, leafDigests: seq<Text>) returns (r: Result<Batch, BatchError>)
    ensures r == BatchFor(batchId, tenantId, leafDigests)
    ensures r.Ok? ==>
      && r.value.batchId == batchId && r.value.tenantId == tenantId && r.value.leafCount == |leafDigests|
      && Sorted(r.value.leafDigests) && multiset(r.value.leafDigests) == multiset(leafDigests)
    ensures r.Err? ==> ValidateLeaves(leafDigests) == Err(r.error)
  {
    var validated := ValidateLeaves(leafDigests);
    if validated.Err? {
      return Err(validated.error);
    }
    var leaves := validated.value;
    var levels := LevelsFor(tenantId, leaves);
    LevelsEndInRoot(tenantId, LeafLevel(tenantId, leaves));
    assert |multiset(leaves)| == |multiset(leafDigests)|;
    r := Ok(Batch(batchId, tenantId, leaves, |leaves|, levels[|levels| - 1][0]));
  }

  function BatchFor(batchId: Text, tenantId: Text, leafDigests: seq<Text>): Result<Batch, BatchError> {
    var validated := ValidateLeaves(leafDigests);
    if validated.Err? then Err(validated.error)
    else Ok(Batch(batchId, tenantId, validated.value, |validated.value|, RootOf(tenantId, validated.value)))
  }

  function RootOf(tenantId: Text, leaves: seq<Text>): Digest
    requires leaves != []
  {
    Root(tenantId, LeafLevel(tenantId, leaves))
  }

  // ----------------------------------------------------------------- proofs

  datatype Position = Left | Right

  datatype Step = Step(siblingDigest: Digest, position: Position)

  datatype Proof = Proof(
    proofId: Text, batchId: Text, tenantId: Text, leafDigest: Text, leafIndex: int,
    steps: seq<Step>, rootDigest: Digest)

  datatype ProofReason = TenantMismatch | BatchMismatch | MalformedProof | RootMismatch

  /** `index % 2 === 1` with JavaScript's remainder, which is never 1 for a negative index. */
  predicate IsRightChild(index: int) {
    index >= 0 && index % 2 == 1
  }

  function SiblingStep(level: seq<Digest>, index: nat): Step
    requires index < |level|
  {
    if IsRightChild(index) then Step(level[index - 1], Left)
    else Step(level[if index + 1 < |level| then index + 1 else index], Right)
  }

  function Siblings(tenantId: Text, level: seq<Digest>, index: nat): seq<Step>
    requires index < |level|
    decreases |level|
  {
    if |level| == 1 then [] else [SiblingStep(level, index)] + Siblings(tenantId, Parents(tenantId, level), index / 2)
  }

  /** The same steps read off a finished list of levels. */
  ghost function SiblingsIn(levels: seq<seq<Digest>>, index: nat): seq<Step> {
    if |levels| <= 1 || index >= |levels[0]| then []
    else [SiblingStep(levels[0], index)] + SiblingsIn(levels[1..], index / 2)
  }

  lemma {:induction false} SiblingsInLinked(tenantId: Text, levels: seq<seq<Digest>>, index: nat)
    requires Linked(tenantId, levels) && |levels[|levels| - 1]| == 1 && index < |levels[0]|
    ensures SiblingsIn(levels, index) == Siblings(tenantId, levels[0], index)
    decreases |levels|
  {
    if |levels| > 1 {
      var rest := levels[1..];
      assert forall k :: 0 <= k < |rest| ==> rest[k] == levels[k + 1];
      SiblingsInLinked(tenantId, rest, index / 2);
    }
  }

  ghost predicate Halving(levels: seq<seq<Digest>>) {
    levels != [] && forall k :: 0 <= k < |levels| - 1 ==> |levels[k + 1]| == (|levels[k]| + 1) / 2
  }

  /** The loop that walks from a leaf to the root, one level at a time. */
  method StepsFrom(levels: seq<seq<Digest>>, leafIndex: nat) returns (steps: seq<Step>)
    requires Halving(levels) && leafIndex < |levels[0]|
    ensures steps == SiblingsIn(levels, leafIndex)
  {
    steps := [];
    var index := leafIndex;
    var levelIndex := 0;
    while levelIndex < |levels| - 1
      invariant 0 <= levelIndex < |levels| && 0 <= index < |levels[levelIndex]|
      invariant steps + SiblingsIn(levels[levelIndex..], index) == SiblingsIn(levels, leafIndex)
    {
      var level := levels[levelIndex];
      var right := index % 2 == 1;
      var siblingIndex := if right then index - 1 else index + 1;
      var step := Step(if siblingIndex < |level| then level[siblingIndex] else level[index], if right then Left else Right);
      assert step == SiblingStep(level, index);
      assert levels[levelIndex..][1..] == levels[levelIndex + 1..];
      steps := steps + [step];
      index := index / 2;
      levelIndex := levelIndex + 1;
    }
  }

  method CreateMerkleProof(batch: Batch, leafDigest: Text, proofId: Text) returns (r: Option<Proof>)
    requires batch.leafDigests != []
    ensures r.None? <==> leafDigest !in batch.leafDigests
    ensures r.Some? ==>
      && 0 <= r.value.leafIndex < |batch.leafDigests|
      && batch.leafDigests[r.value.leafIndex] == leafDigest
      && leafDigest !in batch.leafDigests[..r.value.leafIndex]
      && r.value == ProofFor(batch, r.value.leafIndex, proofId)
      && r.value.proofId == proofId && r.value.batchId == batch.batchId && r.value.tenantId == batch.tenantId
      && r.value.leafDigest == leafDigest && r.value.rootDigest == batch.rootDigest
  {
    var leafIndex := 0;
    while leafIndex < |batch.leafDigests| && batch.leafDigests[leafIndex] != leafDigest
      invariant leafIndex <= |batch.leafDigests|
      invariant leafDigest !in batch.leafDigests[..leafIndex]
    {
      leafIndex := leafIndex + 1;
    }
    if leafIndex == |batch.leafDigests| {
      return None;
    }
    var levels := LevelsFor(batch.tenantId, batch.leafDigests);
    var steps := StepsFrom(levels, leafIndex);
    SiblingsInLinked(batch.tenantId, levels, leafIndex);
    r := Some(Proof(proofId, batch.batchId, batch.tenantId, leafDigest, leafIndex, steps, batch.rootDigest));
    assert r.value == ProofFor(batch, leafIndex, proofId);
  }

  function ProofFor(batch: Batch, index: nat, proofId: Text): Proof
    requires index < |batch.leafDigests|
  {
    Proof(proofId, batch.batchId, batch.tenantId, batch.leafDigests[index], index,
          Siblings(batch.tenantId, LeafLevel(batch.tenantId, batch.leafDigests), index), batch.rootDigest)
  }

  function Combine(tenantId: Text, current: Digest, step: Step): Digest {
    if step.position.Left? then NodeHash(tenantId, step.siblingDigest, current)
    else NodeHash(tenantId, current, step.siblingDigest)
  }

  /** The digest and index reached by following all steps, or None at the first malformed step. */
  function Climb(tenantId: Text, current: Digest, index: int, steps: seq<Step>): Option<(Digest, int)>
    decreases |steps|
  {
    if steps == [] then Some((current, index))
    else if !IsHexDigest(steps[0].siblingDigest) || steps[0].position.Left? != IsRightChild(index) then None
    else Climb(tenantId, Combine(tenantId, current, steps[0]), index / 2, steps[1..])
  }

  /** Where the proof's own leaf, index and steps lead. */
  function Ascent(proof: Proof): Option<(Digest, int)> {
    Climb(proof.tenantId, LeafHash(proof.tenantId, proof.leafDigest), proof.leafIndex, proof.steps)
  }

  predicate NamesBatch(proof: Proof, batch: Batch) {
    && proof.batchId == batch.batchId
    && proof.rootDigest == batch.rootDigest
    && 0 <= proof.leafIndex < |batch.leafDigests|
    && proof.leafDigest == batch.leafDigests[proof.leafIndex]
  }

  /** What a proof must satisfy to be accepted, without reference to the order of the checks. */
  predicate Accepts(proof: Proof, tenantId: Text, batch: Option<Batch>) {
    && proof.tenantId == tenantId
    && (batch.Some? ==> NamesBatch(proof, batch.value))
    && IsHexText(proof.leafDigest) && IsHexDigest(proof.rootDigest)
    && 0 <= proof.leafIndex <= MAX_SAFE_INTEGER
    && Ascent(proof) == Some((proof.rootDigest, 0))
  }

  /** Membership in `reasons` models the `Set` that removes duplicate reason codes. */
  method VerifyMerkleProof(proof: Proof, tenantId: Text, batch: Option<Batch>) returns (valid: bool,
          reasons: set<ProofReason>)
    ensures valid <==> Accepts(proof, tenantId, batch)
    ensures valid <==> reasons == {}
    ensures TenantMismatch in reasons <==> proof.tenantId != tenantId
    ensures BatchMismatch in reasons <==> batch.Some? && !NamesBatch(proof, batch.value)
    ensures MalformedProof in reasons <==>
      || !IsHexText(proof.leafDigest) || !IsHexDigest(proof.rootDigest)
      || !(0 <= proof.leafIndex <= MAX_SAFE_INTEGER)
      || Ascent(proof).None?
    ensures IsHexText(proof.leafDigest) && Ascent(proof).Some? ==>
      (RootMismatch in reasons <==> Ascent(proof).value != (proof.rootDigest, 0))
  {
    reasons := {};
    if proof.tenantId != tenantId {
      reasons := reasons + {TenantMismatch};
    }
    if batch.Some? && !NamesBatch(proof, batch.value) {
      reasons := reasons + {BatchMismatch};
    }
    if !IsHexText(proof.leafDigest) || !IsHexDigest(proof.rootDigest) || !(0 <= proof.leafIndex <= MAX_SAFE_INTEGER) {
      reasons := reasons + {MalformedProof};
    }
    var current := if IsHexText(proof.leafDigest) then LeafHash(proof.tenantId, proof.leafDigest) else Foreign([]);
    var index := proof.leafIndex;
    ghost var early := reasons;
    ghost var wanted := Climb(proof.tenantId, current, index, proof.steps);
    var i := 0;
    while i < |proof.steps|
      invariant 0 <= i <= |proof.steps|
      invariant reasons == early
      invariant wanted == Climb(proof.tenantId, current, index, proof.steps[i..])
    {
      var step := proof.steps[i];
      var expected := if IsRightChild(index) then Left else Right;
      if !IsHexDigest(step.siblingDigest) || step.position != expected {
        reasons := reasons + {MalformedProof};
        assert wanted.None?;
        break;
      }
      current := if step.position.Left? then NodeHash(proof.tenantId, step.siblingDigest, current)
                 else NodeHash(proof.tenantId, current, step.siblingDigest);
      index := index / 2;
      assert proof.steps[i..][1..] == proof.steps[i + 1..];
      i := i + 1;
    }
    if index != 0 || current != proof.rootDigest {
      reasons := reasons + {RootMismatch};
    }
    valid := reasons == {};
    if valid {
      assert TenantMismatch !in reasons && BatchMismatch !in reasons && MalformedProof !in reasons && RootMismatch !in reasons;
    }
  }

  // ------------------------------------------------ distinct leaves

  ghost predicate Distinct<T>(xs: seq<T>) {
    forall i, j :: 0 <= i < j < |xs| ==> xs[i] != xs[j]
  }

  lemma DistinctIsAdjacent(xs: seq<Text>)
    requires Sorted(xs)
    ensures Distinct(xs) <==> forall i | 0 < i < |xs| :: xs[i] != xs[i - 1]
  {
    if forall i | 0 < i < |xs| :: xs[i] != xs[i - 1] {
      forall i, j | 0 <= i < j < |xs| ensures xs[i] != xs[j] {
        if xs[i] == xs[j] {
          assert AtMost(xs[i], xs[j - 1]) && AtMost(xs[j - 1], xs[j]);
          AtMostAntisymmetric(xs[j - 1], xs[j]);
        }
      }
    }
  }

  lemma {:induction false} DistinctCounts(xs: seq<Text>)
    ensures Distinct(xs) <==> forall x :: multiset(xs)[x] <= 1
  {
    if xs != [] {
      var rest := xs[1..];
      assert xs == [xs[0]] + rest;
      assert multiset(xs) == multiset{xs[0]} + multiset(rest);
      DistinctCounts(rest);
      DistinctStep(xs);
      assert (forall x :: multiset(xs)[x] <= 1) <==> multiset(rest)[xs[0]] == 0 && forall x :: multiset(rest)[x] <= 1 by {
        assert forall x :: multiset(xs)[x] == multiset(rest)[x] + (if x == xs[0] then 1 else 0);
      }
    }
  }

  lemma DistinctStep(xs: seq<Text>)
    requires xs != []
    ensures Distinct(xs) <==> xs[0] !in xs[1..] && Distinct(xs[1..])
  {
    var rest := xs[1..];
    assert forall i :: 0 <= i < |rest| ==> rest[i] == xs[i + 1];
    assert forall i :: 0 < i < |xs| ==> xs[i] == rest[i - 1];
  }

  lemma DistinctByCount(xs: seq<Text>, ys: seq<Text>)
    requires multiset(xs) == multiset(ys)
    ensures Distinct(xs) <==> Distinct(ys)
  {
    DistinctCounts(xs);
    DistinctCounts(ys);
  }

  lemma {:induction false} LevelsEndInRoot(tenantId: Text, level: seq<Digest>)
    requires level != []
    ensures var levels := Levels(tenantId, level); levels[|levels| - 1] == [Root(tenantId, level)]
    decreases |level|
  {
    if |level| > 1 {
      LevelsEndInRoot(tenantId, Parents(tenantId, level));
    }
  }

  // ------------------------------------------------ root binding

  /** A complete tree of hashes of the given height over leaf hashes. */
  ghost predicate Complete(d: Digest, height: nat) {
    if height == 0 then d.LeafHash?
    else d.NodeHash? && Complete(d.left, height - 1) && Complete(d.right, height - 1)
  }

  ghost predicate CompleteLevel(level: seq<Digest>, height: nat) {
    forall i :: 0 <= i < |level| ==> Complete(level[i], height)
  }

  lemma {:induction false} RootIsComplete(tenantId: Text, level: seq<Digest>, height: nat)
    requires level != [] && CompleteLevel(level, height)
    ensures Complete(Root(tenantId, level), height + Height(|level|))
    decreases |level|
  {
    if |level| > 1 {
      RootIsComplete(tenantId, Parents(tenantId, level), height + 1);
    }
  }

  lemma {:induction false} CompleteHeightUnique(d: Digest, h: nat, k: nat)
    requires Complete(d, h) && Complete(d, k)
    ensures h == k
  {
    if h > 0 && k > 0 {
      CompleteHeightUnique(d.left, h - 1, k - 1);
    }
  }

  lemma ParentsStayDistinct(tenantId: Text, level: seq<Digest>)
    requires Distinct(level)
    ensures Distinct(Parents(tenantId, level))
  {
    var up := Parents(tenantId, level);
    forall p, q | 0 <= p < q < |up| ensures up[p] != up[q] {
      assert up[p].left == level[2 * p] && up[q].left == level[2 * q];
    }
  }

  lemma LastParentTellsLength(t: Text, xs: seq<Digest>)
    requires Distinct(xs) && xs != []
    ensures var up := Parents(t, xs);
      |xs| == if up[|up| - 1].left == up[|up| - 1].right then 2 * |up| - 1 else 2 * |up|
  {
    var up := Parents(t, xs);
    var p := |up| - 1;
    assert up[p].left == xs[2 * p];
    if 2 * p + 1 < |xs| {
      assert up[p].right == xs[2 * p + 1];
    }
  }

  /** Where every node of a level is different, the level above determines it. The duplicated
      last node is recognisable: its two children are equal, which no proper pair's are. */
  lemma ParentsInjective(t: Text, u: Text, xs: seq<Digest>, ys: seq<Digest>)
    requires Distinct(xs) && Distinct(ys)
    requires Parents(t, xs) == Parents(u, ys)
    ensures xs == ys
    ensures xs != [] ==> t == u
  {
    var up, vp := Parents(t, xs), Parents(u, ys);
    if xs == [] {
      return;
    }
    assert up[0] == vp[0];
    LastParentTellsLength(t, xs);
    LastParentTellsLength(u, ys);
    forall i | 0 <= i < |xs| ensures xs[i] == ys[i] {
      assert up[i / 2] == vp[i / 2];
      assert i == 2 * (i / 2) || i == 2 * (i / 2) + 1;
    }
  }

  lemma {:induction false} RootInjective(t: Text, u: Text, xs: seq<Digest>, ys: seq<Digest>, height: nat)
    requires xs != [] && ys != [] && Distinct(xs) && Distinct(ys)
    requires CompleteLevel(xs, height) && CompleteLevel(ys, height)
    requires Root(t, xs) == Root(u, ys)
    ensures xs == ys
    decreases |xs|
  {
    RootIsComplete(t, xs, height);
    RootIsComplete(u, ys, height);
    CompleteHeightUnique(Root(t, xs), height + Height(|xs|), height + Height(|ys|));
    if |xs| > 1 {
      assert |ys| > 1;
      ParentsStayDistinct(t, xs);
      ParentsStayDistinct(u, ys);
      RootInjective(t, u, Parents(t, xs), Parents(u, ys), height + 1);
      ParentsInjective(t, u, xs, ys);
    }
  }

  lemma LeafLevelDistinct(tenantId: Text, leaves: seq<Text>)
    requires Distinct(leaves)
    ensures Distinct(LeafLevel(tenantId, leaves)) && CompleteLevel(LeafLevel(tenantId, leaves), 0)
  {
  }

  /** Root binding: two accepted batches have the same root exactly when they were made for the
      same tenant from the same collection of leaves, in whatever order the leaves were given. */
  lemma RootBinding(batchId1: Text, batchId2: Text, tenant1: Text, tenant2: Text, leaves1: seq<Text>, leaves2: seq<Text>)
    requires BatchFor(batchId1, tenant1, leaves1).Ok? && BatchFor(batchId2, tenant2, leaves2).Ok?
    ensures BatchFor(batchId1, tenant1, leaves1).value.rootDigest == BatchFor(batchId2, tenant2, leaves2).value.rootDigest
       <==> tenant1 == tenant2 && multiset(leaves1) == multiset(leaves2)
  {
    var a, b := ValidateLeaves(leaves1).value, ValidateLeaves(leaves2).value;
    if multiset(leaves1) == multiset(leaves2) {
      SortedUnique(a, b);
    }
    if RootOf(tenant1, a) == RootOf(tenant2, b) {
      var x, y := LeafLevel(tenant1, a), LeafLevel(tenant2, b);
      LeafLevelDistinct(tenant1, a);
      LeafLevelDistinct(tenant2, b);
      RootInjective(tenant1, tenant2, x, y, 0);
      assert x[0] == y[0];
      assert a == b by {
        forall i | 0 <= i < |a| ensures a[i] == b[i] {
          assert x[i] == y[i];
        }
      }
    }
  }

  /** Why duplicates are refused: without that check `[a, b, c]` and `[a, b, c, c]` share a root. */
  lemma DuplicatesWouldCollide(t: Text, a: Text, b: Text, c: Text)
    ensures RootOf(t, [a, b, c]) == RootOf(t, [a, b, c, c])
  {
    var x, y := LeafLevel(t, [a, b, c]), LeafLevel(t, [a, b, c, c]);
    assert Parents(t, x) == Parents(t, y);
  }

  // ------------------------------------------------ proofs against a root

  /** The leaf position an index stands for once every level is padded with its last node. */
  function Pad(n: nat, index: nat): (r: nat)
    requires n > 0
    ensures r < n
  {
    if n == 1 then 0
    else
      var p := Pad((n + 1) / 2, index / 2);
      if 2 * p + index % 2 < n then 2 * p + index % 2 else 2 * p
  }

  /** The only steps that lead from an index of the padded tree to its root. */
  function PaddedSteps(tenantId: Text, level: seq<Digest>, index: nat): seq<Step>
    requires level != []
    decreases |level|
  {
    if |level| == 1 then []
    else
      var up := Parents(tenantId, level);
      var p := Pad(|up|, index / 2);
      [if index % 2 == 1 then Step(up[p].left, Left) else Step(up[p].right, Right)]
      + PaddedSteps(tenantId, up, index / 2)
  }

  lemma {:induction false} AcceptedStepsHaveTreeHeight(t: Text, current: Digest, index: int, steps: seq<Step>,
          height: nat)
    requires Climb(t, current, index, steps).Some?
    requires Complete(Climb(t, current, index, steps).value.0, height)
    ensures |steps| <= height && Complete(current, height - |steps|)
    decreases |steps|
  {
    if steps != [] {
      AcceptedStepsHaveTreeHeight(t, Combine(t, current, steps[0]), index / 2, steps[1..], height);
    }
  }

  ghost predicate AllHex(level: seq<Digest>) {
    forall i :: 0 <= i < |level| ==> IsHexDigest(level[i])
  }

  /** From a fixed level there is one climb per padded index and no other. */
  lemma {:induction false} ClimbExact(t: Text, level: seq<Digest>, current: Digest, index: nat, steps: seq<Step>)
    requires level != [] && AllHex(level) && |steps| == Height(|level|)
    ensures Climb(t, current, index, steps) == Some((Root(t, level), 0))
       <==> index < Pow2(Height(|level|)) && current == level[Pad(|level|, index)] && steps == PaddedSteps(t, level, index)
    decreases |level|
  {
    if |level| > 1 {
      var up := Parents(t, level);
      var p := Pad(|up|, index / 2);
      ClimbExact(t, up, Combine(t, current, steps[0]), index / 2, steps[1..]);
      HalveIndex(|level|, index);
      PadStep(t, level, index);
      FirstStep(t, level, index);
      ClimbOneMore(t, up[p], Root(t, up), PaddedSteps(t, up, index / 2), index / 2 < Pow2(Height(|up|)), current, index, steps);
    }
  }

  /** One step of `ClimbExact`, about the parent digest alone. */
  lemma ClimbOneMore(t: Text, parent: Digest, root: Digest, above: seq<Step>, inRange: bool, current: Digest,
          index: nat, steps: seq<Step>)
    requires steps != [] && parent.NodeHash? && parent.tenantId == t && IsHexDigest(parent.left) && IsHexDigest(parent.right)
    requires var next := Combine(t, current, steps[0]);
      Climb(t, next, index / 2, steps[1..]) == Some((root, 0)) <==> inRange && next == parent && steps[1..] == above
    ensures Climb(t, current, index, steps) == Some((root, 0))
       <==> inRange && current == (if index % 2 == 1 then parent.right else parent.left)
            && steps == [if index % 2 == 1 then Step(parent.left, Left) else Step(parent.right, Right)] + above
  {
    var expected := if index % 2 == 1 then Step(parent.left, Left) else Step(parent.right, Right);
    ConsEquals(steps, expected, above);
    if steps[0].position == expected.position && IsHexDigest(steps[0].siblingDigest) {
      assert Climb(t, current, index, steps) == Climb(t, Combine(t, current, steps[0]), index / 2, steps[1..]);
    } else {
      assert Climb(t, current, index, steps).None?;
    }
  }

  lemma ConsEquals<T>(xs: seq<T>, head: T, tail: seq<T>)
    requires xs != []
    ensures xs == [head] + tail <==> xs[0] == head && xs[1..] == tail
  {
    assert xs == [xs[0]] + xs[1..];
    assert ([head] + tail)[1..] == tail;
  }

  lemma HalveIndex(n: nat, index: nat)
    requires n > 1
    ensures Height(n) == 1 + Height((n + 1) / 2)
    ensures index < Pow2(Height(n)) <==> index / 2 < Pow2(Height((n + 1) / 2))
  {
  }

  lemma PadUnfold(n: nat, index: nat, p: nat)
    requires n > 1 && p == Pad((n + 1) / 2, index / 2)
    ensures Pad(n, index) == if index % 2 == 1 && 2 * p + 1 < n then 2 * p + 1 else 2 * p
  {
  }

  lemma ChildrenOf(t: Text, level: seq<Digest>, p: nat)
    requires 2 * p < |level|
    ensures var parent := Parents(t, level)[p];
      parent == NodeHash(t, level[2 * p], level[if 2 * p + 1 < |level| then 2 * p + 1 else 2 * p])
  {
  }

  lemma PadStep(t: Text, level: seq<Digest>, index: nat)
    requires |level| > 1
    ensures var parent := Parents(t, level)[Pad((|level| + 1) / 2, index / 2)];
      level[Pad(|level|, index)] == if index % 2 == 1 then parent.right else parent.left
  {
    var p := Pad((|level| + 1) / 2, index / 2);
    PadUnfold(|level|, index, p);
    ChildrenOf(t, level, p);
  }

  lemma FirstStep(t: Text, level: seq<Digest>, index: nat)
    requires |level| > 1
    ensures var up := Parents(t, level);
      var p := Pad(|up|, index / 2);
      PaddedSteps(t, level, index) ==
        [if index % 2 == 1 then Step(up[p].left, Left) else Step(up[p].right, Right)] + PaddedSteps(t, up, index / 2)
  {
  }

  lemma {:induction false} PadIsIdentityInRange(n: nat, index: nat)
    requires index < n
    ensures Pad(n, index) == index
  {
    if n > 1 {
      PadIsIdentityInRange((n + 1) / 2, index / 2);
    }
  }

  lemma {:induction false} PaddedStepsInRange(t: Text, level: seq<Digest>, index: nat)
    requires index < |level|
    ensures PaddedSteps(t, level, index) == Siblings(t, level, index)
    decreases |level|
  {
    if |level| > 1 {
      var up := Parents(t, level);
      PaddedStepsInRange(t, up, index / 2);
      PadIsIdentityInRange(|up|, index / 2);
      PaddedStepInRange(t, level, index);
    }
  }

  lemma PaddedStepInRange(t: Text, level: seq<Digest>, index: nat)
    requires index < |level|
    ensures var parent := Parents(t, level)[index / 2];
      SiblingStep(level, index) == if index % 2 == 1 then Step(parent.left, Left) else Step(parent.right, Right)
  {
    var p := index / 2;
    assert index == 2 * p || index == 2 * p + 1;
    assert Parents(t, level)[p].left == level[2 * p];
  }

  lemma {:induction false} PaddedStepsLength(t: Text, level: seq<Digest>, index: nat)
    requires level != []
    ensures |PaddedSteps(t, level, index)| == Height(|level|)
    decreases |level|
  {
    if |level| > 1 {
      PaddedStepsLength(t, Parents(t, level), index / 2);
    }
  }

  /** The height is the ceiling of the base-2 logarithm of the leaf count. */
  lemma {:induction false} HeightIsCeilLog2(n: nat)
    requires n > 0
    ensures n <= Pow2(Height(n))
    ensures n > 1 ==> Pow2(Height(n) - 1) < n
  {
    if n > 1 {
      HeightIsCeilLog2((n + 1) / 2);
    }
  }

  /** Proof soundness without the batch, exactly: a proof naming a batch's tenant and root is
      accepted precisely when its index lies in the padded tree, its leaf is the batch leaf that
      index stands for, and its steps are the unique ones of that index. */
  lemma ProofSoundWithoutBatch(proof: Proof, tenantId: Text, leaves: seq<Text>)
    requires leaves != [] && proof.tenantId == tenantId && proof.rootDigest == RootOf(tenantId, leaves)
    ensures Accepts(proof, tenantId, None) <==>
      && IsHexText(proof.leafDigest)
      && 0 <= proof.leafIndex <= MAX_SAFE_INTEGER
      && proof.leafIndex < Pow2(Height(|leaves|))
      && proof.leafDigest == leaves[Pad(|leaves|, proof.leafIndex)]
      && proof.steps == PaddedSteps(tenantId, LeafLevel(tenantId, leaves), proof.leafIndex)
    ensures Accepts(proof, tenantId, None) ==> |proof.steps| == Height(|leaves|) && proof.leafDigest in leaves
    ensures Accepts(proof, tenantId, None) && proof.leafIndex < |leaves| ==>
      proof.leafDigest == leaves[proof.leafIndex]
  {
    var level := LeafLevel(tenantId, leaves);
    var current := LeafHash(tenantId, proof.leafDigest);
    assert CompleteLevel(level, 0);
    RootIsComplete(tenantId, level, 0);
    assert IsHexDigest(proof.rootDigest) by {
      assert Complete(proof.rootDigest, Height(|leaves|));
    }
    if Accepts(proof, tenantId, None) {
      AcceptedStepsHaveTreeHeight(tenantId, current, proof.leafIndex, proof.steps, Height(|leaves|));
    }
    if 0 <= proof.leafIndex {
      PaddedStepsLength(tenantId, level, proof.leafIndex);
      if |proof.steps| == Height(|leaves|) {
        ClimbExact(tenantId, level, current, proof.leafIndex, proof.steps);
      }
      if proof.leafIndex < |leaves| {
        PadIsIdentityInRange(|leaves|, proof.leafIndex);
      }
    }
  }

  /** With the batch at hand the only accepted proofs are the ones `createMerkleProof` builds
      (the proof identifier is free). This gives completeness and soundness at once. */
  lemma ProofExactWithBatch(proof: Proof, batchId: Text, tenantId: Text, leaves: seq<Text>)
    requires BatchFor(batchId, tenantId, leaves).Ok? && |leaves| <= MAX_ARRAY_LENGTH
    ensures var batch := BatchFor(batchId, tenantId, leaves).value;
      Accepts(proof, tenantId, Some(batch)) <==>
        0 <= proof.leafIndex < |batch.leafDigests| && proof == ProofFor(batch, proof.leafIndex, proof.proofId)
  {
    var batch := BatchFor(batchId, tenantId, leaves).value;
    var sorted := batch.leafDigests;
    assert |multiset(sorted)| == |multiset(leaves)|;
    assert forall l | l in sorted :: IsHexText(l) by {
      assert forall l :: l in sorted <==> l in multiset(sorted);
      assert forall l :: l in leaves <==> l in multiset(leaves);
    }
    if proof.tenantId == tenantId && proof.rootDigest == batch.rootDigest {
      ProofSoundWithoutBatch(proof, tenantId, sorted);
      if 0 <= proof.leafIndex < |sorted| {
        PaddedStepsInRange(tenantId, LeafLevel(tenantId, sorted), proof.leafIndex);
        PadIsIdentityInRange(|sorted|, proof.leafIndex);
        HeightIsCeilLog2(|sorted|);
      }
    }
  }

  /** Completeness: the proof built for each leaf verifies with and without the batch and has
      as many steps as the ceiling of the base-2 logarithm of the leaf count. */
  lemma ProofComplete(batchId: Text, tenantId: Text, leaves: seq<Text>, index: nat, proofId: Text)
    requires BatchFor(batchId, tenantId, leaves).Ok? && |leaves| <= MAX_ARRAY_LENGTH
    requires index < |BatchFor(batchId, tenantId, leaves).value.leafDigests|
    ensures var batch := BatchFor(batchId, tenantId, leaves).value;
      var proof := ProofFor(batch, index, proofId);
      && Accepts(proof, tenantId, Some(batch))
      && Accepts(proof, tenantId, None)
      && |leaves| <= Pow2(|proof.steps|)
      && (|leaves| > 1 ==> |proof.steps| > 0 && Pow2(|proof.steps| - 1) < |leaves|)
  {
    var batch := BatchFor(batchId, tenantId, leaves).value;
    var proof := ProofFor(batch, index, proofId);
    ProofExactWithBatch(proof, batchId, tenantId, leaves);
    assert |multiset(batch.leafDigests)| == |multiset(leaves)|;
    PaddedStepsInRange(tenantId, LeafLevel(tenantId, batch.leafDigests), index);
    PaddedStepsLength(tenantId, LeafLevel(tenantId, batch.leafDigests), index);
    HeightIsCeilLog2(|leaves|);
  }

  lemma ThreeLeafTree()
    ensures Pad(3, 3) == 2 && Height(3) == 2 && Pow2(2) == 4
  {
    assert Pad(2, 1) == 1 && Height(2) == 1 && Pow2(1) == 2;
  }

  ghost predicate AcceptedAt(proof: Proof, index: int, leaf: Text, tenantId: Text, leaves: seq<Text>)
    requires leaves != []
  {
    && proof.leafIndex == index && proof.leafDigest == leaf
    && proof.rootDigest == RootOf(tenantId, leaves) && Accepts(proof, tenantId, None)
  }

  /** Without the batch the index itself is not bound to the leaf count: for three leaves the
      padded index 3 is accepted for the last leaf. `ProofSoundWithoutBatch` says exactly which. */
  lemma PaddedIndexAccepted(t: Text, leaves: seq<Text>)
    requires |leaves| == 3 && IsHexText(leaves[2])
    ensures exists proof :: AcceptedAt(proof, 3, leaves[2], t, leaves)
  {
    ThreeLeafTree();
    var proof := Proof([], [], t, leaves[2], 3, PaddedSteps(t, LeafLevel(t, leaves), 3), RootOf(t, leaves));
    ProofSoundWithoutBatch(proof, t, leaves);
    assert AcceptedAt(proof, 3, leaves[2], t, leaves);
  }
}
