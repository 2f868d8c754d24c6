/** The prover and the verifier joined: after any run of pushes and commits, the proof of any
    leaves of the range recomputes its root. */
module EndToEnd {
  import opened Wrappers
  import opened Bits
  import opened Positions
  import opened Mountain
  import opened Sorting
  import opened MerkleProof
  import opened Verifier
  import opened Overlay
  import opened RangeReads
  import opened Mmr

  /** The claims an honest reader makes for these positions. */
  function ReadClaims(v: seq<Hash>, posList: seq<nat>): (cs: seq<Claim>)
    ensures |cs| == |posList|
    ensures forall j :: 0 <= j < |cs| ==> cs[j] == Claim(posList[j], LeafOr(v, posList[j]))
  {
    seq(|posList|, j requires 0 <= j < |posList| => Claim(posList[j], LeafOr(v, posList[j])))
  }

  /** The leaf at a leaf position of the range. */
  function LeafOr(v: seq<Hash>, pos: nat): Hash {
    if LeafCount(pos) < |v| then v[LeafCount(pos)] else Leaf([])
  }

  lemma ReadClaimsHold(v: seq<Hash>, posList: seq<nat>)
    requires ValidPositions(posList, |v|)
    ensures ClaimPositions(ReadClaims(v, posList)) == posList
    ensures ClaimsHold(v, ReadClaims(v, posList))
  {
    hide LeafCount, Height, Canonical;
    var cs := ReadClaims(v, posList);
    forall c | c in Canonical(cs, ClaimPos) ensures LeafCount(c.pos) < |v| && c.x == v[LeafCount(c.pos)] {
      CanonicalMember(cs, ClaimPos, c);
      var j :| 0 <= j < |cs| && cs[j] == c;
      assert posList[j] in posList;
    }
  }

  /** Completeness on values: what `gen_proof` emits for any non-empty list of leaf
      positions, in any order and with repetitions, recomputes the root. */
  lemma ProofCompletes(v: seq<Hash>, posList: seq<nat>)
    requires |v| > 0 && ValidPositions(posList, |v|)
    ensures GenProof(v, posList).Ok?
    ensures CalculateRoot(ReadClaims(v, posList), MmrSize(|v|), GenProof(v, posList).value) == Ok(Root(v))
  {
    hide *;
    GenProofValid(v, posList);
    ReadClaimsHold(v, posList);
    AcceptsExactly(v, ReadClaims(v, posList), GenProof(v, posList).value);
  }

  /** Completeness over whole runs, with the range's own storage and loops. */
  method ProveAfterRun(range: MountainRange, ops: seq<Op>, posList: seq<nat>) returns (accepted: bool)
    requires range.Holds([]) && 0 < MmrSize(|PushedBy(ops)|) <= U64_MAX
    requires forall op :: op in ops ==> op.PushOp? || op.Succeeds()
    requires ValidPositions(posList, |PushedBy(ops)|)
    modifies range, range.batch
    ensures accepted
  {
    ghost var v := PushedBy(ops);
    hide *;
    var ok, done := range.RunAll(ops);
    SizeOfSome(|v|);
    PositionsBelow(posList, |v|);
    range.HoldsMeans(v);
    var items, trace := range.GenProof(posList, v);
    ProofCompletes(v, posList);
    InOrder(range);
    var claims := CollectClaims(range.batch, posList, v);
    ClaimsBelow(v, posList);
    var root := range.GetRoot(v);
    var again := RecomputeRoot(claims, range.mmrSize, items.value);
    accepted := again == root;
  }

  lemma InOrder(range: MountainRange)
    requires range.WellFormed()
    ensures Monotone(range.batch.memoryBatch)
  {
  }

  /** The stored leaves at these positions. */
  method CollectClaims(batch: MmrBatch, posList: seq<nat>, ghost v: seq<Hash>) returns (claims: seq<Claim>)
    requires Monotone(batch.memoryBatch) && HoldsIn(batch.View(), v) && ValidPositions(posList, |v|)
    ensures claims == ReadClaims(v, posList)
  {
    hide *;
    ghost var goal := ReadClaims(v, posList);
    claims := [];
    var i := 0;
    while i < |posList|
      invariant 0 <= i <= |posList| == |goal| && claims == goal[..i]
      invariant Monotone(batch.memoryBatch) && HoldsIn(batch.View(), v)
    {
      var claim := ReadClaim(batch, posList, i, v);
      claims := claims + [claim];
      i := i + 1;
    }
  }

  method ReadClaim(batch: MmrBatch, posList: seq<nat>, i: nat, ghost v: seq<Hash>) returns (claim: Claim)
    requires Monotone(batch.memoryBatch) && HoldsIn(batch.View(), v) && ValidPositions(posList, |v|) && i < |posList|
    ensures claim == ReadClaims(v, posList)[i]
  {
    ghost var goal, view := ReadClaims(v, posList), batch.View();
    LeafStored(view, v, posList, goal, i);
    var read := batch.ElementAtPosition(posList[i]);
    hide HoldsIn, WriteAll;
    claim := Claim(posList[i], read.x);
  }

  lemma LeafStored(view: Store, v: seq<Hash>, posList: seq<nat>, goal: seq<Claim>, i: nat)
    requires HoldsIn(view, v) && ValidPositions(posList, |v|) && goal == ReadClaims(v, posList) && i < |posList|
    ensures i < |goal| && goal[i] == Claim(posList[i], goal[i].x)
    ensures view.Get(posList[i]) == Present(goal[i].x)
  {
    hide HoldsIn, Height, LeafCount, Pos, Subtree;
    assert posList[i] in posList;
    LeafPositions(posList[i]);
    assert Shl(LeafCount(posList[i]) + 1, 0) == LeafCount(posList[i]) + 1;
    NodeReadable(view, v, LeafCount(posList[i]), 0);
    assert Subtree(v, LeafCount(posList[i]), 0) == v[LeafCount(posList[i])] by {
      LeafSubtree(v, LeafCount(posList[i]));
    }
  }

  lemma LeafSubtree(v: seq<Hash>, i: nat)
    requires i < |v|
    ensures Subtree(v, i, 0) == v[i]
  {
  }

  lemma PositionsBelow(posList: seq<nat>, n: nat)
    requires ValidPositions(posList, n) && MmrSize(n) <= U64_MAX
    ensures forall p :: p in posList ==> p <= U64_MAX
  {
    hide LeafCount, Height, MmrSize;
    forall p | p in posList ensures p <= U64_MAX {
      PositionBelow(p, n);
    }
  }

  lemma {:induction false} PositionBelow(p: nat, n: nat)
    requires LeafCount(p) < n
    ensures p < MmrSize(n)
  {
    hide MmrSize;
    if LeafCount(p) + 1 < n {
      SizeMonotone(LeafCount(p) + 1, n);
    }
  }

  lemma ClaimsBelow(v: seq<Hash>, posList: seq<nat>)
    requires ValidPositions(posList, |v|) && forall p :: p in posList ==> p <= U64_MAX
    ensures forall c :: c in ReadClaims(v, posList) ==> c.pos <= U64_MAX
  {
    hide LeafCount, Height;
    forall c | c in ReadClaims(v, posList) ensures c.pos <= U64_MAX {
      var j :| 0 <= j < |posList| && ReadClaims(v, posList)[j] == c;
      assert posList[j] in posList;
    }
  }
}
