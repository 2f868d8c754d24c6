/** Which calls of the mountain range's proofs are refused, and with which error: what the
    prover, the verifier and the two extensions answer to every input. */
module Refusals {
  import opened Wrappers
  import opened Bits
  import opened Positions
  import opened Mountain
  import opened Walk
  import opened PeakWalk
  import opened Sorting
  import opened MerkleProof
  import opened Incremental
  import opened NewLeaf
  import opened Containment
  import opened TreeProof

  // ---- the prover ------------------------------------------------------------------------

  /** A position lies beyond the range of `n` leaves exactly when its leaf does. */
  lemma {:induction false} BeyondSize(p: nat, n: nat)
    ensures LeafCount(p) >= n <==> p >= MmrSize(n)
  {
    hide LeafCount, MmrSize;
    if LeafCount(p) > n {
      SizeMonotone(n, LeafCount(p));
    }
    if LeafCount(p) + 1 < n {
      SizeMonotone(LeafCount(p) + 1, n);
    }
  }

  /** `gen_proof` on every list of positions: positions that are no leaf positions are not
      supported, an empty list and positions beyond the size are invalid leaves, and every
      other list has a proof. */
  lemma {:induction false} GenProofAnswers(v: seq<Hash>, posList: seq<nat>)
    ensures GenProof(v, posList) == Err(NodeProofsNotSupported) <==>
              exists p :: p in posList && !exists i :: LeafIndexToPos(i) == p
    ensures GenProof(v, posList) == Err(GenProofForInvalidLeaves) <==>
              && (forall p :: p in posList ==> exists i :: LeafIndexToPos(i) == p)
              && (posList == [] || exists p :: p in posList && p >= MmrSize(|v|))
    ensures GenProof(v, posList).Err? ==>
              GenProof(v, posList).error in {NodeProofsNotSupported, GenProofForInvalidLeaves}
  {
    hide *;
    GenProofCases(v, posList);
    forall p | p in posList
      ensures Height(p) == 0 <==> exists i :: LeafIndexToPos(i) == p
      ensures LeafCount(p) >= |v| <==> p >= MmrSize(|v|)
    {
      LeafPositions(p);
      BeyondSize(p, |v|);
    }
  }

  lemma {:induction false} GenProofCases(v: seq<Hash>, posList: seq<nat>)
    ensures GenProof(v, posList) == Err(NodeProofsNotSupported) <==> exists p :: p in posList && Height(p) != 0
    ensures GenProof(v, posList) == Err(GenProofForInvalidLeaves) <==>
              && (forall p :: p in posList ==> Height(p) == 0)
              && (posList == [] || exists p :: p in posList && LeafCount(p) >= |v|)
    ensures GenProof(v, posList).Err? ==>
              GenProof(v, posList).error in {NodeProofsNotSupported, GenProofForInvalidLeaves}
  {
    LeafCountUnique(0, 0);
    hide LeafCount, GenPeaks, Canonical, Peaks;
  }

  // ---- the verifier ----------------------------------------------------------------------

  /** A range with a proved leaf has a peak over it. */
  lemma SomePeakProved(peaks: seq<Coord>, idx: seq<nat>, from: nat, n: nat)
    requires Tiles(peaks, from, n) && SortedIn(idx, from, n) && idx != []
    ensures Tail(peaks, idx) < |peaks|
  {
    hide *;
    if peaks == [] {
      NoPeaksNoLeaves(idx, from, n);
    } else {
      TailNeedUnfold(peaks, idx);
    }
  }

  /** The single leaf of a one-leaf range, which is its own proof. */
  predicate OneLeaf(claims: seq<Claim>, mmrSize: nat) {
    mmrSize == 1 && |claims| == 1 && claims[0].pos == 0
  }

  /** `calculate_root` on every input. A claim at a position that is no leaf position is not
      supported. Else it is an invalid proof when a claim lies beyond the size, when there are
      fewer items than the proved peaks need or more than one item for each trailing peak and
      one besides, and when there is nothing to bag; in every other case there is a root. */
  lemma {:induction false} RootAnswers(claims: seq<Claim>, mmrSize: nat, items: seq<Hash>)
    ensures var n := LeafCount(mmrSize);
            var idx := LeafIndices(Canonical(ClaimPositions(claims), SelfKey));
            var need, t := Need(Peaks(n), idx), Tail(Peaks(n), idx);
            CalculateRoot(claims, mmrSize, items).Err? <==>
              !OneLeaf(claims, mmrSize)
              && (|| (exists c :: c in claims && Height(c.pos) > 0)
                  || (exists c :: c in claims && LeafCount(c.pos) >= n)
                  || |items| < need || |items| > need + t + 1
                  || (claims == [] && items == []))
    ensures CalculateRoot(claims, mmrSize, items).Err? ==>
              CalculateRoot(claims, mmrSize, items) ==
                if exists c :: c in claims && Height(c.pos) > 0 then Err(NodeProofsNotSupported) else Err(InvalidProof)
    ensures OneLeaf(claims, mmrSize) ==> CalculateRoot(claims, mmrSize, items) == Ok(claims[0].x)
  {
    hide *;
    RootCases(claims, mmrSize, items);
    if !OneLeaf(claims, mmrSize) && !(exists c :: c in claims && Height(c.pos) > 0) {
      if exists c :: c in claims && LeafCount(c.pos) >= LeafCount(mmrSize) {
        var c :| c in claims && LeafCount(c.pos) >= LeafCount(mmrSize);
        OutsideIsRefused(claims, mmrSize, items, c);
      } else {
        InsideAnswers(claims, mmrSize, items);
      }
    }
  }

  lemma {:induction false} RootCases(claims: seq<Claim>, mmrSize: nat, items: seq<Hash>)
    ensures OneLeaf(claims, mmrSize) ==> CalculateRoot(claims, mmrSize, items) == Ok(claims[0].x)
    ensures !OneLeaf(claims, mmrSize) && (exists c :: c in claims && Height(c.pos) > 0) ==>
              CalculateRoot(claims, mmrSize, items) == Err(NodeProofsNotSupported)
    ensures OneLeaf(claims, mmrSize) ==> !exists c :: c in claims && Height(c.pos) > 0
    ensures !(exists c :: c in claims && Height(c.pos) > 0) && CalculateRoot(claims, mmrSize, items).Err? ==>
              CalculateRoot(claims, mmrSize, items) == Err(InvalidProof)
  {
    FirstIsLeaf();
    hide LeafCount, Height, WalkPeaks, Canonical, Peaks, Entries, Collect;
    if OneLeaf(claims, mmrSize) {
      assert claims == [claims[0]];
    }
    WalkErrors(WalkPeaks(Peaks(LeafCount(mmrSize)), Entries(Canonical(claims, ClaimPos)), items));
  }

  lemma {:induction false} FirstIsLeaf()
    ensures Height(0) == 0
  {
    hide *;
    LeavesInOrder(0, 1);
    LeafPosMeans(0);
    SizeOfNone();
  }

  lemma SizeOfNone()
    ensures MmrSize(0) == 0
  {
  }

  lemma WalkErrors(w: Walked)
    ensures Collect(w).Err? ==> Collect(w) == Err(InvalidProof)
  {
  }

  lemma {:induction false} InsideAnswers(claims: seq<Claim>, mmrSize: nat, items: seq<Hash>)
    requires !OneLeaf(claims, mmrSize) && !(exists c :: c in claims && Height(c.pos) > 0)
    requires !exists c :: c in claims && LeafCount(c.pos) >= LeafCount(mmrSize)
    ensures var n := LeafCount(mmrSize);
            var idx := LeafIndices(Canonical(ClaimPositions(claims), SelfKey));
            var need, t := Need(Peaks(n), idx), Tail(Peaks(n), idx);
            CalculateRoot(claims, mmrSize, items).Ok? <==>
              need <= |items| <= need + t + 1 && !(claims == [] && items == [])
  {
    hide *;
    var n := LeafCount(mmrSize);
    var es, idx := Entries(Canonical(claims, ClaimPos)), LeafIndices(Canonical(ClaimPositions(claims), SelfKey));
    var need := Need(Peaks(n), idx);
    SameIndices(claims);
    RangeTiles(n);
    SortedClaims(claims, n);
    RootUnfold(claims, mmrSize, items);
    CollectShape(Peaks(n), es, items, n);
    if need <= |items| {
      RootsHonest([], Peaks(n), es, items, 0, n);
      RootsIffMeans([], Peaks(n), es, items);
      if claims == [] {
        NothingClaimed(n);
      } else {
        SomePeakProved(Peaks(n), idx, 0, n);
      }
    }
  }

  lemma {:induction false} RootUnfold(claims: seq<Claim>, mmrSize: nat, items: seq<Hash>)
    requires !OneLeaf(claims, mmrSize) && !(exists c :: c in claims && Height(c.pos) > 0)
    ensures var hashes := Collect(WalkPeaks(Peaks(LeafCount(mmrSize)), Entries(Canonical(claims, ClaimPos)), items));
            CalculateRoot(claims, mmrSize, items).Ok? <==> hashes.Ok? && hashes.value != []
  {
    hide LeafCount, WalkPeaks, Canonical, Peaks, Entries, Height, Collect;
  }

  lemma NothingClaimed(n: nat)
    ensures LeafIndices(Canonical(ClaimPositions([]), SelfKey)) == []
    ensures Need(Peaks(n), []) == 0 && Tail(Peaks(n), []) == |Peaks(n)|
  {
    hide Peaks;
    assert ClaimPositions([]) == [];
  }

  lemma {:induction false} SortedClaims(claims: seq<Claim>, n: nat)
    requires forall c :: c in claims ==> Height(c.pos) == 0 && LeafCount(c.pos) < n
    ensures SortedIn(LeafIndices(Canonical(ClaimPositions(claims), SelfKey)), 0, n)
    ensures claims != [] ==> LeafIndices(Canonical(ClaimPositions(claims), SelfKey)) != []
  {
    hide *;
    if claims == [] {
      NothingClaimed(n);
      NothingSorted(0, n);
    } else {
      PositionsValid(claims, n);
      CanonicalPositions(ClaimPositions(claims), n);
    }
  }

  lemma {:induction false} PositionsValid(claims: seq<Claim>, n: nat)
    requires claims != [] && forall c :: c in claims ==> Height(c.pos) == 0 && LeafCount(c.pos) < n
    ensures ValidPositions(ClaimPositions(claims), n)
  {
    hide LeafCount, Height;
    forall p | p in ClaimPositions(claims) ensures Height(p) == 0 && LeafCount(p) < n {
      var j :| 0 <= j < |claims| && ClaimPositions(claims)[j] == p;
      assert claims[j] in claims;
    }
  }

  // ---- the two extensions ----------------------------------------------------------------

  /** `verify_incremental` on every input: it answers exactly when leaves are left before the
      incremental ones and there is one item for each peak of the range they form; every
      other input is an invalid proof. */
  lemma {:induction false} IncrementalAnswers(mmrSize: nat, items: seq<Hash>, root: Hash, prevRoot: Hash,
                                              incremental: seq<Hash>)
    ensures var n := LeafCount(mmrSize);
            var r := VerifyIncremental(mmrSize, items, root, prevRoot, incremental);
            && (r.Ok? <==> n > |incremental| && |items| == Popcount(n - |incremental|))
            && (r.Err? ==> r == Err(InvalidProof))
  {
    hide *;
    var n := LeafCount(mmrSize);
    if n <= |incremental| {
      TooMany(mmrSize, items, root, prevRoot, incremental);
    } else {
      var m := n - |incremental|;
      PrevPeaks(m);
      PeaksOfRange(m);
      PeaksCount(m, 0);
      PeaksIs(m);
      Incremental.VerifyUnfold(mmrSize, items, root, prevRoot, incremental, m);
      if |items| == |Peaks(m)| {
        NewClaimsAnswered(mmrSize, items, incremental, m);
      }
    }
  }

  lemma {:induction false} TooMany(mmrSize: nat, items: seq<Hash>, root: Hash, prevRoot: Hash, incremental: seq<Hash>)
    requires LeafCount(mmrSize) <= |incremental|
    ensures VerifyIncremental(mmrSize, items, root, prevRoot, incremental) == Err(InvalidProof)
  {
    hide LeafCount, CalculateRoot, Peaks, Bag, Reorder;
  }

  lemma {:induction false} NewClaimsAnswered(mmrSize: nat, items: seq<Hash>, incremental: seq<Hash>, m: nat)
    requires m > 0 && LeafCount(mmrSize) == m + |incremental| && Peaks(m) != [] && |items| == |Peaks(m)|
    ensures CalculateRoot(NewClaims(m, incremental), mmrSize, items).Ok?
  {
    hide *;
    var n := m + |incremental|;
    LeafCountOfSize(n);
    SizeIsCount(NewClaims(m, incremental), mmrSize, MmrSize(n), items, m);
    if incremental == [] {
      RootWithoutLeaves(n, items);
    } else {
      var v := seq(n, _ => Leaf([]));
      NewLeafProof(v, m, incremental);
      AcceptsExactly(v, NewClaims(m, incremental), items);
    }
  }

  /** Two sizes with the same number of leaves are treated alike, except for the shortcut. */
  lemma {:induction false} SizeIsCount(claims: seq<Claim>, a: nat, b: nat, items: seq<Hash>, m: nat)
    requires LeafCount(a) == LeafCount(b) && m > 0
    requires claims == NewClaims(m, ClaimHashes(claims))
    ensures CalculateRoot(claims, a, items) == CalculateRoot(claims, b, items)
  {
    hide *;
    NotFirst(claims, m);
    SizeUnused(claims, a, b, items);
  }

  function ClaimHashes(claims: seq<Claim>): (xs: seq<Hash>)
    ensures |xs| == |claims| && forall j :: 0 <= j < |xs| ==> xs[j] == claims[j].x
  {
    seq(|claims|, j requires 0 <= j < |claims| => claims[j].x)
  }

  lemma {:induction false} NotFirst(claims: seq<Claim>, m: nat)
    requires m > 0 && claims == NewClaims(m, ClaimHashes(claims))
    ensures !(|claims| == 1 && claims[0].pos == 0)
  {
    hide LeafCount, Height;
    if |claims| == 1 {
      LeavesInOrder(m, m + 1);
      LeafCountUnique(0, 0);
    }
  }

  lemma {:induction false} SizeUnused(claims: seq<Claim>, a: nat, b: nat, items: seq<Hash>)
    requires LeafCount(a) == LeafCount(b) && !(|claims| == 1 && claims[0].pos == 0)
    ensures CalculateRoot(claims, a, items) == CalculateRoot(claims, b, items)
  {
    hide LeafCount, Height, WalkPeaks, Canonical, Peaks, Entries;
  }

  /** `calculate_root_with_new_leaf`: a new position that is not inside the new size is an
      invalid input. When the leaf merges, what the old proof is refused for is passed on, and
      a position behind the last peak of the new size is an invalid input too. */
  lemma {:induction false} NewLeafRefused(mmrSize: nat, items: seq<Hash>, claims: seq<Claim>, newPos: nat, x: Hash,
                                          newMmrSize: nat)
    ensures var r := CalculateRootWithNewLeaf(mmrSize, items, claims, newPos, x, newMmrSize);
            var before := CalculatePeaksHashes(claims, mmrSize, items);
            && (newPos >= newMmrSize ==> r == Err(InvalidInput))
            && (newPos < newMmrSize && Height(newPos + 1) > Height(newPos) ==>
                  && (before.Err? ==> r == Err(before.error))
                  && (before.Ok? && newPos >= MmrSize(LeafCount(newMmrSize)) ==> r == Err(InvalidInput)))
  {
    if newPos >= MmrSize(LeafCount(newMmrSize)) {
      NoPeakAtLeast(newMmrSize, newPos);
    }
    hide LeafCount, Height, CalculateRoot, CalculatePeaksHashes, Peaks, FirstAtLeast, Reorder, MmrSize;
  }

  lemma {:induction false} NoPeakAtLeast(size: nat, p: nat)
    requires p >= MmrSize(LeafCount(size))
    ensures FirstAtLeast(PeakPositions(Peaks(LeafCount(size))), p, 0) == None
  {
    hide *;
    var n := LeafCount(size);
    RangeTiles(n);
    TilesBounds(Peaks(n), 0, n);
    forall j | 0 <= j < |Peaks(n)| ensures PeakPositions(Peaks(n))[j] < p {
      assert Peaks(n)[j] in Peaks(n);
      PosBeforeSize(Peaks(n)[j].i, Peaks(n)[j].h, n);
    }
    ScanAll(PeakPositions(Peaks(n)), p, 0);
  }

  lemma {:induction false} ScanAll(ps: seq<nat>, p: nat, i: nat)
    requires i <= |ps| && forall j :: 0 <= j < |ps| ==> ps[j] < p
    ensures FirstAtLeast(ps, p, i) == None
    decreases |ps| - i
  {
    if i < |ps| {
      ScanAll(ps, p, i + 1);
    }
  }

  // ---- proofs with values ----------------------------------------------------------------

  /** `verify`: the only refusal is an invalid proof, and it refuses exactly proofs without
      leaves, with an index out of range, with a wrong number of items, and with another root. */
  lemma {:induction false} VerifyAnswers(p: MmrTreeProof, root: Hash)
    ensures var n := LeafCount(p.mmrSize);
            var claims := ToClaims(p.leaves);
            var idx := LeafIndices(Canonical(ClaimPositions(claims), SelfKey));
            var need, t := Need(Peaks(n), idx), Tail(Peaks(n), idx);
            && (RootOfProof(p).Err? <==>
                  || p.leaves == [] || (exists l :: l in p.leaves && l.idx >= n)
                  || (!OneLeaf(claims, p.mmrSize) && (|p.items| < need || |p.items| > need + t + 1)))
            && (RootOfProof(p).Err? ==> RootOfProof(p) == Err(InvalidProof))
            && VerifyProof(p, root) == if RootOfProof(p) == Ok(root) then Ok(KeepFirst(p.leaves)) else Err(InvalidProof)
  {
    hide *;
    RootOfProofIs(p);
    VerifyIs(p, root);
    if p.leaves != [] && InRange(p.leaves, LeafCount(p.mmrSize)) {
      RootAnswers(ToClaims(p.leaves), p.mmrSize, p.items);
      ValueClaims(p.leaves, LeafCount(p.mmrSize));
    }
  }

  lemma {:induction false} RootOfProofIs(p: MmrTreeProof)
    ensures var r := CalculateRoot(ToClaims(p.leaves), p.mmrSize, p.items);
            RootOfProof(p) ==
              if p.leaves == [] || !InRange(p.leaves, LeafCount(p.mmrSize)) || r.Err? then Err(InvalidProof)
              else Ok(r.value)
    ensures InRange(p.leaves, LeafCount(p.mmrSize)) <==> !exists l :: l in p.leaves && l.idx >= LeafCount(p.mmrSize)
  {
    hide CalculateRoot, LeafCount;
    var n := LeafCount(p.mmrSize);
    if !InRange(p.leaves, n) {
      var j :| 0 <= j < |p.leaves| && p.leaves[j].idx >= n;
      assert p.leaves[j] in p.leaves;
    }
  }

  lemma VerifyIs(p: MmrTreeProof, root: Hash)
    ensures VerifyProof(p, root) == if RootOfProof(p) == Ok(root) then Ok(KeepFirst(p.leaves)) else Err(InvalidProof)
  {
    hide RootOfProof, KeepFirst;
  }

  lemma {:induction false} ValueClaims(ls: seq<Indexed>, n: nat)
    requires ls != [] && InRange(ls, n)
    ensures ToClaims(ls) != []
    ensures forall c :: c in ToClaims(ls) ==> Height(c.pos) == 0 && LeafCount(c.pos) < n
  {
    hide LeafCount, Height, LeafIndexToPos;
    forall c | c in ToClaims(ls) ensures Height(c.pos) == 0 && LeafCount(c.pos) < n {
      var j :| 0 <= j < |ls| && ToClaims(ls)[j] == c;
      LeavesInOrder(ls[j].idx, ls[j].idx + 1);
    }
  }

  /** `generate` over a whole range: an empty request, an index out of range and a repeated one
      are invalid input, a requested node that is no leaf is invalid data, and nothing else
      fails. */
  lemma {:induction false} GenerateAnswers(v: seq<Hash>, indices: seq<nat>)
    ensures var bad := indices == [] || (exists i :: i in indices && i >= |v|)
                       || exists a, b :: 0 <= a < b < |indices| && indices[a] == indices[b];
            && (GenerateProof(v, indices) == Err(InvalidInput) <==> bad)
            && (GenerateProof(v, indices) == Err(InvalidData) <==>
                  !bad && exists i :: i in indices && i < |v| && v[i].Node?)
            && (GenerateProof(v, indices).Err? ==> GenerateProof(v, indices).error in {InvalidInput, InvalidData})
  {
    hide *;
    IndicesMean(v, indices);
    if indices != [] && AllBelow(indices, |v|) {
      IndexPositions(indices, |v|);
      GenProofValid(v, PositionsOf(indices));
    }
    GenerateCases(v, indices);
  }

  lemma IndicesMean(v: seq<Hash>, indices: seq<nat>)
    ensures AllBelow(indices, |v|) <==> !exists i :: i in indices && i >= |v|
    ensures Distinct(indices) <==> !exists a, b :: 0 <= a < b < |indices| && indices[a] == indices[b]
    ensures AllBelow(indices, |v|) ==>
              ((exists j :: 0 <= j < |indices| && v[indices[j]].Node?) <==>
                 exists i :: i in indices && i < |v| && v[i].Node?)
  {
    if !AllBelow(indices, |v|) {
      var j :| 0 <= j < |indices| && indices[j] >= |v|;
      assert indices[j] in indices;
    }
    forall j | 0 <= j < |indices| ensures indices[j] in indices {
    }
  }

  lemma {:induction false} IndexPositions(indices: seq<nat>, n: nat)
    requires indices != [] && AllBelow(indices, n)
    ensures ValidPositions(PositionsOf(indices), n)
  {
    hide LeafCount, Height, LeafIndexToPos;
    forall p | p in PositionsOf(indices) ensures Height(p) == 0 && LeafCount(p) < n {
      var j :| 0 <= j < |indices| && PositionsOf(indices)[j] == p;
      LeavesInOrder(indices[j], indices[j] + 1);
    }
  }

  lemma GenerateCases(v: seq<Hash>, indices: seq<nat>)
    ensures var bad := indices == [] || !AllBelow(indices, |v|) || !Distinct(indices);
            && (bad ==> GenerateProof(v, indices) == Err(InvalidInput))
            && (!bad && (exists j :: 0 <= j < |indices| && v[indices[j]].Node?) ==>
                  GenerateProof(v, indices) == Err(InvalidData))
            && (!bad && !(exists j :: 0 <= j < |indices| && v[indices[j]].Node?) ==>
                  (GenProof(v, PositionsOf(indices)).Ok? ==> GenerateProof(v, indices).Ok?))
  {
    hide Distinct, GenProof, PositionsOf, MmrSize;
  }
}
