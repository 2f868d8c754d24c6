/** Proofs that carry leaf values: what is generated over a range, verification without
    storage, and the keep-first filter on the returned pairs. */
module TreeProof {
  import opened Wrappers
  import opened Bits
  import opened Positions
  import opened Mountain
  import opened Sorting
  import opened MerkleProof
  import opened Verifier
  import opened ProofLength
  import opened Containment

  datatype Indexed = Indexed(idx: nat, value: Bytes)

  datatype MmrTreeProof = MmrTreeProof(mmrSize: nat, leaves: seq<Indexed>, items: seq<Hash>)

  function IndexOf(l: Indexed): nat { l.idx }

  function ToClaim(l: Indexed): Claim { Claim(LeafIndexToPos(l.idx), Leaf(l.value)) }

  function ToClaims(ls: seq<Indexed>): (cs: seq<Claim>)
    ensures |cs| == |ls|
    ensures forall j :: 0 <= j < |ls| ==> cs[j] == ToClaim(ls[j])
  {
    seq(|ls|, j requires 0 <= j < |ls| => ToClaim(ls[j]))
  }

  predicate InRange(ls: seq<Indexed>, n: nat) {
    forall j :: 0 <= j < |ls| ==> ls[j].idx < n
  }

  predicate Occurs(idx: nat, ls: seq<Indexed>) {
    exists j :: 0 <= j < |ls| && ls[j].idx == idx
  }

  /** The pairs that are the first of their index, in order. */
  function KeepFirst(ls: seq<Indexed>): seq<Indexed> {
    if ls == [] then []
    else
      var init, last := ls[..|ls| - 1], ls[|ls| - 1];
      KeepFirst(init) + if Occurs(last.idx, init) then [] else [last]
  }

  // ---- verification -----------------------------------------------------------------

  /** `verify_and_get_root`, the root part */
  function RootOfProof(p: MmrTreeProof): Result<Hash, Error> {
    if p.leaves == [] || !InRange(p.leaves, LeafCount(p.mmrSize)) then Err(InvalidProof)
    else match CalculateRoot(ToClaims(p.leaves), p.mmrSize, p.items)
      case Err(_) => Err(InvalidProof)
      case Ok(x) => Ok(x)
  }

  /** `verify` */
  function VerifyProof(p: MmrTreeProof, root: Hash): Result<seq<Indexed>, Error> {
    if RootOfProof(p) == Ok(root) then Ok(KeepFirst(p.leaves)) else Err(InvalidProof)
  }

  /** The filter with a set of indices seen so far. */
  method FilterFirst(ls: seq<Indexed>) returns (kept: seq<Indexed>)
    ensures kept == KeepFirst(ls)
  {
    kept := [];
    var seen: set<nat> := {};
    var i := 0;
    while i < |ls|
      invariant 0 <= i <= |ls|
      invariant forall k: nat :: k in seen <==> Occurs(k, ls[..i])
      invariant kept == KeepFirst(ls[..i])
    {
      var l := ls[i];
      assert ls[..i + 1][..i] == ls[..i];
      if l.idx !in seen {
        kept := kept + [l];
      }
      forall k: nat ensures Occurs(k, ls[..i + 1]) <==> Occurs(k, ls[..i]) || k == l.idx {
        OccursAppend(k, ls[..i], l);
        assert ls[..i + 1] == ls[..i] + [l];
      }
      seen := seen + {l.idx};
      i := i + 1;
    }
    assert ls[..i] == ls;
  }

  lemma OccursAppend(k: nat, ls: seq<Indexed>, l: Indexed)
    ensures Occurs(k, ls + [l]) <==> Occurs(k, ls) || k == l.idx
  {
    if Occurs(k, ls) {
      var j :| 0 <= j < |ls| && ls[j].idx == k;
      assert (ls + [l])[j].idx == k;
    }
    assert (ls + [l])[|ls|] == l;
  }

  method AllInRange(ls: seq<Indexed>, n: nat) returns (ok: bool)
    ensures ok <==> InRange(ls, n)
  {
    var i := 0;
    while i < |ls|
      invariant 0 <= i <= |ls|
      invariant InRange(ls[..i], n)
    {
      if ls[i].idx >= n {
        return false;
      }
      i := i + 1;
    }
    assert ls[..i] == ls;
    ok := true;
  }

  lemma {:induction false} ClaimsFit(ls: seq<Indexed>, mmrSize: u64)
    requires InRange(ls, LeafCount(mmrSize))
    ensures forall c :: c in ToClaims(ls) ==> c.pos <= U64_MAX
  {
    hide LeafCount, Popcount;
    forall c | c in ToClaims(ls) ensures c.pos <= U64_MAX {
      var j :| 0 <= j < |ls| && ToClaims(ls)[j] == c;
      PosOfLeafFits(ls[j].idx, mmrSize);
    }
  }

  /** `verify_and_get_root` */
  method VerifyAndGetRoot(p: MmrTreeProof) returns (r: Result<(Hash, seq<Indexed>), Error>)
    requires p.mmrSize <= U64_MAX
    ensures r == match RootOfProof(p)
                 case Err(e) => Err(e)
                 case Ok(x) => Ok((x, KeepFirst(p.leaves)))
  {
    if |p.leaves| == 0 {
      return Err(InvalidProof);
    }
    hide KeepFirst, CalculateRoot, LeafCount, InRange, LeafIndexToPos;
    var leafCount := GetPeakMap(p.mmrSize);
    var ok := AllInRange(p.leaves, leafCount);
    if !ok {
      return Err(InvalidProof);
    }
    ClaimsFit(p.leaves, p.mmrSize);
    var root := RecomputeRoot(ToClaims(p.leaves), p.mmrSize, p.items);
    if root.Err? {
      return Err(InvalidProof);
    }
    var verified := FilterFirst(p.leaves);
    r := Ok((root.value, verified));
  }

  /** `verify` */
  method Verify(p: MmrTreeProof, root: Hash) returns (r: Result<seq<Indexed>, Error>)
    requires p.mmrSize <= U64_MAX
    ensures r == VerifyProof(p, root)
  {
    if |p.leaves| == 0 {
      return Err(InvalidProof);
    }
    hide KeepFirst, CalculateRoot, LeafCount, InRange, LeafIndexToPos;
    var leafCount := GetPeakMap(p.mmrSize);
    var ok := AllInRange(p.leaves, leafCount);
    if !ok {
      return Err(InvalidProof);
    }
    ClaimsFit(p.leaves, p.mmrSize);
    var computed := RecomputeRoot(ToClaims(p.leaves), p.mmrSize, p.items);
    if computed.Err? || computed.value != root {
      return Err(InvalidProof);
    }
    var verified := FilterFirst(p.leaves);
    r := Ok(verified);
  }

  // ---- the filter keeps what the recomputation used -----------------------------------

  lemma {:induction false} FirstAppend<T>(s: seq<T>, x: T, key: T -> nat, k: nat)
    ensures First(s + [x], key, k) ==
              if First(s, key, k).Some? then First(s, key, k) else if key(x) == k then Some(x) else None
  {
    if s == [] {
      assert s + [x] == [x];
      assert [x][1..] == [];
    } else {
      assert (s + [x])[1..] == s[1..] + [x];
      FirstAppend(s[1..], x, key, k);
    }
  }

  lemma {:induction false} FirstOccurs(ls: seq<Indexed>, k: nat)
    ensures First(ls, IndexOf, k).Some? <==> Occurs(k, ls)
    ensures First(ls, IndexOf, k).Some? ==> First(ls, IndexOf, k).value.idx == k
  {
    if ls != [] {
      FirstOccurs(ls[1..], k);
      if Occurs(k, ls[1..]) {
        var j :| 0 <= j < |ls[1..]| && ls[1..][j].idx == k;
        assert ls[j + 1].idx == k;
      }
      if Occurs(k, ls) && ls[0].idx != k {
        var j :| 0 <= j < |ls| && ls[j].idx == k;
        assert ls[1..][j - 1].idx == k;
      }
    }
  }

  lemma {:induction false} KeepFirstMember(ls: seq<Indexed>, l: Indexed)
    ensures l in KeepFirst(ls) <==> First(ls, IndexOf, l.idx) == Some(l)
    decreases |ls|
  {
    if ls != [] {
      var init, last := ls[..|ls| - 1], ls[|ls| - 1];
      assert ls == init + [last];
      KeepFirstMember(init, l);
      FirstAppend(init, last, IndexOf, l.idx);
      FirstOccurs(init, l.idx);
      FirstOccurs(init, last.idx);
    }
  }

  lemma {:induction false} FirstClaim(ls: seq<Indexed>, k: nat)
    ensures First(ToClaims(ls), ClaimPos, LeafIndexToPos(k)) ==
              match First(ls, IndexOf, k)
              case None => None
              case Some(l) => Some(ToClaim(l))
  {
    hide LeafIndexToPos;
    if ls != [] {
      FirstClaim(ls[1..], k);
      assert ToClaims(ls)[1..] == ToClaims(ls[1..]);
      PosOfIndexInjective(ls[0].idx, k);
    }
  }

  lemma PosOfIndexInjective(i: nat, j: nat)
    ensures LeafIndexToPos(i) == LeafIndexToPos(j) ==> i == j
  {
    hide *;
    if LeafIndexToPos(i) == LeafIndexToPos(j) {
      LeafPositions(LeafIndexToPos(i));
    }
  }

  /** A pair is returned exactly when its claim survives the stable sort and the
      deduplication of the recomputation, also with conflicting duplicates. */
  lemma KeptIsUsed(ls: seq<Indexed>, l: Indexed)
    ensures l in KeepFirst(ls) <==> ToClaim(l) in Canonical(ToClaims(ls), ClaimPos)
  {
    hide LeafIndexToPos, Canonical, KeepFirst;
    KeepFirstMember(ls, l);
    FirstClaim(ls, l.idx);
    CanonicalMember(ToClaims(ls), ClaimPos, ToClaim(l));
    FirstOccurs(ls, l.idx);
  }

  lemma ClaimsValid(ls: seq<Indexed>, n: nat)
    requires ls != [] && InRange(ls, n)
    ensures ValidPositions(ClaimPositions(ToClaims(ls)), n)
  {
    hide LeafIndexToPos, LeafCount, Height;
    var ps := ClaimPositions(ToClaims(ls));
    assert ps[0] in ps;
    forall p | p in ps ensures Height(p) == 0 && LeafCount(p) < n {
      var j :| 0 <= j < |ps| && ps[j] == p;
      IndexOfPos(ls[j].idx);
    }
  }

  lemma {:induction false} IndexOfPos(i: nat)
    ensures Height(LeafIndexToPos(i)) == 0 && LeafCount(LeafIndexToPos(i)) == i
  {
    hide *;
    LeafPositions(LeafIndexToPos(i));
  }

  /** Every returned value is a leaf value of the range with the expected root, whatever
      size, indices and items the proof carries. */
  lemma VerifiedIsLeaf(p: MmrTreeProof, v: seq<Hash>, l: Indexed)
    requires v != [] && LeafHashes(v) && VerifyProof(p, Root(v)).Ok?
    requires l in VerifyProof(p, Root(v)).value
    ensures Leaf(l.value) in v
  {
    VerifyMeans(p, Root(v));
    hide *;
    ClaimsValid(p.leaves, LeafCount(p.mmrSize));
    KeptIsUsed(p.leaves, l);
    ClaimsEnterRoot(ToClaims(p.leaves), p.mmrSize, p.items, Root(v), ToClaim(l));
    ToClaimMeans(l);
    LeafOfRoot(Leaf(l.value), v);
  }

  lemma ToClaimMeans(l: Indexed)
    ensures ToClaim(l) == Claim(LeafIndexToPos(l.idx), Leaf(l.value))
  {
    hide LeafIndexToPos;
  }

  lemma {:induction false} VerifyMeans(p: MmrTreeProof, root: Hash)
    requires VerifyProof(p, root).Ok?
    ensures p.leaves != [] && InRange(p.leaves, LeafCount(p.mmrSize))
    ensures CalculateRoot(ToClaims(p.leaves), p.mmrSize, p.items) == Ok(root)
    ensures VerifyProof(p, root) == Ok(KeepFirst(p.leaves))
  {
    hide LeafCount, CalculateRoot, InRange, KeepFirst;
  }

  /** With the true size and as many items as the prover emits, verification succeeds
      exactly when every returned pair is the leaf at its index and the items are the
      prover's. */
  lemma VerifiesExactly(p: MmrTreeProof, v: seq<Hash>)
    requires v != [] && p.mmrSize == MmrSize(|v|) && p.leaves != [] && InRange(p.leaves, |v|)
    requires var g := GenProof(v, ClaimPositions(ToClaims(p.leaves))); g.Ok? ==> |p.items| == |g.value|
    ensures VerifyProof(p, Root(v)).Ok? <==>
              && (forall l :: l in KeepFirst(p.leaves) ==> l.idx < |v| && v[l.idx] == Leaf(l.value))
              && GenProof(v, ClaimPositions(ToClaims(p.leaves))) == Ok(p.items)
  {
    var cs := ToClaims(p.leaves);
    LeafCountOfSize(|v|);
    VerifyUnfold(p, Root(v));
    hide *;
    ClaimsValid(p.leaves, |v|);
    AcceptsExactly(v, cs, p.items);
    HoldsForKept(p.leaves, v);
  }

  lemma {:induction false} VerifyUnfold(p: MmrTreeProof, root: Hash)
    ensures VerifyProof(p, root).Ok? <==>
              && p.leaves != [] && InRange(p.leaves, LeafCount(p.mmrSize))
              && CalculateRoot(ToClaims(p.leaves), p.mmrSize, p.items) == Ok(root)
  {
    hide LeafCount, CalculateRoot, InRange, KeepFirst;
  }

  lemma HoldsForKept(ls: seq<Indexed>, v: seq<Hash>)
    requires InRange(ls, |v|)
    ensures ClaimsHold(v, ToClaims(ls)) <==>
              forall l :: l in KeepFirst(ls) ==> l.idx < |v| && v[l.idx] == Leaf(l.value)
  {
    hide LeafIndexToPos, LeafCount, Canonical, KeepFirst;
    var cs := ToClaims(ls);
    forall l | l in KeepFirst(ls) ensures ToClaim(l) in Canonical(cs, ClaimPos) && LeafCount(ToClaim(l).pos) == l.idx {
      KeptIsUsed(ls, l);
      IndexOfPos(l.idx);
    }
    forall c | c in Canonical(cs, ClaimPos)
      ensures exists l :: l in KeepFirst(ls) && c == ToClaim(l)
    {
      CanonicalMember(cs, ClaimPos, c);
      var j :| 0 <= j < |cs| && cs[j] == c;
      KeptIsUsed(ls, ls[j]);
      assert ls[j] in KeepFirst(ls);
    }
  }

  // ---- generation -----------------------------------------------------------------

  predicate Distinct(s: seq<nat>) {
    forall a, b :: 0 <= a < b < |s| ==> s[a] != s[b]
  }

  predicate AllBelow(s: seq<nat>, n: nat) {
    forall j :: 0 <= j < |s| ==> s[j] < n
  }

  function PositionsOf(indices: seq<nat>): (ps: seq<nat>)
    ensures |ps| == |indices|
    ensures forall j :: 0 <= j < |ps| ==> ps[j] == LeafIndexToPos(indices[j])
  {
    seq(|indices|, j requires 0 <= j < |indices| => LeafIndexToPos(indices[j]))
  }

  /** The values asked for, in the order asked. */
  function ValuesAt(v: seq<Hash>, indices: seq<nat>): (ls: seq<Indexed>)
    requires AllBelow(indices, |v|) && forall j :: 0 <= j < |indices| ==> v[indices[j]].Leaf?
    ensures |ls| == |indices|
    ensures forall j :: 0 <= j < |ls| ==> ls[j] == Indexed(indices[j], v[indices[j]].value)
  {
    seq(|indices|, j requires 0 <= j < |indices| => Indexed(indices[j], v[indices[j]].value))
  }

  /** `generate` over the range of the leaves `v`. */
  function GenerateProof(v: seq<Hash>, indices: seq<nat>): Result<MmrTreeProof, Error> {
    if indices == [] || !AllBelow(indices, |v|) || !Distinct(indices) then Err(InvalidInput)
    else if exists j :: 0 <= j < |indices| && v[indices[j]].Node? then Err(InvalidData)
    else match GenProof(v, PositionsOf(indices))
      case Err(_) => Err(OperationFailed)
      case Ok(items) => Ok(MmrTreeProof(MmrSize(|v|), ValuesAt(v, indices), items))
  }

  // ---- round trip -----------------------------------------------------------------

  lemma {:induction false} KeepFirstOfDistinct(ls: seq<Indexed>)
    requires forall a, b :: 0 <= a < b < |ls| ==> ls[a].idx != ls[b].idx
    ensures KeepFirst(ls) == ls
    decreases |ls|
  {
    if ls != [] {
      var init := ls[..|ls| - 1];
      KeepFirstOfDistinct(init);
      assert ls == init + [ls[|ls| - 1]];
    }
  }

  /** What is generated for distinct indices in range verifies against the root and
      returns the requested values in the requested order. */
  lemma GenerateThenVerify(v: seq<Hash>, indices: seq<nat>)
    requires LeafHashes(v) && indices != [] && AllBelow(indices, |v|) && Distinct(indices)
    ensures GenerateProof(v, indices).Ok?
    ensures var p := GenerateProof(v, indices).value;
            v != [] && p.leaves == ValuesAt(v, indices) && VerifyProof(p, Root(v)) == Ok(p.leaves)
  {
    assert indices[0] < |v|;
    var ls := ValuesAt(v, indices);
    KeepFirstOfDistinct(ls);
    LeavesInRange(v, indices);
    hide *;
    SamePositions(v, indices);
    ClaimsValid(ls, |v|);
    GenProofValid(v, PositionsOf(indices));
    GenerateMeans(v, indices);
    var p := GenerateProof(v, indices).value;
    VerifiesExactly(p, v);
    VerifyMeans(p, Root(v));
  }

  lemma LeavesInRange(v: seq<Hash>, indices: seq<nat>)
    requires LeafHashes(v) && AllBelow(indices, |v|)
    ensures InRange(ValuesAt(v, indices), |v|)
    ensures forall l :: l in ValuesAt(v, indices) ==> l.idx < |v| && v[l.idx] == Leaf(l.value)
  {
  }

  lemma SamePositions(v: seq<Hash>, indices: seq<nat>)
    requires LeafHashes(v) && AllBelow(indices, |v|)
    ensures forall j :: 0 <= j < |indices| ==> v[indices[j]].Leaf?
    ensures ClaimPositions(ToClaims(ValuesAt(v, indices))) == PositionsOf(indices)
  {
    hide LeafIndexToPos;
  }

  lemma GenerateMeans(v: seq<Hash>, indices: seq<nat>)
    requires LeafHashes(v) && indices != [] && AllBelow(indices, |v|) && Distinct(indices)
    requires GenProof(v, PositionsOf(indices)).Ok?
    ensures GenerateProof(v, indices) ==
              Ok(MmrTreeProof(MmrSize(|v|), ValuesAt(v, indices), GenProof(v, PositionsOf(indices)).value))
  {
    hide GenProof, MmrSize, PositionsOf;
  }
}
