/** Proofs with another number of items than the prover emits.

    The verifier stops asking for peaks when the items run out, and takes one item left
    over as the bag of everything to the right. So several lengths can be accepted. This
    module says which of them still bind every claim to its position. */
module ProofLength {
  import opened Wrappers
  import opened Bits
  import opened Positions
  import opened Mountain
  import opened Walk
  import opened PeakWalk
  import opened Sorting
  import opened MerkleProof

  // ---- more items than the proved peaks need -----------------------------------

  /** Bags with equally long non-empty-tailed prefixes agree part by part. */
  lemma BagParts(a: seq<Hash>, b: seq<Hash>, c: seq<Hash>, d: seq<Hash>)
    requires |a| == |c| && |b| > 0 && |d| > 0
    ensures Bag(a + b) == Bag(c + d) <==> a == c && Bag(b) == Bag(d)
  {
    BagSplit(a, b);
    BagSplit(c, d);
    var s, t := a + [Bag(b)], c + [Bag(d)];
    hide Bag;
    if Bag(s) == Bag(t) {
      BagInjective(s, t);
      assert a == s[..|a|] && c == t[..|c|] && s[|a|] == Bag(b) && t[|c|] == Bag(d);
    }
  }

  /** The trailing peaks may be given bagged, one by one, or anything between. */
  lemma LongerItems(v: seq<Hash>, peaks: seq<Coord>, es: seq<Entry>, items: seq<Hash>, n: nat)
    requires Tiles(peaks, 0, n) && SortedIn(Indices(es), 0, n)
    requires Tail(peaks, Indices(es)) > 0 && |items| > Need(peaks, Indices(es))
    ensures var idx := Indices(es);
            var need, t := Need(peaks, idx), Tail(peaks, idx);
            var hashes := Collect(WalkPeaks(peaks, es, items));
            && (hashes.Ok? <==> |items| <= need + t + 1)
            && (hashes.Ok? ==>
                  && hashes.value != []
                  && (Bag(hashes.value) == Bag(PeakHashes(v, peaks)) <==>
                        && IsHonest(v, es, 0) && items[..need] == GenRoots(v, peaks, idx)
                        && Bag(items[need..]) == Bag(PeakHashes(v, peaks[|peaks| - t..]))))
  {
    hide *;
    var idx := Indices(es);
    var need, t := Need(peaks, idx), Tail(peaks, idx);
    var k := |peaks| - t;
    var roots := PeakRoots(peaks, es, items);
    CollectShape(peaks, es, items, n);
    RootsHonest(v, peaks, es, items, 0, n);
    RootsMeans(v, peaks, es, items);
    PeakHashesSplit(v, peaks, k);
    BagParts(roots, items[need..], PeakHashes(v, peaks[..k]), PeakHashes(v, peaks[k..]));
  }

  lemma RootsMeans(v: seq<Hash>, peaks: seq<Coord>, es: seq<Entry>, items: seq<Hash>)
    requires RootsIff(v, peaks, es, items)
    ensures var need, k := Need(peaks, Indices(es)), |peaks| - Tail(peaks, Indices(es));
            && need <= |items| && |PeakRoots(peaks, es, items)| == k
            && (PeakRoots(peaks, es, items) == PeakHashes(v, peaks[..k]) <==>
                  IsHonest(v, es, 0) && items[..need] == GenRoots(v, peaks, Indices(es)))
  {
    hide Need, Tail, PeakRoots, PeakHashes, IsHonest, GenRoots, Indices;
  }

  lemma PeakHashesSplit(v: seq<Hash>, peaks: seq<Coord>, k: nat)
    requires k <= |peaks|
    ensures PeakHashes(v, peaks) == PeakHashes(v, peaks[..k]) + PeakHashes(v, peaks[k..])
    ensures |PeakHashes(v, peaks[..k])| == k && |PeakHashes(v, peaks[k..])| == |peaks| - k
  {
  }

  // ---- one item too many ---------------------------------------------------------

  function Depth(x: Hash): nat {
    match x
    case Leaf(_) => 0
    case Node(l, r) => 1 + if Depth(l) > Depth(r) then Depth(l) else Depth(r)
  }

  /** Every leaf hash is a hash of a value. */
  predicate LeafHashes(v: seq<Hash>) {
    forall j :: 0 <= j < |v| ==> v[j].Leaf?
  }

  lemma {:induction false} SubtreeDepth(v: seq<Hash>, i: nat, h: nat)
    requires LeafHashes(v)
    ensures Depth(Subtree(v, i, h)) == h
    decreases h
  {
    if h > 0 {
      SubtreeDepth(v, 2 * i, h - 1);
      SubtreeDepth(v, 2 * i + 1, h - 1);
    }
  }

  predicate DeepAs(level: seq<Entry>, h: nat) {
    forall j :: 0 <= j < |level| ==> Depth(level[j].x) >= h
  }

  lemma {:induction false} LevelDepth(level: seq<Entry>, items: seq<Hash>, h: nat)
    requires DeepAs(level, h) && LevelUp(level, items).Climbed?
    ensures DeepAs(LevelUp(level, items).level, h + 1)
    decreases |level|
  {
    if level == [] {
    } else if Paired(Indices(level)) {
      LevelDepth(level[2..], items, h);
    } else {
      LevelDepth(level[1..], items[1..], h);
    }
  }

  lemma {:induction false} ClimbDepth(level: seq<Entry>, items: seq<Hash>, h: nat, k: nat)
    requires DeepAs(level, h) && Climb(level, items, k).Climbed?
    ensures DeepAs(Climb(level, items, k).level, h + k)
    decreases k
  {
    if k > 0 {
      LevelDepth(level, items, h);
      var up := LevelUp(level, items);
      ClimbDepth(up.level, up.items, h + 1, k - 1);
    }
  }

  /** A peak recomputed from its own leaves is at least as deep as it is high. */
  lemma TakenDepth(peaks: seq<Coord>, es: seq<Entry>, items: seq<Hash>)
    requires peaks != [] && Below(peaks, Indices(es)) > 0 && TakePeak(peaks, es, items).Taken?
    ensures Depth(TakePeak(peaks, es, items).x) >= peaks[0].h
  {
    var m := Below(peaks, Indices(es));
    hide Below;
    ClimbDepth(es[..m], items, 0, peaks[0].h);
  }

  lemma {:induction false} LastRootDepth(peaks: seq<Coord>, es: seq<Entry>, items: seq<Hash>, from: nat, to: nat)
    requires peaks != [] && Tiles(peaks, from, to) && SortedIn(Indices(es), from, to)
    requires Tail(peaks, Indices(es)) == 0 && |items| >= Need(peaks, Indices(es))
    ensures var roots := PeakRoots(peaks, es, items);
            |roots| == |peaks| && Depth(roots[|roots| - 1]) >= peaks[|peaks| - 1].h
    decreases |peaks|
  {
    var idx := Indices(es);
    var m := Below(peaks, idx);
    TakeShape(peaks, es, items, from, to);
    SplitAtPeak(peaks, idx, from, to);
    WalkUnfold(peaks, es, items);
    TailNeedUnfold(peaks, idx);
    hide *;
    var step := TakePeak(peaks, es, items);
    if |peaks| > 1 {
      LastRootDepth(peaks[1..], es[m..], step.items, Shl(peaks[0].i + 1, peaks[0].h), to);
    } else {
      LastPeakTakesAll(peaks, idx, from, to);
      TakenDepth(peaks, es, items);
      NoMoreRoots(peaks[1..], es[m..], step.items);
    }
  }

  lemma LastPeakTakesAll(peaks: seq<Coord>, idx: seq<nat>, from: nat, to: nat)
    requires |peaks| == 1 && idx != [] && Tiles(peaks, from, to) && SortedIn(idx, from, to)
    ensures Below(peaks, idx) > 0
  {
    assert idx[0] < to;
    assert Tiles(peaks[1..], Shl(peaks[0].i + 1, peaks[0].h), to);
  }

  lemma NoMoreRoots(peaks: seq<Coord>, es: seq<Entry>, items: seq<Hash>)
    ensures peaks == [] ==> PeakRoots(peaks, es, items) == []
  {
  }

  /** When every peak is accounted for, one further item is never accepted. */
  lemma ExtraItem(v: seq<Hash>, peaks: seq<Coord>, es: seq<Entry>, items: seq<Hash>, n: nat)
    requires LeafHashes(v) && peaks != [] && Tiles(peaks, 0, n) && SortedIn(Indices(es), 0, n)
    requires Tail(peaks, Indices(es)) == 0 && |items| == Need(peaks, Indices(es)) + 1
    ensures var hashes := Collect(WalkPeaks(peaks, es, items));
            hashes.Ok? && hashes.value != [] && Bag(hashes.value) != Bag(PeakHashes(v, peaks))
  {
    hide *;
    var need := Need(peaks, Indices(es));
    var roots := PeakRoots(peaks, es, items);
    CollectShape(peaks, es, items, n);
    LastRootDepth(peaks, es, items, 0, n);
    assert items[need..] == [items[need]];
    ExtraBag(v, peaks, roots, items[need]);
  }

  lemma ExtraBag(v: seq<Hash>, peaks: seq<Coord>, roots: seq<Hash>, x: Hash)
    requires LeafHashes(v) && |roots| == |peaks| > 0
    requires Depth(roots[|roots| - 1]) >= peaks[|peaks| - 1].h
    ensures Bag(roots + [x]) != Bag(PeakHashes(v, peaks))
  {
    hide *;
    var last := |peaks| - 1;
    var top := Subtree(v, peaks[last].i, peaks[last].h);
    SubtreeDepth(v, peaks[last].i, peaks[last].h);
    PeakHashesSplit(v, peaks, last);
    OnePeakHash(v, peaks[last..]);
    assert roots + [x] == roots[..last] + [roots[last], x];
    BagParts(roots[..last], [roots[last], x], PeakHashes(v, peaks[..last]), [top]);
    BagOfTwo(roots[last], x, top);
    NodeDepth(x, roots[last]);
  }

  lemma OnePeakHash(v: seq<Hash>, peaks: seq<Coord>)
    requires |peaks| == 1
    ensures PeakHashes(v, peaks) == [Subtree(v, peaks[0].i, peaks[0].h)]
  {
  }

  lemma BagOfTwo(a: Hash, b: Hash, c: Hash)
    ensures Bag([a, b]) == Node(b, a) && Bag([c]) == c
  {
    assert [a, b][1..] == [b];
  }

  lemma NodeDepth(l: Hash, r: Hash)
    ensures Depth(Node(l, r)) > Depth(r)
  {
  }

  // ---- which lengths are sound --------------------------------------------------

  /** Items up to the last peak with a claimed leaf, and the peaks after it. */
  function NeedOf(n: nat, posList: seq<nat>): nat {
    Need(Peaks(n), LeafIndices(Canonical(posList, SelfKey)))
  }

  function TailOf(n: nat, posList: seq<nat>): nat {
    Tail(Peaks(n), LeafIndices(Canonical(posList, SelfKey)))
  }

  /** Position soundness for every number of items but one: unless peaks follow the last
      claimed leaf and no item at all is left for them, an accepted root binds every
      deduplicated claim to its position. */
  lemma SoundUnlessShort(v: seq<Hash>, claims: seq<Claim>, items: seq<Hash>)
    requires LeafHashes(v) && |v| > 0 && ValidPositions(ClaimPositions(claims), |v|)
    requires CalculateRoot(claims, MmrSize(|v|), items) == Ok(Root(v))
    requires TailOf(|v|, ClaimPositions(claims)) == 0 || |items| != NeedOf(|v|, ClaimPositions(claims))
    ensures ClaimsHold(v, claims)
  {
    var n, ps := |v|, ClaimPositions(claims);
    var es := Entries(Canonical(claims, ClaimPos));
    var need, t := NeedOf(n, ps), TailOf(n, ps);
    SameIndices(claims);
    assert need == Need(Peaks(n), Indices(es)) && t == Tail(Peaks(n), Indices(es));
    hide *;
    CanonicalPositions(ps, n);
    PeaksOfRange(n);
    ClaimsHoldMeans(v, claims);
    RootMeans(v);
    CollectShape(Peaks(n), es, items, n);
    if Lone(claims, n) {
      LoneMeans(claims, n);
      LoneClaim(v, claims, items);
      return;
    }
    RootOfWalk(claims, n, items);
    if t > 0 {
      LongerItems(v, Peaks(n), es, items, n);
    } else if |items| == need {
      GenCountMeans(Peaks(n), Indices(es));
      ExactItems(v, Peaks(n), es, items, n);
    } else {
      ExtraItem(v, Peaks(n), es, items, n);
    }
  }

  /** The shortcut of a range with one leaf, which looks at no item. */
  predicate Lone(claims: seq<Claim>, n: nat) {
    n == 1 && |claims| == 1 && claims[0].pos == 0
  }

  lemma LoneClaim(v: seq<Hash>, claims: seq<Claim>, items: seq<Hash>)
    requires |v| == 1 && Lone(claims, |v|) && CalculateRoot(claims, MmrSize(|v|), items) == Ok(Root(v))
    ensures ClaimsHold(v, claims) && TailOf(|v|, ClaimPositions(claims)) == 0
  {
    hide *;
    LoneMeans(claims, |v|);
    OneClaim(claims[0].x, 0);
    assert claims == [claims[0]];
    LoneRoot(v, claims[0].x, items);
    HoldsOfOne(v, claims[0]);
    assert ClaimPositions(claims) == [0];
    TailNeedOf(1, [0]);
    LoneTail();
  }

  lemma LoneMeans(claims: seq<Claim>, n: nat)
    ensures Lone(claims, n) <==> n == 1 && |claims| == 1 && claims[0].pos == 0
  {
  }

  lemma LoneRoot(v: seq<Hash>, x: Hash, items: seq<Hash>)
    requires |v| == 1 && CalculateRoot([Claim(0, x)], MmrSize(1), items) == Ok(Root(v))
    ensures x == v[0]
  {
    hide *;
    OneLeafSize();
    FirstPosition(0);
    Shortcut(x, 0, 1, items);
    OneLeafBag(v);
  }

  lemma {:induction false} Shortcut(x: Hash, p: nat, size: nat, items: seq<Hash>)
    requires p == 0 && size == 1 && Height(p) == 0
    ensures CalculateRoot([Claim(p, x)], size, items) == Ok(x)
  {
    hide WalkPeaks, Height, LeafCount, Peaks, Canonical;
    assert Bag([x]) == x;
  }

  lemma OneLeafBag(v: seq<Hash>)
    requires |v| == 1
    ensures Root(v) == v[0]
  {
    assert Peaks(1) == [Coord(0, 0)];
    assert Subtree(v, 0, 0) == v[0];
    hide Subtree, PeaksFrom;
    assert PeakHashes(v, [Coord(0, 0)]) == [v[0]];
  }

  lemma LoneTail()
    ensures Tail(Peaks(1), [0]) == 0
  {
    assert Peaks(1) == [Coord(0, 0)];
    assert Below([Coord(0, 0)], [0]) == 1;
  }

  lemma RootOfWalk(claims: seq<Claim>, n: nat, items: seq<Hash>)
    requires ValidPositions(ClaimPositions(claims), n) && !Lone(claims, n)
    ensures CalculateRoot(claims, MmrSize(n), items) ==
              match Collect(WalkPeaks(Peaks(n), Entries(Canonical(claims, ClaimPos)), items))
              case Err(e) => Err(e)
              case Ok(hashes) => if hashes == [] then Err(InvalidProof) else Ok(Bag(hashes))
  {
    hide *;
    NoHighClaims(claims, n);
    LeafCountOfSize(n);
    OneNodeRange(n);
    LoneMeans(claims, n);
    RootOf(claims, MmrSize(n), items);
  }

  /** The excluded length is a real exception: in a three-leaf range the last leaf can be
      claimed for position 0 with one item, none being left for the second peak. */
  lemma ShortProofMisplaces(a: Hash, b: Hash, c: Hash)
    ensures CalculateRoot([Claim(0, c)], MmrSize(3), [Node(a, b)]) == Ok(Root([a, b, c]))
    ensures TailOf(3, [0]) == 1 && NeedOf(3, [0]) == 1
    ensures ClaimsHold([a, b, c], [Claim(0, c)]) <==> a == c
  {
    hide *;
    ThreeLeafRoot(a, b, c);
    OneClaim(c, 0);
    SizeThree();
    PeaksThree();
    ShortWalk(a, b, c);
    var x := Node(c, Node(a, b));
    assert [x] + [] == [x];
    CollectOf([x]);
    RootOf([Claim(0, c)], 4, [Node(a, b)]);
    HoldsOfOne([a, b, c], Claim(0, c));
    TailNeedOf(3, [0]);
  }

  lemma TailNeedOf(n: nat, posList: seq<nat>)
    ensures NeedOf(n, posList) == Need(Peaks(n), LeafIndices(Canonical(posList, SelfKey)))
    ensures TailOf(n, posList) == Tail(Peaks(n), LeafIndices(Canonical(posList, SelfKey)))
  {
  }

  lemma CollectOf(hashes: seq<Hash>)
    ensures Collect(Walked(hashes, [], [])) == Ok(hashes)
    ensures |hashes| == 1 ==> Bag(hashes) == hashes[0]
  {
    assert hashes + [] == hashes;
  }

  lemma {:induction false} RootOf(claims: seq<Claim>, size: nat, items: seq<Hash>)
    requires !exists c :: c in claims && Height(c.pos) > 0
    requires !(size == 1 && |claims| == 1 && claims[0].pos == 0)
    ensures CalculateRoot(claims, size, items) ==
              match Collect(WalkPeaks(Peaks(LeafCount(size)), Entries(Canonical(claims, ClaimPos)), items))
              case Err(e) => Err(e)
              case Ok(hashes) => if hashes == [] then Err(InvalidProof) else Ok(Bag(hashes))
  {
    hide Collect, WalkPeaks, Peaks, LeafCount, Entries, Canonical, Height, Bag;
  }

  lemma {:induction false} HoldsOfOne(v: seq<Hash>, claim: Claim)
    requires LeafCount(claim.pos) < |v| && Canonical([claim], ClaimPos) == [claim]
    ensures ClaimsHold(v, [claim]) <==> claim.x == v[LeafCount(claim.pos)]
  {
    hide LeafCount, Canonical;
    assert claim in [claim];
  }

  lemma {:induction false} OneClaim(x: Hash, p: nat)
    requires p == 0
    ensures Canonical([Claim(p, x)], ClaimPos) == [Claim(p, x)]
    ensures LeafCount(p) == 0
    ensures !exists c :: c in [Claim(p, x)] && Height(c.pos) > 0
    ensures Entries([Claim(p, x)]) == [Entry(0, x)]
    ensures LeafIndices(Canonical([p], SelfKey)) == [0]
  {
    hide *;
    FirstPosition(p);
    CanonicalOfOne(Claim(p, x), ClaimPos);
    CanonicalOfOne(p, SelfKey);
    assert Entries([Claim(p, x)]) == [Entry(0, x)];
    assert LeafIndices([p]) == [0];
  }

  lemma {:induction false} FirstPosition(p: nat)
    requires p == 0
    ensures LeafCount(p) == 0 && Height(p) == 0
  {
    assert MmrSize(0) == 0;
    LeafCountUnique(p, 0);
  }

  lemma {:induction false} SizeThree()
    ensures MmrSize(3) == 4 && LeafCount(4) == 3
  {
    assert Popcount(1) == 1;
    assert Popcount(3) == 2;
    LeafCountOfSize(3);
  }

  lemma PeaksThree()
    ensures Peaks(3) == [Coord(0, 1), Coord(2, 0)]
  {
    assert PeaksFrom(0, 2) == [];
    assert PeaksFrom(1, 1) == [Coord(0, 1)];
    assert PeaksFrom(3, 0) == PeaksFrom(1, 1) + [Coord(2, 0)];
  }

  lemma ThreeLeafRoot(a: Hash, b: Hash, c: Hash)
    ensures Root([a, b, c]) == Node(c, Node(a, b))
  {
    var v := [a, b, c];
    assert Subtree(v, 0, 0) == a && Subtree(v, 1, 0) == b && Subtree(v, 2, 0) == c;
    assert Subtree(v, 0, 1) == Node(a, b);
    hide *;
    PeaksThree();
    RootMeans(v);
    assert PeakHashes(v, [Coord(0, 1), Coord(2, 0)]) == [Node(a, b), c];
    BagOfTwo(Node(a, b), c, c);
  }

  lemma ShortWalk(a: Hash, b: Hash, c: Hash)
    ensures WalkPeaks([Coord(0, 1), Coord(2, 0)], [Entry(0, c)], [Node(a, b)])
         == Walked([Node(c, Node(a, b))], [], [])
    ensures Need([Coord(0, 1), Coord(2, 0)], [0]) == 1 && Tail([Coord(0, 1), Coord(2, 0)], [0]) == 1
  {
    var peaks, es, items := [Coord(0, 1), Coord(2, 0)], [Entry(0, c)], [Node(a, b)];
    assert Indices(es) == [0];
    assert Shl(1, 1) == 2;
    assert Below(peaks, [0]) == 1;
    assert LevelUp(es, items) == Climbed([Entry(0, Node(c, Node(a, b)))], []) by {
      assert Parent(es[0], items[0]) == Entry(0, Node(c, Node(a, b)));
      assert LevelUp([], []) == Climbed([], []);
    }
    assert es[..1] == es && es[1..] == [] && peaks[1..] == [Coord(2, 0)];
    assert Climb(es, items, 1) == Climbed([Entry(0, Node(c, Node(a, b)))], []);
    assert TakePeak(peaks, es, items) == Taken(Node(c, Node(a, b)), []);
    TrailingWalk([Coord(2, 0)], []);
    assert EmitCount([0], 1) == 1 by {
      assert Missing([0]) == [1];
    }
    assert [0][..1] == [0] && [0][1..] == [];
  }
}
