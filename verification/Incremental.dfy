/** Proving that one mountain range grew into another.

    The proof of the newest leaves lists the peaks of the older range: first the
    peaks both ranges share, then the others from right to left. `verify_incremental`
    undoes that reordering, so the same items authenticate the old root. */
module Incremental {
  import opened Wrappers
  import opened Bits
  import opened Positions
  import opened Mountain
  import opened Walk
  import opened PeakWalk
  import opened Sorting
  import opened MerkleProof

  function Range(a: nat, b: nat): (r: seq<nat>)
    ensures |r| == if a <= b then b - a else 0
    ensures forall j :: 0 <= j < |r| ==> r[j] == a + j
  {
    seq(if a <= b then b - a else 0, j requires 0 <= j => a + j)
  }

  function Reverse<T>(s: seq<T>): (r: seq<T>)
    ensures |r| == |s|
    ensures forall j :: 0 <= j < |s| ==> r[j] == s[|s| - 1 - j]
  {
    seq(|s|, j requires 0 <= j < |s| => s[|s| - 1 - j])
  }

  // ---- peaks by their digits ------------------------------------------------

  /** Peaks for the `b` lowest digits of `n`. */
  function LowPeaks(n: nat, b: nat, k: nat): seq<Coord>
    decreases b
  {
    if b == 0 then []
    else LowPeaks(n / 2, b - 1, k + 1) + (if n % 2 == 1 then [Coord(n - 1, k)] else [])
  }

  lemma {:induction false} PeaksSplit(n: nat, b: nat, k: nat)
    ensures PeaksFrom(n, k) == PeaksFrom(Shr(n, b), k + b) + LowPeaks(n, b, k)
    decreases b
  {
    if b > 0 {
      PeaksSplit(n / 2, b - 1, k + 1);
      if n > 0 {
        assert PeaksFrom(n, k)
            == PeaksFrom(n / 2, k + 1) + (if n % 2 == 1 then [Coord(n - 1, k)] else []);
      }
    }
  }

  /** The low peaks tile what the high digits leave over. */
  lemma {:induction false} LowPeaksTile(n: nat, b: nat, k: nat)
    ensures Tiles(LowPeaks(n, b, k), Shl(Shr(n, b), k + b), Shl(n, k))
    decreases b
  {
    if b > 0 {
      LowPeaksUnfold(n, b, k);
      hide LowPeaks, Shl, Tiles, Shr;
      var high := LowPeaks(n / 2, b - 1, k + 1);
      LowPeaksTile(n / 2, b - 1, k + 1);
      ShlDouble(n / 2, k);
      TileOne(high, 2 * (n / 2), k, Shl(Shr(n, b), k + b));
    }
  }

  lemma LowPeaksUnfold(n: nat, b: nat, k: nat)
    requires b > 0
    ensures n == 2 * (n / 2) ==> LowPeaks(n, b, k) == LowPeaks(n / 2, b - 1, k + 1)
    ensures n != 2 * (n / 2) ==>
              n == 2 * (n / 2) + 1 && LowPeaks(n, b, k) == LowPeaks(n / 2, b - 1, k + 1) + [Coord(2 * (n / 2), k)]
    ensures Shr(n / 2, b - 1) == Shr(n, b)
  {
  }

  /** The highest digit in which two numbers differ. */
  function DiffBit(m: nat, n: nat): (b: nat)
    requires m < n
    ensures Shr(m, b) % 2 == 0
    ensures Shr(n, b) == Shr(m, b) + 1
  {
    if m / 2 == n / 2 then 0 else 1 + DiffBit(m / 2, n / 2)
  }

  /** Peaks of the smaller range: the shared ones, then its own. */
  function Shared(m: nat, n: nat): seq<Coord>
    requires m < n
  {
    PeaksFrom(Shr(m, DiffBit(m, n)), DiffBit(m, n))
  }

  function Own(m: nat, n: nat): seq<Coord>
    requires m < n
  {
    LowPeaks(m, DiffBit(m, n), 0)
  }

  /** The peak of the larger range that swallows the smaller one's own peaks. */
  function Swallow(m: nat, n: nat): Coord
    requires m < n
  {
    Coord(Shr(m, DiffBit(m, n)), DiffBit(m, n))
  }

  lemma SharedMeans(m: nat, n: nat)
    requires m < n
    ensures var b := DiffBit(m, n);
            && Shared(m, n) == PeaksFrom(Shr(m, b), b)
            && Own(m, n) == LowPeaks(m, b, 0)
            && Swallow(m, n) == Coord(Shr(m, b), b)
            && Peaks(m) == PeaksFrom(m, 0) && Peaks(n) == PeaksFrom(n, 0)
            && Shl(m, 0) == m && Shl(n, 0) == n && 0 + b == b
  {
  }

  lemma NextPeak(c: nat, b: nat)
    requires c % 2 == 0
    ensures PeaksFrom(c + 1, b) == PeaksFrom(c, b) + [Coord(c, b)]
  {
    assert (c + 1) / 2 == c / 2;
  }

  /** How the two peak lists line up. */
  lemma PeaksNest(m: nat, n: nat)
    requires m < n
    ensures Peaks(m) == Shared(m, n) + Own(m, n)
    ensures Peaks(n) == Shared(m, n) + [Swallow(m, n)] + LowPeaks(n, DiffBit(m, n), 0)
    ensures var c := Swallow(m, n);
            && Tiles(Shared(m, n), 0, Shl(c.i, c.h))
            && Tiles(Own(m, n), Shl(c.i, c.h), m)
            && Tiles(LowPeaks(n, c.h, 0), Shl(c.i + 1, c.h), n)
            && Shl(c.i, c.h) <= m < Shl(c.i + 1, c.h) <= n
  {
    hide *;
    SharedMeans(m, n);
    var b := DiffBit(m, n);
    var c := Shr(m, b);
    assert Peaks(m) == PeaksFrom(c, b) + LowPeaks(m, b, 0) by { PeaksSplit(m, b, 0); }
    assert Peaks(n) == PeaksFrom(c + 1, b) + LowPeaks(n, b, 0) by { PeaksSplit(n, b, 0); }
    NextPeak(c, b);
    assert Tiles(PeaksFrom(c, b), 0, Shl(c, b)) by { PeaksTile(c, b); }
    LowPeaksTile(m, b, 0);
    LowPeaksTile(n, b, 0);
    ShrBounds(m, b);
    ShrBounds(n, b);
  }

  // ---- what the prover emits for a run of newest leaves ----------------------

  /** A run of whole pairs needs no sibling. */
  lemma {:induction false} PairedRun(k: nat, e: nat)
    requires k <= e
    ensures NextLevel(Range(2 * k, 2 * e)) == Range(k, e)
    ensures Missing(Range(2 * k, 2 * e)) == []
    decreases e - k
  {
    var r := Range(2 * k, 2 * e);
    if k < e {
      assert Paired(r) && r[0] / 2 == k;
      assert r[2..] == Range(2 * (k + 1), 2 * e);
      PairedRun(k + 1, e);
      RunHead(k, e);
    }
  }

  /** One level of a run that ends at an even boundary. */
  lemma RunLevel(a: nat, e: nat)
    requires a <= 2 * e
    ensures NextLevel(Range(a, 2 * e)) == Range(a / 2, e)
    ensures Missing(Range(a, 2 * e)) == if a % 2 == 1 then [a - 1] else []
  {
    var k := (a + 1) / 2;
    PairedRun(k, e);
    if a % 2 == 1 {
      var r := Range(a, 2 * e);
      assert !Paired(r) && r[1..] == Range(2 * k, 2 * e) && r[0] / 2 == k - 1;
      RunHead(k - 1, e);
    } else {
      assert a == 2 * k;
    }
  }

  lemma RunHead(a: nat, b: nat)
    requires a < b
    ensures Range(a, b) == [a] + Range(a + 1, b)
  {
  }

  /** Climbing a run needs exactly the peaks left of it, smallest first. */
  lemma {:induction false} RunEmit(v: seq<Hash>, a: nat, e: nat, h: nat, k: nat)
    requires a <= Shl(e, k)
    ensures Emit(v, Range(a, Shl(e, k)), h, k) == Reverse(PeakHashes(v, LowPeaks(a, k, h)))
    decreases k
  {
    if k == 0 {
    } else {
      RunLevel(a, Shl(e, k - 1));
      RunEmit(v, a / 2, e, h + 1, k - 1);
      var high := LowPeaks(a / 2, k - 1, h + 1);
      if a % 2 == 1 {
        assert LowPeaks(a, k, h) == high + [Coord(a - 1, h)];
        ReverseAppend(PeakHashes(v, high), Subtree(v, a - 1, h));
        assert PeakHashes(v, high + [Coord(a - 1, h)]) == PeakHashes(v, high) + [Subtree(v, a - 1, h)];
        assert HashesAt(v, [a - 1], h) == [Subtree(v, a - 1, h)];
      } else {
        assert LowPeaks(a, k, h) == high;
      }
    }
  }

  lemma ReverseAppend<T>(s: seq<T>, x: T)
    ensures Reverse(s + [x]) == [x] + Reverse(s)
  {
  }

  /** A number of whole trees has no low peaks. */
  lemma {:induction false} NoLowPeaks(i: nat, k: nat, h: nat)
    ensures LowPeaks(Shl(i, k), k, h) == []
    decreases k
  {
    if k > 0 {
      NoLowPeaks(i, k - 1, h + 1);
      assert Shl(i, k) / 2 == Shl(i, k - 1);
    }
  }

  /** Splitting a run at a peak. */
  lemma {:induction false} RunBelow(a: nat, b: nat, bound: nat)
    requires a <= bound <= b
    ensures CountBelow(Range(a, b), bound) == bound - a
    decreases bound - a
  {
    if a < bound {
      assert Range(a, b)[1..] == Range(a + 1, b);
      RunBelow(a + 1, b, bound);
    }
  }

  lemma RunSplit(a: nat, b: nat, c: nat)
    requires a <= b <= c
    ensures Range(a, c)[..b - a] == Range(a, b)
    ensures Range(a, c)[b - a..] == Range(b, c)
  {
  }

  /** The first peak with leaves of the run takes the run's part below it. */
  lemma FirstPeakRun(v: seq<Hash>, peaks: seq<Coord>, m: nat, n: nat)
    requires peaks != []
    requires var c := peaks[0]; Shl(c.i, c.h) <= m < Shl(c.i + 1, c.h) <= n
    ensures var c := peaks[0];
            var rest := Range(Shl(c.i + 1, c.h), n);
            && GenRoots(v, peaks, Range(m, n))
                 == Reverse(PeakHashes(v, LowPeaks(m, c.h, 0))) + GenRoots(v, peaks[1..], rest)
            && Tail(peaks, Range(m, n)) == Tail(peaks[1..], rest)
  {
    hide Emit, Shl, LowPeaks, CountBelow, Range, PeakHashes, Reverse;
    var c := peaks[0];
    var next := Shl(c.i + 1, c.h);
    RunBelow(m, n, next);
    RunSplit(m, next, n);
    RunEmit(v, m, c.i + 1, 0, c.h);
  }

  /** A run that covers every remaining peak needs no items. */
  lemma {:induction false} CoveredPeaks(v: seq<Hash>, peaks: seq<Coord>, from: nat, to: nat)
    requires Tiles(peaks, from, to)
    ensures GenRoots(v, peaks, Range(from, to)) == []
    ensures Tail(peaks, Range(from, to)) == 0
    decreases |peaks|
  {
    hide *;
    if peaks == [] {
      GenRootsNone(v, peaks, Range(from, to));
    } else {
      var c := peaks[0];
      var next := Shl(c.i + 1, c.h);
      TilesHead(peaks, from, to);
      CoveredPeaks(v, peaks[1..], next, to);
      assert from < next <= to by { TilesBounds(peaks[1..], next, to); ShlAdd(c.i, 1, c.h); }
      FirstPeakRun(v, peaks, from, to);
      NoLowPeaks(c.i, c.h, 0);
      NoPeakHashes(v);
    }
  }

  /** Peaks before the run travel as they are. */
  lemma {:induction false} PeaksBeforeRun(v: seq<Hash>, before: seq<Coord>, peaks: seq<Coord>, idx: seq<nat>,
                                          from: nat, start: nat)
    requires Tiles(before, from, start)
    requires idx != [] && forall j :: 0 <= j < |idx| ==> idx[j] >= start
    ensures GenRoots(v, before + peaks, idx) == PeakHashes(v, before) + GenRoots(v, peaks, idx)
    ensures Tail(before + peaks, idx) == Tail(peaks, idx)
    decreases |before|
  {
    hide *;
    if before == [] {
      assert before + peaks == peaks;
      NoPeakHashes(v);
    } else {
      var c, all := before[0], before + peaks;
      assert all[1..] == before[1..] + peaks;
      TilesHead(before, from, start);
      PeaksBeforeRun(v, before[1..], peaks, idx, Shl(c.i + 1, c.h), start);
      TilesBounds(before[1..], Shl(c.i + 1, c.h), start);
      PeakWithoutLeaves(v, all, idx, start);
      SharedHead(v, before, GenRoots(v, peaks, idx));
    }
  }

  lemma SharedHead(v: seq<Hash>, cs: seq<Coord>, g: seq<Hash>)
    requires cs != []
    ensures PeakHashes(v, cs) + g == [Subtree(v, cs[0].i, cs[0].h)] + (PeakHashes(v, cs[1..]) + g)
  {
    hide Subtree;
    PeakHashesHead(v, cs);
  }

  lemma PeakWithoutLeaves(v: seq<Hash>, peaks: seq<Coord>, idx: seq<nat>, start: nat)
    requires peaks != [] && Shl(peaks[0].i + 1, peaks[0].h) <= start
    requires idx != [] && forall j :: 0 <= j < |idx| ==> idx[j] >= start
    ensures Below(peaks, idx) == 0
    ensures GenRoots(v, peaks, idx) == [Subtree(v, peaks[0].i, peaks[0].h)] + GenRoots(v, peaks[1..], idx)
    ensures Tail(peaks, idx) == Tail(peaks[1..], idx)
  {
    hide Shl, Subtree;
    assert Below(peaks, idx) == 0;
    assert idx[0..] == idx;
  }

  /** The proof of the newest leaves: shared peaks, then the older range's own peaks
      from right to left. */
  lemma RunProof(v: seq<Hash>, m: nat, n: nat)
    requires m < n
    ensures GenPeaks(v, Peaks(n), Range(m, n))
         == PeakHashes(v, Shared(m, n)) + Reverse(PeakHashes(v, Own(m, n)))
  {
    hide *;
    SharedMeans(m, n);
    var c := Swallow(m, n);
    var low := LowPeaks(n, c.h, 0);
    var rest := [c] + low;
    var next := Shl(c.i + 1, c.h);
    PeaksNest(m, n);
    assert Peaks(n) == Shared(m, n) + rest;
    assert rest[0] == c && rest[1..] == low;
    var run, shared, own := Range(m, n), PeakHashes(v, Shared(m, n)), Reverse(PeakHashes(v, Own(m, n)));
    assert GenRoots(v, rest, run) == own && Tail(rest, run) == 0 by {
      FirstPeakRun(v, rest, m, n);
      CoveredPeaks(v, low, next, n);
      assert own + [] == own;
    }
    assert run[0] == m;
    PeaksBeforeRun(v, Shared(m, n), rest, run, 0, Shl(c.i, c.h));
    NoTrailing(v, Peaks(n), run);
  }

  // ---- the verifier -----------------------------------------------------------

  /** First place where the older peak lies before the newer one, else the last. */
  function FirstBefore(prev: seq<nat>, cur: seq<nat>, i: nat): (r: nat)
    requires |prev| > 0
    ensures r < |prev|
    decreases |prev| - i
  {
    if i < |prev| && i < |cur| then
      if prev[i] < cur[i] then i else FirstBefore(prev, cur, i + 1)
    else |prev| - 1
  }

  function Reorder(items: seq<Hash>, r: nat): seq<Hash>
    requires r <= |items|
  {
    items[..r] + Reverse(items[r..])
  }

  function NewClaims(m: nat, incremental: seq<Hash>): (cs: seq<Claim>)
    ensures |cs| == |incremental|
    ensures forall j :: 0 <= j < |cs| ==> cs[j] == Claim(LeafIndexToPos(m + j), incremental[j])
  {
    seq(|incremental|, j requires 0 <= j < |incremental| => Claim(LeafIndexToPos(m + j), incremental[j]))
  }

  /** `verify_incremental` */
  function VerifyIncremental(mmrSize: nat, items: seq<Hash>, root: Hash, prevRoot: Hash, incremental: seq<Hash>)
    : Result<bool, Error>
  {
    var n := LeafCount(mmrSize);
    if n <= |incremental| then Err(InvalidProof)
    else
      var m := n - |incremental|;
      var prev := PeakPositions(Peaks(LeafCount(LeafIndexToMmrSize(m - 1))));
      if |prev| != |items| || |prev| == 0 then Err(InvalidProof)
      else
        var peaks := Reorder(items, FirstBefore(prev, PeakPositions(Peaks(n)), 0));
        if Bag(peaks) != prevRoot then Ok(false)
        else match CalculateRoot(NewClaims(m, incremental), mmrSize, items)
          case Err(e) => Err(e)
          case Ok(x) => Ok(x == root)
  }

  lemma {:induction false} ScanEqual(prev: seq<nat>, cur: seq<nat>, i: nat, s: nat)
    requires |prev| > 0 && i <= s <= |prev| && s <= |cur|
    requires forall j :: i <= j < s ==> prev[j] == cur[j]
    ensures FirstBefore(prev, cur, i) == FirstBefore(prev, cur, s)
    decreases s - i
  {
    if i < s {
      ScanEqual(prev, cur, i + 1, s);
    }
  }

  /** The older range's first own peak lies before the peak that swallows it. */
  lemma OwnBeforeSwallow(m: nat, n: nat)
    requires m < n && Own(m, n) != []
    ensures var o, c := Own(m, n)[0], Swallow(m, n); Pos(o.i, o.h) < Pos(c.i, c.h)
  {
    hide *;
    PeaksNest(m, n);
    var o, c := Own(m, n)[0], Swallow(m, n);
    TilesBounds(Own(m, n), Shl(c.i, c.h), m);
    assert o in Own(m, n);
    LastLeafOrder(o, c);
  }

  lemma LastLeafOrder(o: Coord, c: Coord)
    requires Shl(o.i + 1, o.h) < Shl(c.i + 1, c.h)
    ensures Pos(o.i, o.h) < Pos(c.i, c.h)
  {
    PosOrder(o.i, o.h, c.i, c.h);
  }

  /** The scan finds the end of the shared peaks. */
  lemma ScanPeaks(m: nat, n: nat)
    requires 0 < m < n
    ensures |Peaks(m)| > 0
    ensures FirstBefore(PeakPositions(Peaks(m)), PeakPositions(Peaks(n)), 0)
         == if Own(m, n) == [] then |Peaks(m)| - 1 else |Shared(m, n)|
  {
    PeaksCount(m, 0);
    hide Peaks, Shared, Own, Swallow, LowPeaks, Pos, PeaksFrom, Popcount;
    PeaksNest(m, n);
    var prev, cur, s := PeakPositions(Peaks(m)), PeakPositions(Peaks(n)), |Shared(m, n)|;
    forall j | 0 <= j < s ensures prev[j] == cur[j] {
      assert Peaks(m)[j] == Shared(m, n)[j] == Peaks(n)[j];
    }
    ScanEqual(prev, cur, 0, s);
    if Own(m, n) != [] {
      OwnBeforeSwallow(m, n);
      assert Peaks(m)[s] == Own(m, n)[0] && Peaks(n)[s] == Swallow(m, n);
    }
  }

  /** Undoing the order in which the prover lists the older peaks. */
  lemma ReorderUndo(shared: seq<Hash>, own: seq<Hash>, items: seq<Hash>)
    requires |items| == |shared| + |own| > 0
    ensures var r := if own == [] then |items| - 1 else |shared|;
            Reorder(items, r) == shared + own <==> items == shared + Reverse(own)
  {
    if own == [] {
      var r := |items| - 1;
      assert Reverse(items[r..]) == items[r..] && Reverse(own) == [];
      assert items[..r] + items[r..] == items;
    } else {
      var r := |shared|;
      assert items == items[..r] + items[r..];
      ReverseSwap(items[r..], own);
      SplitEqual(items[..r], Reverse(items[r..]), shared, own);
      SplitEqual(items[..r], items[r..], shared, Reverse(own));
    }
  }

  lemma ReverseSwap<T>(s: seq<T>, t: seq<T>)
    ensures Reverse(s) == t <==> s == Reverse(t)
  {
    assert Reverse(Reverse(s)) == s && Reverse(Reverse(t)) == t;
  }

  lemma SplitEqual<T>(a: seq<T>, b: seq<T>, c: seq<T>, d: seq<T>)
    requires |a| == |c|
    ensures a + b == c + d <==> a == c && b == d
  {
    if a + b == c + d {
      assert a == (a + b)[..|a|] && c == (c + d)[..|a|];
      assert b == (a + b)[|a|..] && d == (c + d)[|a|..];
    }
  }

  /** The new claims are the leaf positions from `m` on, in order. */
  lemma NewClaimsFit(v: seq<Hash>, m: nat, incremental: seq<Hash>)
    requires |v| == m + |incremental| && incremental != []
    ensures var cs := NewClaims(m, incremental);
            && ValidPositions(ClaimPositions(cs), |v|)
            && LeafIndices(Canonical(ClaimPositions(cs), SelfKey)) == Range(m, |v|)
            && (ClaimsHold(v, cs) <==> incremental == v[m..])
  {
    hide *;
    var cs := NewClaims(m, incremental);
    NewClaimsAscend(m, incremental);
    CanonicalOfStrict(cs, ClaimPos);
    CanonicalOfStrict(ClaimPositions(cs), SelfKey);
    NewPositions(m, incremental);
    NewClaimsHold(v, m, incremental);
  }

  lemma NewClaimsAscend(m: nat, incremental: seq<Hash>)
    ensures StrictlyAscending(NewClaims(m, incremental), ClaimPos)
    ensures StrictlyAscending(ClaimPositions(NewClaims(m, incremental)), SelfKey)
  {
    hide LeafIndexToPos, NewClaims, ClaimPositions;
    LeavesInOrder(m, m + |incremental|);
  }

  lemma NewPositions(m: nat, incremental: seq<Hash>)
    requires incremental != []
    ensures var ps := ClaimPositions(NewClaims(m, incremental));
            && ValidPositions(ps, m + |incremental|)
            && LeafIndices(ps) == Range(m, m + |incremental|)
  {
    hide LeafCount, Height, LeafIndexToPos;
    var ps := ClaimPositions(NewClaims(m, incremental));
    var end := m + |incremental|;
    LeavesInOrder(m, end);
    forall j | 0 <= j < |ps| ensures LeafCount(ps[j]) == m + j && Height(ps[j]) == 0 {
      assert ps[j] == LeafIndexToPos(m + j);
    }
    assert LeafIndices(ps) == Range(m, end);
  }

  lemma NewClaimsHold(v: seq<Hash>, m: nat, incremental: seq<Hash>)
    requires |v| == m + |incremental|
    requires Canonical(NewClaims(m, incremental), ClaimPos) == NewClaims(m, incremental)
    ensures ClaimsHold(v, NewClaims(m, incremental)) <==> incremental == v[m..]
  {
    hide *;
    var cs := NewClaims(m, incremental);
    LeavesInOrder(m, m + |cs|);
    ClaimsHoldAt(v, cs);
    forall j | 0 <= j < |cs| ensures LeafCount(cs[j].pos) == m + j && cs[j].x == incremental[j] {
      assert cs[j] == Claim(LeafIndexToPos(m + j), incremental[j]);
    }
  }

  lemma ClaimsHoldAt(v: seq<Hash>, cs: seq<Claim>)
    requires Canonical(cs, ClaimPos) == cs
    ensures ClaimsHold(v, cs) <==>
              forall j :: 0 <= j < |cs| ==> LeafCount(cs[j].pos) < |v| && cs[j].x == v[LeafCount(cs[j].pos)]
  {
    hide LeafCount, Canonical;
    if ClaimsHold(v, cs) {
      forall j | 0 <= j < |cs| ensures LeafCount(cs[j].pos) < |v| && cs[j].x == v[LeafCount(cs[j].pos)] {
        assert cs[j] in cs;
      }
    }
  }

  lemma {:induction false} LeavesInOrder(a: nat, b: nat)
    ensures forall i :: a <= i < b ==> LeafCount(LeafIndexToPos(i)) == i && Height(LeafIndexToPos(i)) == 0
    ensures forall i, j :: a <= i < j < b ==> LeafIndexToPos(i) < LeafIndexToPos(j)
  {
    hide LeafCount, Height;
    forall i | a <= i < b ensures LeafCount(LeafIndexToPos(i)) == i && Height(LeafIndexToPos(i)) == 0 {
      PosInBlock(i, 0);
    }
    forall i, j | a <= i < j < b ensures LeafIndexToPos(i) < LeafIndexToPos(j) {
      PosOrder(i, 0, j, 0);
    }
  }

  /** Peaks of a prefix of the leaves are subtrees of the whole. */
  lemma PrefixRoot(v: seq<Hash>, m: nat)
    requires 0 < m <= |v|
    ensures Peaks(m) != []
    ensures Root(v[..m]) == Bag(PeakHashes(v, Peaks(m)))
  {
    PeaksOfRange(m);
    PeakHashesFrame(v[..m], v, Peaks(m), 0, m);
  }

  /** `verify_incremental` against the real root of the current range. With another number
      of items than the older range has peaks it is an invalid proof; else it answers, and
      the answer is whether the incremental leaves are the newest leaves, the previous root
      is the root of the leaves before them, and the items are those of `gen_proof`. */
  lemma IncrementalExactly(v: seq<Hash>, m: nat, items: seq<Hash>, prevRoot: Hash, incremental: seq<Hash>)
    requires 0 < m < |v| && |incremental| == |v| - m
    ensures GenProof(v, ClaimPositions(NewClaims(m, incremental))).Ok?
    ensures VerifyIncremental(MmrSize(|v|), items, Root(v), prevRoot, incremental) ==
              if |items| != Popcount(m) then Err(InvalidProof)
              else Ok(&& incremental == v[m..]
                      && prevRoot == Root(v[..m])
                      && GenProof(v, ClaimPositions(NewClaims(m, incremental))) == Ok(items))
  {
    hide *;
    var n := |v|;
    NewLeafProof(v, m, incremental);
    LeafCountOfSize(n);
    PrevPeaks(m);
    PeaksOfRange(m);
    PeaksCount(m, 0);
    PeaksIs(m);
    VerifyUnfold(MmrSize(n), items, Root(v), prevRoot, incremental, m);
    if |items| == |Peaks(m)| {
      BothRoots(v, m, items, prevRoot, incremental);
      AcceptsExactly(v, NewClaims(m, incremental), items);
    }
  }

  lemma PeaksIs(n: nat)
    ensures Peaks(n) == PeaksFrom(n, 0)
  {
  }

  lemma BothRoots(v: seq<Hash>, m: nat, items: seq<Hash>, prevRoot: Hash, incremental: seq<Hash>)
    requires 0 < m < |v| && |incremental| == |v| - m
    requires Peaks(m) != [] && |items| == |Peaks(m)|
    ensures var r := FirstBefore(PeakPositions(Peaks(m)), PeakPositions(Peaks(|v|)), 0);
            Bag(Reorder(items, r)) == prevRoot
              && CalculateRoot(NewClaims(m, incremental), MmrSize(|v|), items) == Ok(Root(v))
            <==>
            incremental == v[m..] && prevRoot == Root(v[..m])
              && items == GenPeaks(v, Peaks(|v|), Range(m, |v|))
  {
    hide *;
    NewLeafProof(v, m, incremental);
    AcceptsExactly(v, NewClaims(m, incremental), items);
    OlderPeaks(v, m, items);
  }

  /** The items authenticate the older root exactly when they list its peaks. */
  lemma OlderPeaks(v: seq<Hash>, m: nat, items: seq<Hash>)
    requires 0 < m < |v| && |items| == |Peaks(m)| > 0
    ensures var r := FirstBefore(PeakPositions(Peaks(m)), PeakPositions(Peaks(|v|)), 0);
            Bag(Reorder(items, r)) == Root(v[..m]) <==> items == GenPeaks(v, Peaks(|v|), Range(m, |v|))
  {
    hide *;
    var n := |v|;
    var shared, own := PeakHashes(v, Shared(m, n)), PeakHashes(v, Own(m, n));
    ScanPeaks(m, n);
    RunProof(v, m, n);
    assert PeakHashes(v, Peaks(m)) == shared + own by {
      PeaksNest(m, n);
      PeakHashesConcat(v, Shared(m, n), Own(m, n));
    }
    PrefixRoot(v, m);
    ReorderUndo(shared, own, items);
    var r := FirstBefore(PeakPositions(Peaks(m)), PeakPositions(Peaks(n)), 0);
    ReorderLength(items, r);
    BagOfPeaks(Reorder(items, r), shared + own);
  }

  lemma ReorderLength(items: seq<Hash>, r: nat)
    requires r <= |items|
    ensures |Reorder(items, r)| == |items|
  {
  }

  /** The proof of the newest leaves has as many items as the older range has peaks. */
  lemma NewLeafProof(v: seq<Hash>, m: nat, incremental: seq<Hash>)
    requires |v| == m + |incremental| && incremental != []
    ensures var cs := NewClaims(m, incremental);
            var g := GenPeaks(v, Peaks(|v|), Range(m, |v|));
            && ValidPositions(ClaimPositions(cs), |v|)
            && (ClaimsHold(v, cs) <==> incremental == v[m..])
            && GenProof(v, ClaimPositions(cs)) == Ok(g)
            && |g| == |Peaks(m)|
  {
    hide *;
    var cs := NewClaims(m, incremental);
    NewClaimsFit(v, m, incremental);
    GenProofValid(v, ClaimPositions(cs));
    RunProof(v, m, |v|);
    PeaksNest(m, |v|);
  }

  /** Without new leaves the answer is whether the items are the current peaks and the
      previous root is the current one. */
  lemma IncrementalNothingNew(v: seq<Hash>, items: seq<Hash>, prevRoot: Hash)
    requires |v| > 0
    ensures VerifyIncremental(MmrSize(|v|), items, Root(v), prevRoot, []) ==
              if |items| != Popcount(|v|) then Err(InvalidProof)
              else Ok(prevRoot == Root(v) && items == PeakHashes(v, Peaks(|v|)))
  {
    hide *;
    var n := |v|;
    LeafCountOfSize(n);
    PrevPeaks(n);
    PeaksOfRange(n);
    PeaksCount(n, 0);
    PeaksIs(n);
    VerifyUnfold(MmrSize(n), items, Root(v), prevRoot, [], n);
    RootMeans(v);
    if |items| == |Peaks(n)| {
      var ps := PeakPositions(Peaks(n));
      ScanEqual(ps, ps, 0, |ps|);
      ScanEnd(ps);
      ReorderUndo(items, [], items);
      assert items + [] == items && items + Reverse([]) == items;
      RootWithoutLeaves(n, items);
      BagOfPeaks(items, PeakHashes(v, Peaks(n)));
    }
  }

  /** The incremental leaves can never be all leaves of the range. */
  lemma IncrementalTooMany(v: seq<Hash>, items: seq<Hash>, root: Hash, prevRoot: Hash, incremental: seq<Hash>)
    requires |incremental| >= |v|
    ensures VerifyIncremental(MmrSize(|v|), items, root, prevRoot, incremental) == Err(InvalidProof)
  {
    hide LeafCount, CalculateRoot, Peaks, Bag, Reorder;
    LeafCountOfSize(|v|);
  }

  lemma ScanEnd(ps: seq<nat>)
    requires |ps| > 0
    ensures FirstBefore(ps, ps, |ps|) == |ps| - 1
  {
  }

  /** With no leaves every peak comes from the items. */
  lemma RootWithoutLeaves(n: nat, items: seq<Hash>)
    requires Peaks(n) != [] && |items| == |Peaks(n)|
    ensures CalculateRoot(NewClaims(n, []), MmrSize(n), items) == Ok(Bag(items))
  {
    hide Bag, Peaks, LeafCount, WalkPeaks;
    LeafCountOfSize(n);
    assert NewClaims(n, []) == [];
    assert Entries(Canonical([], ClaimPos)) == [];
    TrailingWalk(Peaks(n), items);
    assert items[..|items|] + [] == items;
  }

  lemma PeakHashesConcat(v: seq<Hash>, a: seq<Coord>, b: seq<Coord>)
    ensures PeakHashes(v, a + b) == PeakHashes(v, a) + PeakHashes(v, b)
  {
  }

  lemma BagOfPeaks(a: seq<Hash>, b: seq<Hash>)
    requires |a| == |b| > 0
    ensures Bag(a) == Bag(b) <==> a == b
  {
    if Bag(a) == Bag(b) {
      BagInjective(a, b);
    }
  }

  lemma {:induction false} PrevPeaks(m: nat)
    requires m > 0
    ensures LeafCount(LeafIndexToMmrSize(m - 1)) == m
  {
    hide LeafCount, Popcount;
    LeafCountOfSize(m);
  }

  lemma {:induction false} VerifyUnfold(mmrSize: nat, items: seq<Hash>, root: Hash, prevRoot: Hash,
                                        incremental: seq<Hash>, m: nat)
    requires m > 0 && LeafCount(mmrSize) == m + |incremental| && Peaks(m) != []
    requires LeafCount(LeafIndexToMmrSize(m - 1)) == m
    ensures var r := FirstBefore(PeakPositions(Peaks(m)), PeakPositions(Peaks(m + |incremental|)), 0);
            var x := CalculateRoot(NewClaims(m, incremental), mmrSize, items);
            VerifyIncremental(mmrSize, items, root, prevRoot, incremental) ==
              if |items| != |Peaks(m)| then Err(InvalidProof)
              else if Bag(Reorder(items, r)) != prevRoot then Ok(false)
              else if x.Err? then Err(x.error) else Ok(x.value == root)
  {
    hide LeafCount, CalculateRoot, Peaks, Bag, Reorder, LeafIndexToMmrSize, FirstBefore, NewClaims;
  }

  lemma NoPeakHashes(v: seq<Hash>)
    ensures PeakHashes(v, []) == [] && Reverse(PeakHashes(v, [])) == []
  {
  }
}
