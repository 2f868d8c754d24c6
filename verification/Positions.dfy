/** Position arithmetic of the mountain range.

    Nodes are stored in insertion order. The node over the leaves
    `[i * 2^h, (i + 1) * 2^h)` has height `h` and *index* `i`; `Pos(i, h)` is its
    position. Everything the position loops compute is stated in these two
    coordinates. */
module Positions {
  import opened Bits

  const U64_MAX: nat := 0xFFFF_FFFF_FFFF_FFFF

  type u64 = n: nat | n <= U64_MAX

  /** Number of nodes of a mountain range with `n` leaves. */
  function MmrSize(n: nat): (r: nat)
    ensures n <= r <= 2 * n
  {
    2 * n - Popcount(n)
  }

  /** Leaf `n` and the parents it completes fill one block of positions. */
  lemma SizeStep(n: nat)
    ensures MmrSize(n + 1) == MmrSize(n) + 1 + TrailingOnes(n)
  {
    PopcountIncrement(n);
  }

  lemma {:induction false} SizeMonotone(a: nat, b: nat)
    requires a < b
    ensures MmrSize(a) + 1 + TrailingOnes(a) <= MmrSize(b)
    decreases b
  {
    SizeStep(b - 1);
    if a < b - 1 {
      SizeMonotone(a, b - 1);
    } else {
      SizeStep(a);
    }
  }

  /** The largest leaf count whose mountain range fits in `size` positions. */
  function LeafCount(size: nat): (n: nat)
    ensures MmrSize(n) <= size < MmrSize(n + 1)
  {
    if size == 0 then
      NoLeafFits(); 0
    else
      NextCount(size, LeafCount(size - 1))
  }

  /** The largest count for `size`, from the one for the size before it. */
  function NextCount(size: nat, n: nat): (next: nat)
    requires MmrSize(n) <= size - 1 < MmrSize(n + 1)
    ensures MmrSize(next) <= size < MmrSize(next + 1)
  {
    LeafCountStep(size, n);
    if MmrSize(n + 1) <= size then n + 1 else n
  }

  lemma LeafCountStep(size: nat, n: nat)
    requires MmrSize(n) <= size - 1 < MmrSize(n + 1)
    ensures var next := if MmrSize(n + 1) <= size then n + 1 else n;
            MmrSize(next) <= size < MmrSize(next + 1)
  {
    hide MmrSize, TrailingOnes;
    SizeStep(n + 1);
  }

  lemma NoLeafFits()
    ensures MmrSize(0) == 0 < MmrSize(1)
  {
    SizeStep(0);
  }

  lemma {:induction false} LeafCountUnique(size: nat, n: nat)
    requires MmrSize(n) <= size < MmrSize(n + 1)
    ensures LeafCount(size) == n
  {
    hide LeafCount, MmrSize;
    var c := LeafCount(size);
    if c < n {
      SizeMonotone(c, n);
      SizeStep(c);
    } else if n < c {
      SizeMonotone(n, c);
      SizeStep(n);
    }
  }

  lemma {:induction false} LeafCountOfSize(n: nat)
    ensures LeafCount(MmrSize(n)) == n
  {
    SizeStep(n);
    LeafCountUnique(MmrSize(n), n);
  }

  /** How far `pos` lies beyond the last complete mountain range before it. */
  function Height(pos: nat): (h: nat)
    ensures h <= TrailingOnes(LeafCount(pos))
  {
    SizeStep(LeafCount(pos));
    pos - MmrSize(LeafCount(pos))
  }

  /** Position of the node with index `i` at height `h`. */
  function Pos(i: nat, h: nat): nat {
    ShlGap(i, h);
    2 * Shl(i + 1, h) - 2 - Popcount(i)
  }

  lemma ShlGap(i: nat, h: nat)
    ensures Shl(i + 1, h) >= 1 + i
  {
  }

  /** The last leaf below the node at `Pos(i, h)`. */
  function LastLeaf(i: nat, h: nat): nat {
    Shl(i + 1, h) - 1
  }

  lemma {:induction false} PosInBlock(i: nat, h: nat)
    ensures Pos(i, h) == MmrSize(LastLeaf(i, h)) + h
    ensures LeafCount(Pos(i, h)) == LastLeaf(i, h)
    ensures Height(Pos(i, h)) == h
  {
    OnesBelowMultiple(i, h);
    PopcountBelowMultiple(i, h);
    hide Popcount, TrailingOnes, LeafCount, Shl;
    SizeStep(LastLeaf(i, h));
    LeafCountUnique(Pos(i, h), LastLeaf(i, h));
  }

  lemma PosInjective(i: nat, h: nat, i': nat, h': nat)
    requires Pos(i, h) == Pos(i', h')
    ensures i == i' && h == h'
  {
    hide LeafCount, Pos;
    PosInBlock(i, h);
    PosInBlock(i', h');
    if i < i' {
      ShlAdd(i + 1, i' - i, h);
    } else if i' < i {
      ShlAdd(i' + 1, i - i', h);
    }
  }

  /** Every position is the position of exactly one node. */
  lemma {:induction false} PosSurjective(pos: nat)
    ensures Pos(Shr(LeafCount(pos), Height(pos)), Height(pos)) == pos
    ensures LastLeaf(Shr(LeafCount(pos), Height(pos)), Height(pos)) == LeafCount(pos)
  {
    hide *;
    var n, h := LeafCount(pos), Height(pos);
    HeightIs(pos);
    MultipleAboveOnes(n, h);
    LastLeafMeans(Coord(Shr(n, h), h));
    PosInBlock(Shr(n, h), h);
  }

  lemma {:induction false} HeightIs(pos: nat)
    ensures pos == MmrSize(LeafCount(pos)) + Height(pos) && Height(pos) <= TrailingOnes(LeafCount(pos))
  {
    hide MmrSize, TrailingOnes;
  }

  /** Positions are ordered by last leaf. */
  lemma PosOrder(i: nat, h: nat, i': nat, h': nat)
    requires LastLeaf(i, h) < LastLeaf(i', h')
    ensures Pos(i, h) < Pos(i', h')
  {
    PosInBlock(i, h);
    PosInBlock(i', h');
    SizeMonotone(LastLeaf(i, h), LastLeaf(i', h'));
  }

  function ParentOffset(height: nat): nat {
    Shl(2, height)
  }

  function SiblingOffset(height: nat): nat {
    Shl(2, height) - 1
  }

  /** The successor of a right child is its parent; a left child's is a leaf. */
  lemma {:induction false} NextHeight(i: nat, h: nat)
    ensures Height(Pos(i, h) + 1) > h <==> i % 2 == 1
  {
    if i % 2 == 1 {
      AfterRightChild(i, h);
    } else {
      AfterLeftChild(i, h);
    }
  }

  lemma {:induction false} AfterRightChild(i: nat, h: nat)
    requires i % 2 == 1
    ensures Height(Pos(i, h) + 1) == h + 1
  {
    TrailingOnesParity(i);
    hide LeafCount, TrailingOnes, Shl, Popcount, MmrSize, Pos;
    PosInBlock(i, h);
    OnesBelowMultiple(i, h);
    SizeStep(LastLeaf(i, h));
    LeafCountUnique(Pos(i, h) + 1, LastLeaf(i, h));
  }

  lemma {:induction false} AfterLeftChild(i: nat, h: nat)
    requires i % 2 == 0
    ensures Height(Pos(i, h) + 1) == 0
  {
    TrailingOnesParity(i);
    hide *;
    PosInBlock(i, h);
    OnesBelowLast(i, h);
    SizeStep(LastLeaf(i, h));
    assert Pos(i, h) + 1 == MmrSize(LastLeaf(i, h) + 1);
    HeightOfSize(LastLeaf(i, h) + 1);
  }

  lemma OnesBelowLast(i: nat, h: nat)
    ensures TrailingOnes(LastLeaf(i, h)) == h + TrailingOnes(i)
  {
    OnesBelowMultiple(i, h);
  }

  lemma {:induction false} HeightOfSize(n: nat)
    ensures Height(MmrSize(n)) == 0
  {
    hide LeafCount, MmrSize;
    LeafCountOfSize(n);
  }

  /** Relatives of the left child `2 * k` and of the right child `2 * k + 1`. */
  lemma Family(k: nat, h: nat)
    ensures Pos(k, h + 1) == Pos(2 * k + 1, h) + 1
    ensures Pos(2 * k + 1, h) == Pos(2 * k, h) + SiblingOffset(h)
    ensures Pos(k, h + 1) == Pos(2 * k, h) + ParentOffset(h)
  {
    hide Popcount;
    ShlDouble(k + 1, h);
    ShlAdd(2 * k + 1, 1, h);
    ShlDouble(1, h);
    PopcountDouble(k);
  }

  /** `leaf_index_to_mmr_size` */
  function LeafIndexToMmrSize(index: nat): nat {
    2 * (index + 1) - Popcount(index + 1)
  }

  /** `leaf_index_to_pos` */
  function LeafIndexToPos(index: nat): (pos: nat)
    ensures pos == Pos(index, 0)
  {
    SizeStep(index);
    TrailingZerosOfSuccessor(index);
    LeafIndexToMmrSize(index) - TrailingZeros(index + 1) - 1
  }

  /** `hash_count_for_push`: the nodes by which one leaf makes the range longer. */
  function HashCountForPush(leafCount: nat): (count: nat)
    ensures MmrSize(leafCount + 1) == MmrSize(leafCount) + count
  {
    SizeStep(leafCount);
    1 + TrailingOnes(leafCount)
  }

  /** Leaf positions are exactly the positions of height zero, one per index. */
  lemma {:induction false} LeafPositions(pos: nat)
    ensures Height(pos) == 0 <==> exists index :: LeafIndexToPos(index) == pos
    ensures Height(pos) == 0 ==> LeafIndexToPos(LeafCount(pos)) == pos
    ensures forall index :: LeafIndexToPos(index) == pos ==> index == LeafCount(pos)
  {
    PosSurjective(pos);
    if Height(pos) == 0 {
      assert LeafIndexToPos(LeafCount(pos)) == pos;
    }
    forall index | LeafIndexToPos(index) == pos
      ensures index == LeafCount(pos) && Height(pos) == 0
    {
      PosInBlock(index, 0);
    }
  }

  /** Below the documented leaf bound no intermediate value leaves 64 bits. */
  lemma LeafArithmeticFits(index: nat)
    requires index < 0x7FFF_FFFF_FFFF_FFFF
    ensures 2 * (index + 1) <= U64_MAX
    ensures LeafIndexToPos(index) < LeafIndexToMmrSize(index) <= U64_MAX
  {
  }

  // ---- the position loops ------------------------------------------------

  /** Invariant step shared by the three greedy loops: `m` holds the digits of
      the leaf count found so far and `k` digits are still open. */
  ghost predicate Greedy(size: nat, m: nat, k: nat) {
    MmrSize(Shl(m, k)) <= size < MmrSize(Shl(m + 1, k))
  }

  lemma GreedyStart(size: u64)
    ensures Greedy(size, 0, BitLength(size))
    ensures MmrSize(Shl(0, BitLength(size))) == 0
    ensures Shl(1, BitLength(size)) - 1 <= U64_MAX
  {
    BitLengthBound(size);
    PopcountShl(1, BitLength(size));
    U64Digits(size);
  }

  /** One more digit: the tree of `Shl(1, k) - 1` nodes either fits or not. */
  lemma GreedyStep(size: nat, m: nat, k: nat)
    requires k > 0 && Greedy(size, m, k)
    ensures size >= MmrSize(Shl(m, k)) + Shl(1, k) - 1 ==>
              && Greedy(size, 2 * m + 1, k - 1)
              && MmrSize(Shl(2 * m + 1, k - 1)) == MmrSize(Shl(m, k)) + Shl(1, k) - 1
    ensures size < MmrSize(Shl(m, k)) + Shl(1, k) - 1 ==>
              && Greedy(size, 2 * m, k - 1)
              && MmrSize(Shl(2 * m, k - 1)) == MmrSize(Shl(m, k))
  {
    hide Shl, MmrSize;
    SizeOfHalves(m, k);
  }

  lemma GreedyBound(size: nat, m: nat, k: nat)
    requires Greedy(size, m, k)
    ensures m <= size
  {
    hide Shl;
  }

  lemma HalvedPeak(k: nat)
    requires Shl(1, k) > 1
    ensures k > 0
    ensures (Shl(1, k) - 1) / 2 == Shl(1, k - 1) - 1
  {
  }

  lemma SizeOfHalves(m: nat, k: nat)
    requires k > 0
    ensures MmrSize(Shl(2 * m + 1, k - 1)) == MmrSize(Shl(m, k)) + Shl(1, k) - 1
    ensures MmrSize(Shl(2 * m, k - 1)) == MmrSize(Shl(m, k))
    ensures Shl(2 * m + 2, k - 1) == Shl(m + 1, k)
  {
    hide Popcount, Shl, MmrSize;
    SizeOfShl(m, k);
    SizeOfShl(2 * m, k - 1);
    SizeOfShl(2 * m + 1, k - 1);
    PopcountDouble(m);
    ShlDouble(m, k);
    ShlAdd(2 * m, 1, k);
    ShlDouble(m + 1, k - 1);
  }

  lemma SizeOfShl(m: nat, k: nat)
    ensures MmrSize(Shl(m, k)) == Shl(m, k + 1) - Popcount(m)
  {
    hide Popcount;
    PopcountShl(m, k);
  }

  lemma {:induction false} GreedyEnd(size: nat, m: nat, k: nat)
    requires Shl(1, k) == 1 && Greedy(size, m, k)
    ensures k == 0
    ensures LeafCount(size) == m
    ensures MmrSize(Shl(m, k)) == MmrSize(m)
  {
    LeafCountUnique(size, m);
  }

  /** `get_peak_map`: the greedy digits spell the largest fitting leaf count. */
  method GetPeakMap(mmrSize: u64) returns (peakMap: u64)
    ensures peakMap == LeafCount(mmrSize)
  {
    hide Popcount, LeafCount, BitLength, Shl, MmrSize, Greedy;
    GreedyStart(mmrSize);
    if mmrSize == 0 {
      LeafCountUnique(0, 0);
      return 0;
    }
    var pos: u64 := mmrSize;
    ghost var k: nat := BitLength(mmrSize);
    var peakSize: u64 := Shl(1, BitLength(mmrSize)) - 1;
    peakMap := 0;
    while peakSize > 0
      invariant peakSize == Shl(1, k) - 1
      invariant Greedy(mmrSize, peakMap, k)
      invariant pos == mmrSize - MmrSize(Shl(peakMap, k))
      decreases k
    {
      HalvedPeak(k);
      GreedyStep(mmrSize, peakMap, k);
      GreedyBound(mmrSize, if pos >= peakSize then 2 * peakMap + 1 else 2 * peakMap, k - 1);
      peakMap := 2 * peakMap;
      if pos >= peakSize {
        pos := pos - peakSize;
        peakMap := peakMap + 1;
      }
      peakSize := peakSize / 2;
      k := k - 1;
    }
    GreedyEnd(mmrSize, peakMap, k);
  }

  lemma U64Digits(n: u64)
    ensures Shl(1, BitLength(n)) - 1 <= U64_MAX
  {
    hide BitLength;
    Word64();
    if BitLength(n) > 64 {
      BitLengthLower(n);
      Pow2Monotone(64, BitLength(n) - 1);
    }
    Pow2Monotone(BitLength(n), 64);
  }

  lemma Word64()
    ensures Shl(1, 64) == U64_MAX + 1
  {
    assert Shl(1, 4) == 16;
    Pow2Square(4);
    Pow2Square(8);
    Pow2Square(16);
    Pow2Square(32);
  }

  lemma {:induction false} BitLengthLower(n: nat)
    requires BitLength(n) > 0
    ensures Shl(1, BitLength(n) - 1) <= n
  {
    if n > 1 {
      BitLengthLower(n / 2);
    }
  }

  lemma {:induction false} Pow2Monotone(a: nat, b: nat)
    requires a <= b
    ensures Shl(1, a) <= Shl(1, b)
    decreases b
  {
    if a < b {
      Pow2Monotone(a, b - 1);
    }
  }

  /** `pos_height_in_tree` */
  method PosHeightInTree(pos: u64) returns (height: u64)
    ensures height == Height(pos)
  {
    hide Popcount, LeafCount, BitLength, Shl, MmrSize, Greedy;
    GreedyStart(pos);
    if pos == 0 {
      LeafCountUnique(0, 0);
      return 0;
    }
    var rest: u64 := pos;
    ghost var k: nat, m: nat := BitLength(pos), 0;
    var peakSize: u64 := Shl(1, BitLength(pos)) - 1;
    while peakSize > 0
      invariant peakSize == Shl(1, k) - 1
      invariant Greedy(pos, m, k)
      invariant rest == pos - MmrSize(Shl(m, k))
      decreases k
    {
      HalvedPeak(k);
      GreedyStep(pos, m, k);
      m := 2 * m;
      if rest >= peakSize {
        rest := rest - peakSize;
        m := m + 1;
      }
      peakSize := peakSize / 2;
      k := k - 1;
    }
    GreedyEnd(pos, m, k);
    return rest;
  }

  // ---- peaks -------------------------------------------------------------

  datatype Coord = Coord(i: nat, h: nat)

  /** Peaks of `n * 2^k` leaves, left to right: one per binary one of `n`. */
  function PeaksFrom(n: nat, k: nat): seq<Coord> {
    if n == 0 then []
    else PeaksFrom(n / 2, k + 1) + (if n % 2 == 1 then [Coord(n - 1, k)] else [])
  }

  function Peaks(n: nat): seq<Coord> {
    PeaksFrom(n, 0)
  }

  function PeakPositions(cs: seq<Coord>): (ps: seq<nat>)
    ensures |ps| == |cs|
    ensures forall j :: 0 <= j < |cs| ==> ps[j] == Pos(cs[j].i, cs[j].h)
  {
    seq(|cs|, j requires 0 <= j < |cs| => Pos(cs[j].i, cs[j].h))
  }

  /** `get_peaks` */
  method GetPeaks(mmrSize: u64) returns (peaks: seq<u64>)
    ensures peaks == PeakPositions(Peaks(LeafCount(mmrSize)))
  {
    hide Popcount, LeafCount, BitLength, Shl, MmrSize, Greedy, PeaksFrom, Pos;
    GreedyStart(mmrSize);
    PeaksFromZero(BitLength(mmrSize));
    if mmrSize == 0 {
      LeafCountUnique(0, 0);
      PeaksFromZero(0);
      return [];
    }
    var pos: u64 := mmrSize;
    ghost var k: nat, m: nat := BitLength(mmrSize), 0;
    var peakSize: u64 := Shl(1, BitLength(mmrSize)) - 1;
    peaks := [];
    var peaksSum: u64 := 0;
    while peakSize > 0
      invariant peakSize == Shl(1, k) - 1
      invariant Greedy(mmrSize, m, k)
      invariant peaksSum == MmrSize(Shl(m, k))
      invariant pos == mmrSize - peaksSum
      invariant peaks == PeakPositions(PeaksFrom(m, k))
      decreases k
    {
      HalvedPeak(k);
      GreedyStep(mmrSize, m, k);
      PeakStep(m, k);
      m := 2 * m;
      if pos >= peakSize {
        pos := pos - peakSize;
        peaks := peaks + [peaksSum + peakSize - 1];
        peaksSum := peaksSum + peakSize;
        m := m + 1;
      }
      peakSize := peakSize / 2;
      k := k - 1;
    }
    GreedyEnd(mmrSize, m, k);
  }

  lemma PeaksFromZero(k: nat)
    ensures PeaksFrom(0, k) == []
  {
  }

  lemma PeakStep(m: nat, k: nat)
    requires k > 0
    ensures Pos(2 * m, k - 1) == MmrSize(Shl(m, k)) + Shl(1, k) - 2
    ensures PeaksFrom(2 * m, k - 1) == PeaksFrom(m, k)
    ensures PeaksFrom(2 * m + 1, k - 1) == PeaksFrom(m, k) + [Coord(2 * m, k - 1)]
  {
    hide Popcount, Shl, MmrSize;
    SizeOfShl(m, k);
    PopcountDouble(m);
    PosOfEven(m, k);
  }

  lemma PosOfEven(m: nat, k: nat)
    requires k > 0
    ensures Pos(2 * m, k - 1) == Shl(m, k + 1) + Shl(1, k) - 2 - Popcount(m)
  {
    hide Popcount;
    PopcountDouble(m);
    ShlAdd(2 * m, 1, k - 1);
    ShlDouble(m, k - 1);
  }

  lemma LastLeafMeans(c: Coord)
    ensures LastLeaf(c.i, c.h) == Shl(c.i + 1, c.h) - 1
  {
  }

  /** The next leaf of a range goes to the first position after it. */
  lemma LeafAtEnd(n: nat)
    ensures Pos(n, 0) == MmrSize(n)
  {
  }

  lemma OneLeafSize()
    ensures MmrSize(1) == 1
  {
    assert Popcount(1) == 1;
  }

  lemma {:induction false} PosOfLeafFits(i: nat, mmrSize: nat)
    requires i < LeafCount(mmrSize)
    ensures LeafIndexToPos(i) < mmrSize
  {
    hide LeafCount, TrailingOnes;
    LeafPosMeans(i);
    if i + 1 < LeafCount(mmrSize) {
      SizeMonotone(i + 1, LeafCount(mmrSize));
    }
    SizeStep(i);
  }

  lemma LeafPosMeans(i: nat)
    ensures LeafIndexToPos(i) == MmrSize(i)
  {
    hide Popcount;
  }

  lemma PosBeforeSize(i: nat, h: nat, n: nat)
    requires Shl(i + 1, h) <= n
    ensures Pos(i, h) < MmrSize(n)
  {
    hide *;
    PosInBlock(i, h);
    HeightBound(Pos(i, h));
    LastLeafMeans(Coord(i, h));
    SizeMonotone(LastLeaf(i, h), n);
  }

  lemma {:induction false} HeightBound(p: nat)
    ensures Height(p) <= TrailingOnes(LeafCount(p))
  {
  }
}
