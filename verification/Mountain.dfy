/** The mountain range as an abstract object: free hash terms, the perfect
    subtrees over a sequence of leaf hashes, its peaks and its bagged root. */
module Mountain {
  import opened Wrappers
  import opened Bits
  import opened Positions

  /** Hashes as free terms. Leaf and internal inputs carry different domain
      tags, so the two constructors never collide. Nodes are compared and merged
      by hash only, so a node is identified with its hash term. */
  datatype Hash = Leaf(value: Bytes) | Node(left: Hash, right: Hash)

  /** Hash of the perfect subtree at index `i` and height `h`. */
  function Subtree(v: seq<Hash>, i: nat, h: nat): Hash
    decreases h
  {
    if h == 0 then (if i < |v| then v[i] else Leaf([]))
    else Node(Subtree(v, 2 * i, h - 1), Subtree(v, 2 * i + 1, h - 1))
  }

  function PeakHashes(v: seq<Hash>, cs: seq<Coord>): (hs: seq<Hash>)
    ensures |hs| == |cs|
    ensures forall j :: 0 <= j < |cs| ==> hs[j] == Subtree(v, cs[j].i, cs[j].h)
  {
    seq(|cs|, j requires 0 <= j < |cs| => Subtree(v, cs[j].i, cs[j].h))
  }

  /** Peaks bagged right to left, each time hashing (right, left). */
  function Bag(ps: seq<Hash>): Hash
    requires |ps| > 0
  {
    if |ps| == 1 then ps[0] else Node(Bag(ps[1..]), ps[0])
  }

  function Root(v: seq<Hash>): Hash
    requires |v| > 0
  {
    PeaksCount(|v|, 0);
    Bag(PeakHashes(v, Peaks(|v|)))
  }

  // ---- subtrees ----------------------------------------------------------

  /** A subtree depends only on the leaves below it. */
  lemma {:induction false} SubtreeFrame(v: seq<Hash>, w: seq<Hash>, i: nat, h: nat)
    requires Shl(i + 1, h) <= |v| && Shl(i + 1, h) <= |w|
    requires forall j :: Shl(i, h) <= j < Shl(i + 1, h) ==> v[j] == w[j]
    ensures Subtree(v, i, h) == Subtree(w, i, h)
    decreases h
  {
    hide *;
    if h == 0 {
      LeafSpan(v, i);
      LeafSpan(w, i);
    } else {
      ChildSpans(i, h - 1);
      SubtreeFrame(v, w, 2 * i, h - 1);
      SubtreeFrame(v, w, 2 * i + 1, h - 1);
      SubtreeUnfold(v, i, h);
      SubtreeUnfold(w, i, h);
    }
  }

  lemma LeafSpan(v: seq<Hash>, i: nat)
    ensures Shl(i, 0) == i && Shl(i + 1, 0) == i + 1
    ensures i < |v| ==> Subtree(v, i, 0) == v[i]
  {
  }

  lemma SubtreeUnfold(v: seq<Hash>, i: nat, h: nat)
    requires h > 0
    ensures Subtree(v, i, h) == Node(Subtree(v, 2 * i, h - 1), Subtree(v, 2 * i + 1, h - 1))
  {
  }

  // ---- bagging -----------------------------------------------------------

  /** Bagging a suffix first does not change the result. */
  lemma {:induction false} BagSplit(a: seq<Hash>, b: seq<Hash>)
    requires |b| > 0
    ensures Bag(a + b) == Bag(a + [Bag(b)])
  {
    if a == [] {
      assert a + b == b;
      assert a + [Bag(b)] == [Bag(b)];
    } else {
      BagSplit(a[1..], b);
      assert (a + b)[1..] == a[1..] + b;
      assert (a + [Bag(b)])[1..] == a[1..] + [Bag(b)];
    }
  }

  /** Equal bags of equally many peaks have equal peaks. */
  lemma {:induction false} BagInjective(a: seq<Hash>, b: seq<Hash>)
    requires |a| == |b| > 0
    requires Bag(a) == Bag(b)
    ensures a == b
  {
    if |a| > 1 {
      BagInjective(a[1..], b[1..]);
      assert a == [a[0]] + a[1..];
      assert b == [b[0]] + b[1..];
    }
  }

  /** `bag_peaks` */
  method BagPeaks(input: seq<Hash>) returns (bagged: Option<Hash>)
    ensures bagged == if input == [] then None else Some(Bag(input))
  {
    var peaks := input;
    while |peaks| > 1
      invariant |peaks| == 0 <==> |input| == 0
      invariant |peaks| > 0 ==> Bag(peaks) == Bag(input)
    {
      var n := |peaks|;
      var right, left := peaks[n - 1], peaks[n - 2];
      BagSplit(peaks[..n - 2], [left, right]);
      assert peaks == peaks[..n - 2] + [left, right];
      assert Bag([left, right]) == Node(right, left);
      peaks := peaks[..n - 2] + [Node(right, left)];
    }
    return if peaks == [] then None else Some(peaks[0]);
  }

  // ---- peaks -------------------------------------------------------------

  lemma {:induction false} PeaksCount(n: nat, k: nat)
    ensures |PeaksFrom(n, k)| == Popcount(n)
  {
    if n > 0 {
      PeaksCount(n / 2, k + 1);
    }
  }

  /** `cs` are consecutive subtrees over the leaves `[from, to)`. */
  predicate Tiles(cs: seq<Coord>, from: nat, to: nat) {
    if cs == [] then from == to
    else Shl(cs[0].i, cs[0].h) == from && Tiles(cs[1..], Shl(cs[0].i + 1, cs[0].h), to)
  }

  lemma {:induction false} TilesConcat(a: seq<Coord>, b: seq<Coord>, from: nat, mid: nat, to: nat)
    requires Tiles(a, from, mid) && Tiles(b, mid, to)
    ensures Tiles(a + b, from, to)
    decreases a
  {
    if a == [] {
      assert a + b == b;
    } else {
      TilesConcat(a[1..], b, Shl(a[0].i + 1, a[0].h), mid, to);
      assert (a + b)[1..] == a[1..] + b;
    }
  }

  /** Heights fall strictly from left to right. */
  predicate Descending(cs: seq<Coord>) {
    forall a, b :: 0 <= a < b < |cs| ==> cs[a].h > cs[b].h
  }

  /** The peaks are maximal: disjoint, adjacent, of strictly falling height. */
  lemma {:induction false} PeaksTile(n: nat, k: nat)
    ensures Tiles(PeaksFrom(n, k), 0, Shl(n, k))
  {
    PeaksFromUnfold(n, k);
    hide *;
    if n > 0 {
      PeaksTile(n / 2, k + 1);
      ShlDouble(n / 2, k);
      TileOne(PeaksFrom(n / 2, k + 1), 2 * (n / 2), k, 0);
    }
  }

  lemma PeaksFromUnfold(n: nat, k: nat)
    ensures n == 0 ==> Tiles(PeaksFrom(n, k), 0, Shl(n, k))
    ensures n > 0 && n == 2 * (n / 2) ==> PeaksFrom(n, k) == PeaksFrom(n / 2, k + 1)
    ensures n > 0 && n != 2 * (n / 2) ==>
              n == 2 * (n / 2) + 1 && PeaksFrom(n, k) == PeaksFrom(n / 2, k + 1) + [Coord(2 * (n / 2), k)]
  {
  }

  lemma TileOne(cs: seq<Coord>, i: nat, h: nat, from: nat)
    requires Tiles(cs, from, Shl(i, h))
    ensures Tiles(cs + [Coord(i, h)], from, Shl(i + 1, h))
  {
    hide Shl;
    var low := [Coord(i, h)];
    assert low[1..] == [] && Tiles(low, Shl(i, h), Shl(i + 1, h));
    TilesConcat(cs, low, from, Shl(i, h), Shl(i + 1, h));
  }

  lemma {:induction false} PeaksDescend(n: nat, k: nat)
    ensures Descending(PeaksFrom(n, k))
    ensures forall c :: c in PeaksFrom(n, k) ==> c.h >= k && c.i % 2 == 0
  {
    hide *;
    PeaksFromUnfold(n, k);
    if n == 0 {
      NoPeaksDescend(k);
    } else {
      PeaksDescend(n / 2, k + 1);
      if n % 2 == 1 {
        DescendOn(PeaksFrom(n / 2, k + 1), Coord(2 * (n / 2), k));
      }
    }
  }

  lemma NoPeaksDescend(k: nat)
    ensures PeaksFrom(0, k) == [] && Descending(PeaksFrom(0, k))
  {
  }

  lemma DescendOn(cs: seq<Coord>, c: Coord)
    requires Descending(cs) && forall d :: d in cs ==> d.h > c.h
    ensures Descending(cs + [c])
  {
  }

  /** The nodes below a peak fill one block of positions that ends with the peak, so peaks
      that tile the leaves tile the positions as well. */
  lemma PeakBlock(n: nat, c: Coord)
    requires c in Peaks(n)
    ensures Pos(c.i, c.h) + 1 == MmrSize(Shl(c.i + 1, c.h))
    ensures MmrSize(Shl(c.i + 1, c.h)) == MmrSize(Shl(c.i, c.h)) + 2 * Shl(1, c.h) - 1
  {
    hide PeaksFrom, Shl, Popcount;
    PeaksDescend(n, 0);
    PopcountDouble(c.i / 2);
    assert c.i == 2 * (c.i / 2);
    PopcountShl(c.i + 1, c.h);
    PopcountShl(c.i, c.h);
    ShlAdd(c.i, 1, c.h);
  }

  lemma {:induction false} TilesBounds(cs: seq<Coord>, from: nat, to: nat)
    requires Tiles(cs, from, to)
    ensures from <= to
    ensures forall c :: c in cs ==> from <= Shl(c.i, c.h) < Shl(c.i + 1, c.h) <= to
  {
    if cs != [] {
      ShlAdd(cs[0].i, 1, cs[0].h);
      TilesBounds(cs[1..], Shl(cs[0].i + 1, cs[0].h), to);
    }
  }

  lemma TilesGrow(cs: seq<Coord>, from: nat, to: nat)
    requires Tiles(cs, from, to) && cs != []
    ensures from < to
  {
    TilesBounds(cs, from, to);
    assert cs[0] in cs;
  }

  /** Growing a leaf sequence keeps every earlier peak. */
  lemma PeakHashesFrame(v: seq<Hash>, w: seq<Hash>, cs: seq<Coord>, from: nat, to: nat)
    requires Tiles(cs, from, to) && to <= |v| && to <= |w|
    requires forall j :: from <= j < to ==> v[j] == w[j]
    ensures PeakHashes(v, cs) == PeakHashes(w, cs)
  {
    TilesBounds(cs, from, to);
    forall j | 0 <= j < |cs|
      ensures Subtree(v, cs[j].i, cs[j].h) == Subtree(w, cs[j].i, cs[j].h)
    {
      assert cs[j] in cs;
      SubtreeFrame(v, w, cs[j].i, cs[j].h);
    }
  }

  lemma RangeTiles(n: nat)
    ensures Tiles(Peaks(n), 0, n)
  {
    PeaksTile(n, 0);
  }

  lemma TilesHead(peaks: seq<Coord>, from: nat, n: nat)
    requires peaks != [] && Tiles(peaks, from, n)
    ensures from == Shl(peaks[0].i, peaks[0].h)
    ensures Tiles(peaks[1..], Shl(peaks[0].i + 1, peaks[0].h), n)
  {
    hide Shl;
  }
}
