/** The dense tree drawn as a tree: how many positions its height allows, where the next
    value goes, and that the digest is the left-to-right fold of that tree. */
module DenseShape {
  import opened Wrappers
  import opened Endian
  import opened DenseHash

  // ---- capacity ------------------------------------------------------------------------

  /** The number of steps from a position up to the root. */
  function Depth(p: nat): nat {
    if p == 0 then 0 else 1 + Depth(ParentOf(p))
  }

  /** The capacity counts exactly the positions fewer than `height` steps below the root. */
  lemma {:induction false} CapacityIsDepth(height: nat, p: nat)
    ensures p < Capacity(height) <==> Depth(p) < height
    decreases p
  {
    if height > 0 {
      CapacityStep(height - 1);
      if p > 0 {
        CapacityIsDepth(height - 1, ParentOf(p));
      }
    } else {
      assert Capacity(0) == 0;
    }
  }

  lemma CapacityStep(h: nat)
    ensures Capacity(h + 1) == 2 * Capacity(h) + 1
  {
  }

  // ---- the tree of a list of values ------------------------------------------------------

  datatype Tree = Hollow | Filled(value: Bytes, left: Tree, right: Tree)

  /** `blake3` over the value's hash, the left digest and the right digest, in this order; a
      missing child counts as 32 zero bytes. */
  function Digest(h: Hashing, t: Tree): Bytes {
    match t
    case Hollow => seq(32, _ => 0)
    case Filled(x, l, r) => h.node(h.value(x), Digest(h, l), Digest(h, r))
  }

  datatype Turn = GoLeft | GoRight

  /** The way from the root: odd positions are left children, even ones right children. */
  function Way(p: nat): seq<Turn> {
    if p == 0 then [] else Way((p - 1) / 2) + [if p % 2 == 1 then GoLeft else GoRight]
  }

  /** The tree with one value put at the end of a way. */
  function Put(t: Tree, way: seq<Turn>, x: Bytes): Tree {
    if way == [] then Filled(x, Hollow, Hollow)
    else match t
      case Hollow => Hollow
      case Filled(y, l, r) =>
        if way[0] == GoLeft then Filled(y, Put(l, way[1..], x), r) else Filled(y, l, Put(r, way[1..], x))
  }

  /** The values put in one after the other, each at the next position. */
  function Grown(values: seq<Bytes>): Tree {
    if values == [] then Hollow
    else Put(Grown(values[..|values| - 1]), Way(|values| - 1), values[|values| - 1])
  }

  // ---- the fold --------------------------------------------------------------------------

  /** The subtree at a position. */
  function Subtree(values: seq<Bytes>, pos: nat): Tree
    decreases |values| - pos
  {
    if pos >= |values| then Hollow
    else Filled(values[pos], Subtree(values, Left(pos)), Subtree(values, Right(pos)))
  }

  /** The way from `pos` down to a position under it. */
  function WayFrom(pos: nat, p: nat): seq<Turn>
    decreases p
  {
    if p <= pos then [] else WayFrom(pos, ParentOf(p)) + [if p % 2 == 1 then GoLeft else GoRight]
  }

  lemma {:induction false} WayIsFromRoot(p: nat)
    ensures Way(p) == WayFrom(0, p)
  {
    if p > 0 {
      WayIsFromRoot(ParentOf(p));
    }
  }

  /** The first turn leads to the child the position is under. */
  lemma {:induction false} FirstTurn(pos: nat, p: nat)
    requires Under(pos, p) && p > pos
    ensures Under(Left(pos), p) ==> WayFrom(pos, p) == [GoLeft] + WayFrom(Left(pos), p)
    ensures Under(Right(pos), p) ==> WayFrom(pos, p) == [GoRight] + WayFrom(Right(pos), p)
    decreases p
  {
    hide *;
    UnderUp(pos, p);
    if ParentOf(p) == pos {
      TurnHere(pos, p);
    } else {
      UnderChildren(pos, ParentOf(p));
      UnderChildren(pos, p);
      UnderUp(Left(pos), p);
      UnderUp(Right(pos), p);
      FirstTurn(pos, ParentOf(p));
      TurnOn(pos, p);
      NotBoth(pos, p);
    }
  }

  lemma UnderUp(pos: nat, p: nat)
    ensures Under(pos, p) && p > pos ==> p > 0 && Under(pos, ParentOf(p)) && pos <= ParentOf(p) < p
    ensures Under(pos, p) ==> pos <= p
  {
    if Under(pos, p) {
      UnderAbove(pos, p);
      if p > pos {
        UnderAbove(pos, ParentOf(p));
      }
    }
  }

  /** The last step of a way that is longer than one. */
  lemma NotBoth(pos: nat, p: nat)
    requires p > 0 && ParentOf(p) > pos
    ensures Under(Left(pos), p) && p != Left(pos) ==> Under(Left(pos), ParentOf(p))
    ensures Under(Right(pos), p) && p != Right(pos) ==> Under(Right(pos), ParentOf(p))
    ensures p != Left(pos) && p != Right(pos)
  {
  }

  lemma TurnHere(pos: nat, p: nat)
    requires p > 0 && ParentOf(p) == pos
    ensures Under(Left(pos), p) ==> WayFrom(pos, p) == [GoLeft] + WayFrom(Left(pos), p)
    ensures Under(Right(pos), p) ==> WayFrom(pos, p) == [GoRight] + WayFrom(Right(pos), p)
  {
    assert p == Left(pos) || p == Right(pos);
    assert WayFrom(pos, pos) == [] && WayFrom(p, p) == [];
    UnderAtOrAbove(Left(pos), p);
    UnderAtOrAbove(Right(pos), p);
    UnderSibling(pos);
    hide Under;
  }

  lemma UnderAtOrAbove(pos: nat, p: nat)
    ensures Under(pos, p) ==> pos <= p
  {
    if Under(pos, p) {
      UnderAbove(pos, p);
    }
  }

  lemma UnderSibling(pos: nat)
    ensures !Under(Left(pos), Right(pos))
  {
    assert ParentOf(Right(pos)) == pos;
    UnderAtOrAbove(Left(pos), pos);
  }

  lemma TurnOn(pos: nat, p: nat)
    requires p > pos && ParentOf(p) > pos
    ensures var last := [if p % 2 == 1 then GoLeft else GoRight];
            && WayFrom(pos, p) == WayFrom(pos, ParentOf(p)) + last
            && (Under(Left(pos), ParentOf(p)) ==> WayFrom(Left(pos), p) == WayFrom(Left(pos), ParentOf(p)) + last)
            && (Under(Right(pos), ParentOf(p)) ==> WayFrom(Right(pos), p) == WayFrom(Right(pos), ParentOf(p)) + last)
  {
    UnderAtOrAbove(Left(pos), ParentOf(p));
    UnderAtOrAbove(Right(pos), ParentOf(p));
    hide Under;
  }

  /** A further value changes the subtrees above it, by putting it at the end of its way. */
  lemma {:induction false} OneMore(values: seq<Bytes>, x: Bytes, pos: nat)
    ensures Subtree(values + [x], pos) ==
              if Under(pos, |values|) then Put(Subtree(values, pos), WayFrom(pos, |values|), x)
              else Subtree(values, pos)
    decreases |values| + 1 - pos
  {
    var n, more := |values|, values + [x];
    if pos < n {
      OneMore(values, x, Left(pos));
      OneMore(values, x, Right(pos));
      UnderChildren(pos, n);
      if Under(pos, n) {
        FirstTurn(pos, n);
      }
    } else {
      if Under(pos, n) { UnderAbove(pos, n); }
    }
  }

  lemma {:induction false} GrownIsSubtree(values: seq<Bytes>)
    ensures Grown(values) == Subtree(values, 0)
  {
    if values != [] {
      var init, last := values[..|values| - 1], values[|values| - 1];
      GrownIsSubtree(init);
      OneMore(init, last, 0);
      UnderRoot(|init|);
      WayIsFromRoot(|init|);
      assert values == init + [last];
    }
  }

  lemma ZeroIs()
    ensures ZERO == seq(32, _ => 0)
  {
    ZeroBytes(32);
  }

  lemma {:induction false} HashIsDigest(h: Hashing, values: seq<Bytes>, cap: nat, pos: nat)
    requires |values| <= cap
    ensures HashNode(h, values, cap, pos) == Digest(h, Subtree(values, pos))
    decreases cap - pos
  {
    ZeroIs();
    if pos < |values| {
      HashIsDigest(h, values, cap, Left(pos));
      HashIsDigest(h, values, cap, Right(pos));
    }
  }

  /** The root of a dense tree is the digest of the tree its values grow. */
  lemma RootIsDigest(h: Hashing, values: seq<Bytes>, cap: nat)
    requires |values| <= cap
    ensures RootOf(h, values, cap) == Digest(h, Grown(values))
  {
    GrownIsSubtree(values);
    HashIsDigest(h, values, cap, 0);
    ZeroIs();
  }
}
