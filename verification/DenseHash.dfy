/** The hash of a dense tree: positions in level order, every node hashing its own value
    and its two children. The two hash functions are parameters, and only their
    injectivity is ever assumed. */
module DenseHash {
  import opened Wrappers
  import opened Bits
  import opened Endian

  /** A digest is a byte string; its length plays no role. */
  datatype Hashing = Hashing(value: Bytes -> Bytes, node: (Bytes, Bytes, Bytes) -> Bytes)

  ghost predicate Injective(h: Hashing) {
    && (forall a, b :: h.value(a) == h.value(b) ==> a == b)
    && (forall a, l, r, a', l', r' ::
          h.node(a, l, r) == h.node(a', l', r') ==> a == a' && l == l' && r == r')
  }

  const ZERO: Bytes := Be(0, 32)

  datatype DenseError = TreeFull | InvalidData | InvalidProof | StoreError

  function Capacity(height: nat): (cap: nat)
    ensures height > 0 ==> cap > 0
  {
    Shl(1, height) - 1
  }

  function Left(pos: nat): nat { 2 * pos + 1 }

  function Right(pos: nat): nat { 2 * pos + 2 }

  function ParentOf(pos: nat): nat
    requires pos > 0
  {
    (pos - 1) / 2
  }

  /** Hash of the subtree at `pos`; positions not filled hash to zero. */
  function HashNode(h: Hashing, values: seq<Bytes>, cap: nat, pos: nat): Bytes
    decreases cap - pos
  {
    if pos >= cap || pos >= |values| then ZERO
    else h.node(h.value(values[pos]), HashNode(h, values, cap, Left(pos)), HashNode(h, values, cap, Right(pos)))
  }

  function RootOf(h: Hashing, values: seq<Bytes>, cap: nat): Bytes {
    if values == [] then ZERO else HashNode(h, values, cap, 0)
  }

  // ---- which positions a hash computation visits -----------------------------------

  /** The filled positions of the subtree at `pos`, in the order they are hashed. */
  function Visited(count: nat, cap: nat, pos: nat): seq<nat>
    decreases cap - pos
  {
    if pos >= cap || pos >= count then []
    else [pos] + Visited(count, cap, Left(pos)) + Visited(count, cap, Right(pos))
  }

  /** Is `p` in the subtree at `pos`? */
  predicate Under(pos: nat, p: nat)
    decreases p
  {
    p == pos || (p > pos && Under(pos, ParentOf(p)))
  }

  lemma {:induction false} UnderRoot(p: nat)
    ensures Under(0, p)
  {
    if p > 0 {
      UnderRoot(ParentOf(p));
    }
  }

  lemma {:induction false} UnderAbove(pos: nat, p: nat)
    requires Under(pos, p)
    ensures pos <= p
  {
  }

  /** Below a node, a position is under exactly one child. */
  lemma {:induction false} UnderChildren(pos: nat, p: nat)
    ensures Under(pos, p) <==> p == pos || Under(Left(pos), p) || Under(Right(pos), p)
    ensures !(Under(Left(pos), p) && Under(Right(pos), p))
    ensures Under(Left(pos), p) || Under(Right(pos), p) ==> p > pos
    decreases p
  {
    if p > pos {
      var q := ParentOf(p);
      UnderChildren(pos, q);
      if q > pos {
        if Under(Left(pos), q) { UnderAbove(Left(pos), q); }
        if Under(Right(pos), q) { UnderAbove(Right(pos), q); }
      }
    }
  }

  /** Each filled position of a subtree is visited once, and nothing else is. */
  lemma {:induction false} VisitedOnce(count: nat, cap: nat, pos: nat, p: nat)
    requires count <= cap
    ensures multiset(Visited(count, cap, pos))[p] == if p < count && Under(pos, p) then 1 else 0
    decreases cap - pos
  {
    if pos >= count {
      if Under(pos, p) { UnderAbove(pos, p); }
    } else {
      var l, r := Visited(count, cap, Left(pos)), Visited(count, cap, Right(pos));
      VisitedOnce(count, cap, Left(pos), p);
      VisitedOnce(count, cap, Right(pos), p);
      UnderChildren(pos, p);
      assert multiset([pos] + l + r) == multiset{pos} + multiset(l) + multiset(r);
    }
  }

  function UpTo(n: nat): (m: multiset<nat>)
    ensures |m| == n
    ensures forall p: nat :: m[p] == if p < n then 1 else 0
  {
    if n == 0 then multiset{} else UpTo(n - 1) + multiset{n - 1}
  }

  /** Hashing from the root visits every filled position exactly once. */
  lemma RootVisitsAll(count: nat, cap: nat)
    requires count <= cap
    ensures |Visited(count, cap, 0)| == count
    ensures forall p: nat :: p in Visited(count, cap, 0) <==> p < count
  {
    var visited := Visited(count, cap, 0);
    var m: multiset<nat> := multiset(visited);
    forall p: nat ensures m[p] == UpTo(count)[p] {
      VisitedOnce(count, cap, 0, p);
      UnderRoot(p);
    }
    assert m == UpTo(count);
    forall p: nat ensures p in visited <==> p < count {
      assert p in visited <==> p in m;
    }
  }
}
