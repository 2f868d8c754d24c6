/** The proof generator of the dense tree, and that the verifier accepts what it makes. */
module DenseGenerate {
  import opened Wrappers
  import opened DenseHash
  import opened DenseTree
  import opened DenseProof

  /** A requested position or an ancestor of one. */
  predicate Expanded(positions: seq<nat>, q: nat) {
    exists j :: 0 <= j < |positions| && Under(q, positions[j])
  }

  // ---- what the generator emits, position by position --------------------------------

  function GenEntries(values: seq<Bytes>, positions: seq<nat>, n: nat): seq<Pair>
    requires n <= |values|
  {
    if n == 0 then []
    else GenEntries(values, positions, n - 1) + if n - 1 in positions then [Pair(n - 1, values[n - 1])] else []
  }

  function GenValueHashes(h: Hashing, values: seq<Bytes>, positions: seq<nat>, n: nat): seq<Pair>
    requires n <= |values|
  {
    if n == 0 then []
    else GenValueHashes(h, values, positions, n - 1)
         + if Expanded(positions, n - 1) && n - 1 !in positions then [Pair(n - 1, h.value(values[n - 1]))] else []
  }

  /** A child outside the expanded set is replaced by its hash. */
  function GenChild(h: Hashing, values: seq<Bytes>, cap: nat, positions: seq<nat>, c: nat): seq<Pair> {
    if c < cap && !Expanded(positions, c) then [Pair(c, HashNode(h, values, cap, c))] else []
  }

  function GenHashes(h: Hashing, values: seq<Bytes>, cap: nat, positions: seq<nat>, n: nat): seq<Pair>
    requires n <= |values|
  {
    if n == 0 then []
    else GenHashes(h, values, cap, positions, n - 1)
         + if !Expanded(positions, n - 1) then []
           else GenChild(h, values, cap, positions, Left(n - 1)) + GenChild(h, values, cap, positions, Right(n - 1))
  }

  /** `generate` over a tree holding `values`. */
  function GenProof(h: Hashing, values: seq<Bytes>, cap: nat, positions: seq<nat>): DenseTreeProof {
    DenseTreeProof(GenEntries(values, positions, |values|), GenValueHashes(h, values, positions, |values|),
                   GenHashes(h, values, cap, positions, |values|))
  }

  // ---- the generator's loops ---------------------------------------------------------

  /** The requested positions and all their ancestors. */
  method ExpandedSet(positions: seq<nat>) returns (all: set<nat>)
    ensures forall q: nat :: q in all <==> Expanded(positions, q)
  {
    all := {};
    var i := 0;
    while i < |positions|
      invariant 0 <= i <= |positions|
      invariant forall q: nat :: q in all <==> Expanded(positions[..i], q)
    {
      var pos := positions[i];
      var p := pos;
      ghost var before := all;
      all := all + {pos};
      while p > 0
        invariant all + Path(p) == before + Path(pos) && p in all && before <= all
        decreases p
      {
        p := ParentOf(p);
        all := all + {p};
      }
      assert all == before + Path(pos);
      forall q ensures q in all <==> Expanded(positions[..i + 1], q) {
        ExpandedAppend(positions, i, q);
      }
      i := i + 1;
    }
    assert positions[..i] == positions;
  }

  lemma ExpandedAppend(positions: seq<nat>, i: nat, q: nat)
    requires i < |positions|
    ensures Expanded(positions[..i + 1], q) <==> Expanded(positions[..i], q) || Under(q, positions[i])
  {
    if Expanded(positions[..i], q) {
      var j :| 0 <= j < i && Under(q, positions[..i][j]);
      assert positions[..i + 1][j] == positions[..i][j];
    }
    assert positions[..i + 1][i] == positions[i];
    if Expanded(positions[..i + 1], q) {
      var j :| 0 <= j < i + 1 && Under(q, positions[..i + 1][j]);
      if j < i {
        assert positions[..i][j] == positions[..i + 1][j];
      }
    }
  }

  method InRange(positions: seq<nat>, count: nat) returns (ok: bool)
    ensures ok <==> forall p :: p in positions ==> p < count
  {
    var i := 0;
    while i < |positions|
      invariant 0 <= i <= |positions|
      invariant forall j :: 0 <= j < i ==> positions[j] < count
    {
      if positions[i] >= count {
        assert positions[i] in positions;
        return false;
      }
      i := i + 1;
    }
    ok := true;
  }

  /** The hash of a child outside the expanded set. */
  method ChildHash(tree: DenseTree, expanded: set<nat>, c: nat, ghost positions: seq<nat>, ghost values: seq<Bytes>)
    returns (r: Result<seq<Pair>, DenseError>)
    requires tree.Valid() && forall q: nat :: q in expanded <==> Expanded(positions, q)
    ensures tree.Holds(values) ==> r == Ok(GenChild(tree.h, values, tree.cap, positions, c))
  {
    hide Expanded, Under;
    if c >= tree.cap || c in expanded {
      return Ok([]);
    }
    var hash, calls := tree.HashFrom(c, values);
    r := if hash.Err? then Err(hash.error) else Ok([Pair(c, hash.value)]);
  }

  /** `generate`: the expanded positions are visited in ascending order. */
  method Generate(tree: DenseTree, positions: seq<nat>, ghost values: seq<Bytes>)
    returns (r: Result<DenseTreeProof, DenseError>)
    requires tree.Valid()
    ensures r == Err(InvalidProof) <==> exists p :: p in positions && p >= tree.count
    ensures tree.Holds(values) && (forall p :: p in positions ==> p < tree.count) ==>
              r == Ok(GenProof(tree.h, values, tree.cap, positions))
  {
    hide Expanded, Under, GenChild;
    var ok := InRange(positions, tree.count);
    if !ok {
      return Err(InvalidProof);
    }
    var expanded := ExpandedSet(positions);
    var entries, valueHashes, hashes := [], [], [];
    var pos := 0;
    ghost var honest := tree.Holds(values);
    while pos < tree.count
      invariant 0 <= pos <= tree.count && tree.Valid() && tree.Holds(values) == honest
      invariant honest ==>
                  && entries == GenEntries(values, positions, pos)
                  && valueHashes == GenValueHashes(tree.h, values, positions, pos)
                  && hashes == GenHashes(tree.h, values, tree.cap, positions, pos)
    {
      if pos in expanded {
        var value := tree.Read(pos);
        if value.Err? || value.value.None? {
          return Err(StoreError);
        }
        if pos in positions {
          entries := entries + [Pair(pos, value.value.value)];
        } else {
          valueHashes := valueHashes + [Pair(pos, tree.h.value(value.value.value))];
        }
        var left := ChildHash(tree, expanded, Left(pos), positions, values);
        if left.Err? {
          return Err(StoreError);
        }
        var right := ChildHash(tree, expanded, Right(pos), positions, values);
        if right.Err? {
          return Err(StoreError);
        }
        hashes := hashes + (left.value + right.value);
      }
      RequestedIsExpanded(positions, pos);
      pos := pos + 1;
    }
    r := Ok(DenseTreeProof(entries, valueHashes, hashes));
  }

  lemma RequestedIsExpanded(positions: seq<nat>, p: nat)
    ensures p in positions ==> Expanded(positions, p)
  {
    if p in positions {
      var j :| 0 <= j < |positions| && positions[j] == p;
      assert Under(p, positions[j]);
    }
  }

  // ---- where the emitted items are ---------------------------------------------------

  predicate Ascends(ps: seq<Pair>) {
    forall a, b :: 0 <= a < b < |ps| ==> ps[a].pos < ps[b].pos
  }

  predicate Below(ps: seq<Pair>, n: nat) {
    forall a :: 0 <= a < |ps| ==> ps[a].pos < n
  }

  lemma {:induction false} AscendingLength(ps: seq<Pair>, n: nat)
    requires Ascends(ps) && Below(ps, n)
    ensures |ps| <= n && DistinctPos(ps)
    decreases |ps|
  {
    if ps != [] {
      var last := |ps| - 1;
      AscendingLength(ps[..last], ps[last].pos);
    }
  }

  lemma AppendAscends(ps: seq<Pair>, p: Pair, n: nat)
    requires Ascends(ps) && Below(ps, n) && p.pos >= n
    ensures Ascends(ps + [p]) && Below(ps + [p], p.pos + 1) && Below(ps, p.pos + 1)
  {
  }

  lemma {:induction false} EntriesAt(values: seq<Bytes>, positions: seq<nat>, n: nat)
    requires n <= |values|
    ensures var es := GenEntries(values, positions, n);
            && Ascends(es) && Below(es, n)
            && (forall q: nat :: Has(es, q) <==> q < n && q in positions)
            && (forall j :: 0 <= j < |es| ==> es[j].pos < |values| && es[j].x == values[es[j].pos])
  {
    if n > 0 {
      var init, last := GenEntries(values, positions, n - 1), Pair(n - 1, values[n - 1]);
      EntriesAt(values, positions, n - 1);
      AppendAscends(init, last, n - 1);
      hide Has;
      HasAppend(init, last);
      assert init + [] == init;
    }
  }

  predicate OwnHash(h: Hashing, values: seq<Bytes>, p: Pair) {
    p.pos < |values| && p.x == h.value(values[p.pos])
  }

  lemma {:induction false} ValueHashesAt(h: Hashing, values: seq<Bytes>, positions: seq<nat>, n: nat)
    requires n <= |values|
    ensures var es := GenValueHashes(h, values, positions, n);
            && Ascends(es) && Below(es, n)
            && (forall q: nat :: Has(es, q) <==> q < n && Expanded(positions, q) && q !in positions)
            && (forall j :: 0 <= j < |es| ==> OwnHash(h, values, es[j]))
  {
    hide Expanded;
    if n > 0 {
      var init, last := GenValueHashes(h, values, positions, n - 1), Pair(n - 1, h.value(values[n - 1]));
      var es := GenValueHashes(h, values, positions, n);
      ValueHashesAt(h, values, positions, n - 1);
      assert OwnHash(h, values, last);
      AppendAscends(init, last, n - 1);
      assert init + [] == init;
      hide Has, Ascends, Below, OwnHash, GenValueHashes;
      if Expanded(positions, n - 1) && n - 1 !in positions {
        HasAppend(init, last);
        assert es == init + [last];
      } else {
        assert es == init;
      }
    }
  }

  /** A position whose hash is emitted: a child of the expanded set, not in it. */
  predicate Fringe(positions: seq<nat>, cap: nat, n: nat, q: nat) {
    0 < q < cap && !Expanded(positions, q) && ParentOf(q) < n && Expanded(positions, ParentOf(q))
  }

  /** What the hash list of the first `n` positions looks like. */
  ghost predicate HashesFor(h: Hashing, values: seq<Bytes>, cap: nat, positions: seq<nat>, n: nat, hs: seq<Pair>) {
    && Ascends(hs) && Below(hs, 2 * n + 1) && Below(hs, cap)
    && (forall q: nat :: Has(hs, q) <==> Fringe(positions, cap, n, q))
    && (forall j :: 0 <= j < |hs| ==> hs[j].x == HashNode(h, values, cap, hs[j].pos))
  }

  lemma {:induction false} HashesAt(h: Hashing, values: seq<Bytes>, cap: nat, positions: seq<nat>, n: nat)
    requires n <= |values|
    ensures HashesFor(h, values, cap, positions, n, GenHashes(h, values, cap, positions, n))
  {
    if n > 0 {
      HashesAt(h, values, cap, positions, n - 1);
      HashesStep(h, values, cap, positions, n, GenHashes(h, values, cap, positions, n - 1));
    } else {
      assert forall q: nat :: !Has([], q);
    }
  }

  lemma HashesStep(h: Hashing, values: seq<Bytes>, cap: nat, positions: seq<nat>, n: nat, hs: seq<Pair>)
    requires n > 0 && HashesFor(h, values, cap, positions, n - 1, hs)
    ensures HashesFor(h, values, cap, positions, n,
                      hs + if !Expanded(positions, n - 1) then []
                           else GenChild(h, values, cap, positions, Left(n - 1))
                                + GenChild(h, values, cap, positions, Right(n - 1)))
  {
    hide Expanded, HashNode;
    var l, r := Left(n - 1), Right(n - 1);
    if Expanded(positions, n - 1) {
      var mid := hs + GenChild(h, values, cap, positions, l);
      HasAppend(hs, Pair(l, HashNode(h, values, cap, l)));
      HasAppend(mid, Pair(r, HashNode(h, values, cap, r)));
      assert hs + [] == hs;
      assert mid + [] == mid;
      assert hs + (GenChild(h, values, cap, positions, l) + GenChild(h, values, cap, positions, r))
          == mid + GenChild(h, values, cap, positions, r);
      forall q ensures Fringe(positions, cap, n, q) <==>
                         || Fringe(positions, cap, n - 1, q)
                         || (q == l && l < cap && !Expanded(positions, l))
                         || (q == r && r < cap && !Expanded(positions, r))
      {
        FringeStep(n, q);
      }
    } else {
      assert hs + [] == hs;
      assert forall q: nat :: Fringe(positions, cap, n, q) <==> Fringe(positions, cap, n - 1, q);
    }
  }

  lemma FringeStep(n: nat, q: nat)
    requires n > 0
    ensures q > 0 ==> (ParentOf(q) == n - 1 <==> q == Left(n - 1) || q == Right(n - 1))
  {
  }

  // ---- completeness ----------------------------------------------------------------------

  /** The paths of the emitted entries are the expanded set. */
  lemma PathsExpanded(values: seq<Bytes>, positions: seq<nat>, q: nat)
    requires forall p :: p in positions ==> p < |values|
    ensures OnPath(q, GenEntries(values, positions, |values|)) <==> Expanded(positions, q)
  {
    var es := GenEntries(values, positions, |values|);
    EntriesAt(values, positions, |values|);
    hide GenEntries, Under;
    if OnPath(q, es) {
      var j :| 0 <= j < |es| && Under(q, es[j].pos);
      assert Has(es, es[j].pos);
      var i :| 0 <= i < |positions| && positions[i] == es[j].pos;
      assert Under(q, positions[i]);
    }
    if Expanded(positions, q) {
      var i :| 0 <= i < |positions| && Under(q, positions[i]);
      assert positions[i] in positions;
      assert Has(es, positions[i]);
      var j :| 0 <= j < |es| && es[j].pos == positions[i];
      assert Under(q, es[j].pos);
    }
  }

  /** Lists whose positions satisfy exclusive conditions do not overlap. */
  lemma NoOverlap(ps: seq<Pair>, qs: seq<Pair>)
    requires forall q: nat :: Has(ps, q) ==> !Has(qs, q)
    ensures Disjoint(ps, qs)
  {
    forall a, b | 0 <= a < |ps| && 0 <= b < |qs| ensures ps[a].pos != qs[b].pos {
      assert Has(ps, ps[a].pos) && Has(qs, qs[b].pos);
    }
  }

  lemma GeneratedShape(h: Hashing, values: seq<Bytes>, height: nat, positions: seq<nat>)
    requires 1 <= height <= 16 && |values| <= Capacity(height) && forall p :: p in positions ==> p < |values|
    ensures WellShaped(GenProof(h, values, Capacity(height), positions), height, |values|)
  {
    var cap, n := Capacity(height), |values|;
    var p := GenProof(h, values, cap, positions);
    hide Capacity, GenEntries, GenValueHashes, GenHashes, HashNode, Under;
    EntriesAt(values, positions, n);
    ValueHashesAt(h, values, positions, n);
    HashesAt(h, values, cap, positions, n);
    AscendingLength(p.entries, n);
    AscendingLength(p.valueHashes, n);
    AscendingLength(p.hashes, cap);
    forall q ensures q in positions ==> Expanded(positions, q) {
      RequestedIsExpanded(positions, q);
    }
    NoOverlap(p.entries, p.valueHashes);
    NoOverlap(p.entries, p.hashes);
    NoOverlap(p.valueHashes, p.hashes);
    forall j | 0 <= j < |p.hashes| ensures !OnPath(p.hashes[j].pos, p.entries) {
      assert Has(p.hashes, p.hashes[j].pos);
      PathsExpanded(values, positions, p.hashes[j].pos);
    }
  }

  lemma {:induction false} GeneratedCovers(positions: seq<nat>, cap: nat, count: nat,
                                           es: set<nat>, vs: set<nat>, hs: set<nat>, q: nat)
    requires forall p: nat :: Expanded(positions, p) && p < count ==> p in es || p in vs
    requires forall p: nat :: Fringe(positions, cap, count, p) ==> p in hs
    requires Expanded(positions, q) || Fringe(positions, cap, count, q)
    ensures Covers(cap, count, es, vs, hs, q)
    decreases cap - q
  {
    if q < cap && q < count && q !in hs {
      CoversChild(positions, cap, count, es, vs, hs, q, Left(q));
      CoversChild(positions, cap, count, es, vs, hs, q, Right(q));
    }
  }

  lemma {:induction false} CoversChild(positions: seq<nat>, cap: nat, count: nat,
                                       es: set<nat>, vs: set<nat>, hs: set<nat>, q: nat, c: nat)
    requires forall p: nat :: Expanded(positions, p) && p < count ==> p in es || p in vs
    requires forall p: nat :: Fringe(positions, cap, count, p) ==> p in hs
    requires Expanded(positions, q) && q < count && (c == Left(q) || c == Right(q))
    ensures Covers(cap, count, es, vs, hs, c)
    decreases cap - q, 0
  {
    hide Expanded, Covers;
    assert ParentOf(c) == q;
    if c < cap {
      GeneratedCovers(positions, cap, count, es, vs, hs, c);
    } else {
      CoversBeyond(cap, count, es, vs, hs, c);
    }
  }

  lemma CoversBeyond(cap: nat, count: nat, es: set<nat>, vs: set<nat>, hs: set<nat>, c: nat)
    requires c >= cap
    ensures Covers(cap, count, es, vs, hs, c)
  {
  }

  /** The maps of a generated proof hold what the tree holds. */
  lemma GeneratedHonest(h: Hashing, values: seq<Bytes>, cap: nat, positions: seq<nat>)
    ensures var p := GenProof(h, values, cap, positions);
            HonestMaps(h, values, cap, ToMap(p.entries), ToMap(p.valueHashes), ToMap(p.hashes))
  {
    var p, n := GenProof(h, values, cap, positions), |values|;
    hide GenEntries, GenValueHashes, GenHashes, HashNode, Expanded, ToMap;
    EntriesAt(values, positions, n);
    ValueHashesAt(h, values, positions, n);
    HashesAt(h, values, cap, positions, n);
    AscendingLength(p.entries, n);
    AscendingLength(p.valueHashes, n);
    AscendingLength(p.hashes, cap);
    forall q | q in ToMap(p.entries) ensures q < n ==> ToMap(p.entries)[q] == values[q] {
      var j :| 0 <= j < |p.entries| && p.entries[j].pos == q;
      ToMapAt(p.entries, j);
    }
    forall q | q in ToMap(p.valueHashes) ensures q < n ==> ToMap(p.valueHashes)[q] == h.value(values[q]) {
      var j :| 0 <= j < |p.valueHashes| && p.valueHashes[j].pos == q;
      assert OwnHash(h, values, p.valueHashes[j]);
      ToMapAt(p.valueHashes, j);
    }
    forall q | q in ToMap(p.hashes) ensures ToMap(p.hashes)[q] == HashNode(h, values, cap, q) {
      var j :| 0 <= j < |p.hashes| && p.hashes[j].pos == q;
      ToMapAt(p.hashes, j);
    }
  }

  /** A generated proof verifies, with the root of the tree, exactly when something was
      asked for or the tree is empty. */
  lemma GenerateThenVerify(h: Hashing, values: seq<Bytes>, height: nat, positions: seq<nat>)
    requires 1 <= height <= 16 && |values| <= Capacity(height) && forall p :: p in positions ==> p < |values|
    ensures var cap := Capacity(height);
            VerifiedRoot(h, GenProof(h, values, cap, positions), height, |values|) ==
              if positions == [] && values != [] then Err(InvalidProof) else Ok(RootOf(h, values, cap))
  {
    var cap, n := Capacity(height), |values|;
    CapacityPositive(height);
    var p := GenProof(h, values, cap, positions);
    var entries, valueHashes, hashes := ToMap(p.entries), ToMap(p.valueHashes), ToMap(p.hashes);
    GeneratedShape(h, values, height, positions);
    GeneratedHonest(h, values, cap, positions);
    RecomputeHonest(h, values, cap, entries, valueHashes, hashes, 0);
    RecomputeErrors(h, p, height, n);
    assert VerifiedRoot(h, p, height, n) == RecomputeHash(h, cap, n, entries, valueHashes, hashes, 0);
    hide RecomputeHash, HashNode, Capacity, WellShaped, HonestMaps, VerifiedRoot;
    if positions != [] {
      RootExpanded(positions);
      GeneratedKeys(h, values, cap, positions);
      GeneratedCovers(positions, cap, n, entries.Keys, valueHashes.Keys, hashes.Keys, 0);
      assert positions[0] in positions;
    } else if values == [] {
      CoversEmpty(cap, entries.Keys, valueHashes.Keys, hashes.Keys);
      EmptyHash(h, cap);
    } else {
      NothingGenerated(h, values, cap);
    }
  }

  lemma CapacityPositive(height: nat)
    requires height > 0
    ensures Capacity(height) > 0
  {
  }

  lemma RootExpanded(positions: seq<nat>)
    requires positions != []
    ensures Expanded(positions, 0)
  {
    UnderRoot(positions[0]);
  }

  lemma EmptyHash(h: Hashing, cap: nat)
    ensures HashNode(h, [], cap, 0) == ZERO
  {
  }

  lemma CoversEmpty(cap: nat, es: set<nat>, vs: set<nat>, hs: set<nat>)
    ensures Covers(cap, 0, es, vs, hs, 0)
  {
  }

  lemma GeneratedKeys(h: Hashing, values: seq<Bytes>, cap: nat, positions: seq<nat>)
    requires forall p :: p in positions ==> p < |values|
    ensures var p := GenProof(h, values, cap, positions);
            && (forall q: nat :: Expanded(positions, q) && q < |values| ==>
                  q in ToMap(p.entries).Keys || q in ToMap(p.valueHashes).Keys)
            && (forall q: nat :: Fringe(positions, cap, |values|, q) ==> q in ToMap(p.hashes).Keys)
  {
    hide GenEntries, GenValueHashes, GenHashes, HashNode, Expanded, ToMap, Has, Fringe;
    EntriesAt(values, positions, |values|);
    ValueHashesAt(h, values, positions, |values|);
    HashesAt(h, values, cap, positions, |values|);
  }

  lemma NothingGenerated(h: Hashing, values: seq<Bytes>, cap: nat)
    requires values != [] && cap > 0
    ensures var p := GenProof(h, values, cap, []);
            !Covers(cap, |values|, ToMap(p.entries).Keys, ToMap(p.valueHashes).Keys, ToMap(p.hashes).Keys, 0)
  {
    EntriesAt(values, [], |values|);
    ValueHashesAt(h, values, [], |values|);
    HashesAt(h, values, cap, [], |values|);
    var p := GenProof(h, values, cap, []);
    hide GenEntries, GenValueHashes, GenHashes, HashNode, ToMap, Has;
    assert !Has(p.entries, 0) && !Has(p.valueHashes, 0) && !Has(p.hashes, 0);
  }

  /** The entries of a generated proof are the requested positions with their values, each
      once and in ascending order. */
  lemma GeneratedEntries(h: Hashing, values: seq<Bytes>, cap: nat, positions: seq<nat>)
    requires forall p :: p in positions ==> p < |values|
    ensures var es := GenProof(h, values, cap, positions).entries;
            && (forall a, b :: 0 <= a < b < |es| ==> es[a].pos < es[b].pos)
            && (forall e :: e in es <==> e.pos in positions && e.pos < |values| && e.x == values[e.pos])
  {
    EntriesAt(values, positions, |values|);
    hide GenEntries, GenValueHashes, GenHashes;
    var es := GenProof(h, values, cap, positions).entries;
    forall e: Pair | e.pos in positions && e.pos < |values| && e.x == values[e.pos] ensures e in es {
      assert Has(es, e.pos);
      var j :| 0 <= j < |es| && es[j].pos == e.pos;
      assert es[j] == e;
    }
    forall e | e in es ensures e.pos in positions && e.pos < |values| && e.x == values[e.pos] {
      var j :| 0 <= j < |es| && es[j] == e;
      assert Has(es, e.pos);
    }
  }
}
