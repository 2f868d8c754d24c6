/** Inclusion proofs for the dense tree: the verifier that needs no storage, and what it
    guarantees. */
module DenseProof {
  import opened Wrappers
  import opened DenseHash

  datatype Pair = Pair(pos: nat, x: Bytes)

  datatype DenseTreeProof = DenseTreeProof(entries: seq<Pair>, valueHashes: seq<Pair>, hashes: seq<Pair>)

  // ---- lists of positioned items -----------------------------------------------------

  predicate Has(ps: seq<Pair>, q: nat) {
    exists j :: 0 <= j < |ps| && ps[j].pos == q
  }

  predicate DistinctPos(ps: seq<Pair>) {
    forall a, b :: 0 <= a < b < |ps| ==> ps[a].pos != ps[b].pos
  }

  predicate Disjoint(ps: seq<Pair>, qs: seq<Pair>) {
    forall a, b :: 0 <= a < |ps| && 0 <= b < |qs| ==> ps[a].pos != qs[b].pos
  }

  /** The lookup map of a list; of equal positions the last wins. */
  function ToMap(ps: seq<Pair>): (m: map<nat, Bytes>)
    ensures forall q :: q in m <==> Has(ps, q)
  {
    if ps == [] then map[]
    else
      var init, last := ps[..|ps| - 1], ps[|ps| - 1];
      HasAppend(init, last);
      assert ps == init + [last];
      ToMap(init)[last.pos := last.x]
  }

  lemma HasAppend(ps: seq<Pair>, p: Pair)
    ensures forall q :: Has(ps + [p], q) <==> Has(ps, q) || q == p.pos
  {
    forall q ensures Has(ps + [p], q) <==> Has(ps, q) || q == p.pos {
      if Has(ps, q) {
        var j :| 0 <= j < |ps| && ps[j].pos == q;
        assert (ps + [p])[j].pos == q;
      }
      assert (ps + [p])[|ps|] == p;
    }
  }

  lemma {:induction false} ToMapAt(ps: seq<Pair>, j: nat)
    requires DistinctPos(ps) && j < |ps|
    ensures ps[j].pos in ToMap(ps) && ToMap(ps)[ps[j].pos] == ps[j].x
    decreases |ps|
  {
    var n := |ps| - 1;
    if j < n {
      assert ps[j].pos != ps[n].pos;
      ToMapAt(ps[..n], j);
      assert Has(ps, ps[j].pos);
    }
  }

  // ---- the verifier --------------------------------------------------------------------

  /** `recompute_hash` */
  function RecomputeHash(h: Hashing, cap: nat, count: nat, entries: map<nat, Bytes>, valueHashes: map<nat, Bytes>,
                         hashes: map<nat, Bytes>, pos: nat): Result<Bytes, DenseError>
    decreases cap - pos
  {
    if pos >= cap || pos >= count then Ok(ZERO)
    else if pos in hashes then Ok(hashes[pos])
    else if pos !in entries && pos !in valueHashes then Err(InvalidProof)
    else
      var own := if pos in entries then h.value(entries[pos]) else valueHashes[pos];
      var left := RecomputeHash(h, cap, count, entries, valueHashes, hashes, Left(pos));
      var right := RecomputeHash(h, cap, count, entries, valueHashes, hashes, Right(pos));
      if left.Err? then left else if right.Err? then right
      else Ok(h.node(own, left.value, right.value))
  }

  /** Some proved entry is at `q` or below it. */
  predicate OnPath(q: nat, entries: seq<Pair>) {
    exists j :: 0 <= j < |entries| && Under(q, entries[j].pos)
  }

  /** The structural checks of `verify_inner`. */
  predicate WellShaped(p: DenseTreeProof, height: nat, count: nat) {
    && 1 <= height <= 16 && count <= Capacity(height)
    && (forall j :: 0 <= j < |p.entries| ==> p.entries[j].pos < count)
    && |p.entries| <= Capacity(height) && |p.valueHashes| <= Capacity(height) && |p.hashes| <= Capacity(height)
    && DistinctPos(p.entries) && DistinctPos(p.valueHashes) && DistinctPos(p.hashes)
    && Disjoint(p.entries, p.valueHashes) && Disjoint(p.entries, p.hashes) && Disjoint(p.valueHashes, p.hashes)
    && (forall j :: 0 <= j < |p.hashes| ==> !OnPath(p.hashes[j].pos, p.entries))
  }

  function Recomputed(h: Hashing, p: DenseTreeProof, height: nat, count: nat): Result<Bytes, DenseError> {
    RecomputeHash(h, Capacity(height), count, ToMap(p.entries), ToMap(p.valueHashes), ToMap(p.hashes), 0)
  }

  /** `verify_and_get_root` */
  function VerifiedRoot(h: Hashing, p: DenseTreeProof, height: nat, count: nat): Result<Bytes, DenseError> {
    if WellShaped(p, height, count) then Recomputed(h, p, height, count) else Err(InvalidProof)
  }

  method HasDuplicates(ps: seq<Pair>) returns (dup: bool)
    ensures dup <==> !DistinctPos(ps)
  {
    var seen: set<nat> := {};
    var i := 0;
    while i < |ps|
      invariant 0 <= i <= |ps| && DistinctPos(ps[..i])
      invariant forall q :: q in seen <==> Has(ps[..i], q)
    {
      assert ps[..i + 1] == ps[..i] + [ps[i]];
      if ps[i].pos in seen {
        var j :| 0 <= j < i && ps[j].pos == ps[i].pos;
        return true;
      }
      HasAppend(ps[..i], ps[i]);
      seen := seen + {ps[i].pos};
      i := i + 1;
    }
    assert ps[..i] == ps;
    dup := false;
  }

  function Positions(ps: seq<Pair>): (s: set<nat>)
    ensures forall q :: q in s <==> Has(ps, q)
  {
    set j | 0 <= j < |ps| :: ps[j].pos
  }

  lemma DisjointSets(ps: seq<Pair>, qs: seq<Pair>)
    ensures Positions(ps) !! Positions(qs) <==> Disjoint(ps, qs)
  {
    if Disjoint(ps, qs) {
      assert forall q :: Has(ps, q) ==> !Has(qs, q);
    }
    if Positions(ps) !! Positions(qs) {
      forall a, b | 0 <= a < |ps| && 0 <= b < |qs| ensures ps[a].pos != qs[b].pos {
        assert Has(ps, ps[a].pos) && Has(qs, qs[b].pos);
        assert ps[a].pos in Positions(ps) && qs[b].pos in Positions(qs);
      }
    }
  }

  function Path(p: nat): (s: set<nat>)
    ensures forall q :: q in s <==> Under(q, p)
    decreases p
  {
    if p == 0 then {0} else {p} + Path(ParentOf(p))
  }

  /** The proved positions and all their ancestors. */
  method AncestorSet(entries: seq<Pair>) returns (all: set<nat>)
    ensures forall q :: q in all <==> OnPath(q, entries)
  {
    all := Positions(entries);
    var i := 0;
    while i < |entries|
      invariant 0 <= i <= |entries|
      invariant Positions(entries) <= all
      invariant forall q :: q in all <==> Has(entries, q) || OnPath(q, entries[..i])
    {
      var pos := entries[i].pos;
      var p := pos;
      ghost var before := all;
      assert Has(entries, pos);
      while p > 0
        invariant all + Path(p) == before + Path(pos) && p in all && before <= all
        decreases p
      {
        p := ParentOf(p);
        all := all + {p};
      }
      assert all == before + Path(pos);
      forall q ensures q in all <==> Has(entries, q) || OnPath(q, entries[..i + 1]) {
        OnPathAppend(q, entries, i);
      }
      i := i + 1;
    }
    assert entries[..i] == entries;
    forall q ensures Has(entries, q) ==> OnPath(q, entries) {
      if Has(entries, q) {
        var j :| 0 <= j < |entries| && entries[j].pos == q;
        assert Under(q, entries[j].pos);
      }
    }
  }

  lemma OnPathAppend(q: nat, entries: seq<Pair>, i: nat)
    requires i < |entries|
    ensures OnPath(q, entries[..i + 1]) <==> OnPath(q, entries[..i]) || Under(q, entries[i].pos)
  {
    if OnPath(q, entries[..i]) {
      var j :| 0 <= j < i && Under(q, entries[..i][j].pos);
      assert entries[..i + 1][j] == entries[..i][j];
    }
    assert entries[..i + 1][i] == entries[i];
    if OnPath(q, entries[..i + 1]) {
      var j :| 0 <= j < i + 1 && Under(q, entries[..i + 1][j].pos);
      if j < i {
        assert entries[..i][j] == entries[..i + 1][j];
      }
    }
  }

  /** `verify_inner` */
  method VerifyInner(h: Hashing, p: DenseTreeProof, height: nat, count: nat)
    returns (r: Result<(Bytes, seq<Pair>), DenseError>)
    ensures r == match VerifiedRoot(h, p, height, count)
                 case Err(e) => Err(e)
                 case Ok(root) => Ok((root, p.entries))
  {
    if !(1 <= height <= 16) {
      return Err(InvalidProof);
    }
    hide Capacity, DistinctPos, Disjoint, OnPath, ToMap, RecomputeHash, Under;
    var cap := Capacity(height);
    if count > cap {
      return Err(InvalidProof);
    }
    var i := 0;
    while i < |p.entries|
      invariant 0 <= i <= |p.entries|
      invariant forall j :: 0 <= j < i ==> p.entries[j].pos < count
    {
      if p.entries[i].pos >= count || p.entries[i].pos >= cap {
        return Err(InvalidProof);
      }
      i := i + 1;
    }
    if |p.entries| > cap || |p.valueHashes| > cap || |p.hashes| > cap {
      return Err(InvalidProof);
    }
    var dup := CheckLists(p);
    if dup {
      return Err(InvalidProof);
    }
    var ancestors := AncestorSet(p.entries);
    i := 0;
    while i < |p.hashes|
      invariant 0 <= i <= |p.hashes|
      invariant forall j :: 0 <= j < i ==> !OnPath(p.hashes[j].pos, p.entries)
    {
      if p.hashes[i].pos in ancestors {
        return Err(InvalidProof);
      }
      i := i + 1;
    }
    var root := Recomputed(h, p, height, count);
    r := if root.Err? then Err(root.error) else Ok((root.value, p.entries));
  }

  /** Duplicates inside a list or overlaps between two lists. */
  method CheckLists(p: DenseTreeProof) returns (bad: bool)
    ensures !bad <==> && DistinctPos(p.entries) && DistinctPos(p.valueHashes) && DistinctPos(p.hashes)
                      && Disjoint(p.entries, p.valueHashes) && Disjoint(p.entries, p.hashes)
                      && Disjoint(p.valueHashes, p.hashes)
  {
    hide DistinctPos, Disjoint, Positions;
    var a := HasDuplicates(p.entries);
    var b := HasDuplicates(p.valueHashes);
    var c := HasDuplicates(p.hashes);
    if a || b || c {
      return true;
    }
    DisjointSets(p.entries, p.valueHashes);
    DisjointSets(p.entries, p.hashes);
    DisjointSets(p.valueHashes, p.hashes);
    bad := !(Positions(p.entries) !! Positions(p.valueHashes))
           || !(Positions(p.entries) !! Positions(p.hashes))
           || !(Positions(p.valueHashes) !! Positions(p.hashes));
  }

  /** `verify_against_expected_root` */
  method VerifyAgainstExpectedRoot(h: Hashing, p: DenseTreeProof, root: Bytes, height: nat, count: nat)
    returns (r: Result<seq<Pair>, DenseError>)
    ensures r == if VerifiedRoot(h, p, height, count) == Ok(root) then Ok(p.entries) else Err(InvalidProof)
  {
    hide WellShaped, RecomputeHash;
    var inner := VerifyInner(h, p, height, count);
    RecomputeErrors(h, p, height, count);
    if inner.Err? || inner.value.0 != root {
      return Err(InvalidProof);
    }
    r := Ok(inner.value.1);
  }

  lemma RecomputeErrors(h: Hashing, p: DenseTreeProof, height: nat, count: nat)
    ensures VerifiedRoot(h, p, height, count).Err? ==> VerifiedRoot(h, p, height, count).error == InvalidProof
  {
    RecomputeError(h, Capacity(height), count, ToMap(p.entries), ToMap(p.valueHashes), ToMap(p.hashes), 0);
  }

  lemma {:induction false} RecomputeError(h: Hashing, cap: nat, count: nat, entries: map<nat, Bytes>,
                                          valueHashes: map<nat, Bytes>, hashes: map<nat, Bytes>, pos: nat)
    ensures var r := RecomputeHash(h, cap, count, entries, valueHashes, hashes, pos);
            r.Err? ==> r.error == InvalidProof
    decreases cap - pos
  {
    if pos < cap && pos < count {
      RecomputeError(h, cap, count, entries, valueHashes, hashes, Left(pos));
      RecomputeError(h, cap, count, entries, valueHashes, hashes, Right(pos));
    }
  }

  // ---- soundness -------------------------------------------------------------------------

  lemma {:induction false} UnderParent(q: nat, e: nat)
    requires q > 0 && Under(q, e)
    ensures Under(ParentOf(q), e)
    decreases e
  {
    if q < e {
      UnderParent(q, ParentOf(e));
    }
  }

  /** A node whose hash was recomputed from its parts, and is the real one, has the real
      value hash and real children. */
  lemma PartsAgree(h: Hashing, values: seq<Bytes>, cap: nat, entries: map<nat, Bytes>,
                   valueHashes: map<nat, Bytes>, hashes: map<nat, Bytes>, pos: nat)
    requires Injective(h) && pos < cap && pos < |values| && pos !in hashes
    requires RecomputeHash(h, cap, |values|, entries, valueHashes, hashes, pos) == Ok(HashNode(h, values, cap, pos))
    ensures RecomputeHash(h, cap, |values|, entries, valueHashes, hashes, Left(pos))
         == Ok(HashNode(h, values, cap, Left(pos)))
    ensures RecomputeHash(h, cap, |values|, entries, valueHashes, hashes, Right(pos))
         == Ok(HashNode(h, values, cap, Right(pos)))
    ensures pos in entries ==> entries[pos] == values[pos]
  {
  }

  /** Along the path of a proved entry every recomputed hash is the real one. */
  lemma {:induction false} PathAgrees(h: Hashing, values: seq<Bytes>, cap: nat, entries: map<nat, Bytes>,
                                      valueHashes: map<nat, Bytes>, hashes: map<nat, Bytes>, e: nat, q: nat)
    requires Injective(h) && e < cap && e < |values| && Under(q, e)
    requires forall a :: Under(a, e) ==> a !in hashes
    requires RecomputeHash(h, cap, |values|, entries, valueHashes, hashes, 0) == Ok(HashNode(h, values, cap, 0))
    ensures RecomputeHash(h, cap, |values|, entries, valueHashes, hashes, q) == Ok(HashNode(h, values, cap, q))
    decreases q
  {
    if q > 0 {
      var a := ParentOf(q);
      UnderParent(q, e);
      UnderAbove(a, e);
      PathAgrees(h, values, cap, entries, valueHashes, hashes, e, a);
      PartsAgree(h, values, cap, entries, valueHashes, hashes, a);
      assert q == Left(a) || q == Right(a);
    }
  }

  /** Soundness for every proof object: against the root of the tree holding `values`,
      every returned pair is the value at its position. */
  lemma VerifiedIsStored(h: Hashing, p: DenseTreeProof, height: nat, values: seq<Bytes>, j: nat)
    requires Injective(h) && j < |p.entries|
    requires VerifiedRoot(h, p, height, |values|) == Ok(RootOf(h, values, Capacity(height)))
    ensures p.entries[j].pos < |values| && values[p.entries[j].pos] == p.entries[j].x
  {
    hide Capacity, Injective;
    var cap, e := Capacity(height), p.entries[j].pos;
    var entries, valueHashes, hashes := ToMap(p.entries), ToMap(p.valueHashes), ToMap(p.hashes);
    forall a | Under(a, e) ensures a !in hashes {
      assert OnPath(a, p.entries);
    }
    hide RecomputeHash, HashNode;
    assert Under(e, e);
    PathAgrees(h, values, cap, entries, valueHashes, hashes, e, e);
    PartsAgree(h, values, cap, entries, valueHashes, hashes, e);
    ToMapAt(p.entries, j);
  }

  // ---- honest maps -------------------------------------------------------------------------

  ghost predicate HonestMaps(h: Hashing, values: seq<Bytes>, cap: nat, entries: map<nat, Bytes>,
                             valueHashes: map<nat, Bytes>, hashes: map<nat, Bytes>)
  {
    && (forall q :: q in entries && q < |values| ==> entries[q] == values[q])
    && (forall q :: q in valueHashes && q < |values| ==> valueHashes[q] == h.value(values[q]))
    && (forall q :: q in hashes && q < |values| ==> hashes[q] == HashNode(h, values, cap, q))
  }

  /** The maps cover everything a recomputation from `pos` asks for. */
  predicate Covers(cap: nat, count: nat, entries: set<nat>, valueHashes: set<nat>, hashes: set<nat>, pos: nat)
    decreases cap - pos
  {
    || pos >= cap || pos >= count || pos in hashes
    || (&& (pos in entries || pos in valueHashes)
        && Covers(cap, count, entries, valueHashes, hashes, Left(pos))
        && Covers(cap, count, entries, valueHashes, hashes, Right(pos)))
  }

  /** A recomputation succeeds exactly when the maps cover what it visits, and over
      honest maps it gives the real hash at every position. */
  lemma {:induction false} RecomputeHonest(h: Hashing, values: seq<Bytes>, cap: nat, entries: map<nat, Bytes>,
                                           valueHashes: map<nat, Bytes>, hashes: map<nat, Bytes>, pos: nat)
    ensures var r := RecomputeHash(h, cap, |values|, entries, valueHashes, hashes, pos);
            && (r.Ok? <==> Covers(cap, |values|, entries.Keys, valueHashes.Keys, hashes.Keys, pos))
            && (r.Ok? && HonestMaps(h, values, cap, entries, valueHashes, hashes) ==>
                  r.value == HashNode(h, values, cap, pos))
    decreases cap - pos
  {
    if pos < cap && pos < |values| && pos !in hashes {
      RecomputeHonest(h, values, cap, entries, valueHashes, hashes, Left(pos));
      RecomputeHonest(h, values, cap, entries, valueHashes, hashes, Right(pos));
    }
  }

  /** Exactly these proofs have a root: for a height from 1 to 16 and a count it has room for,
      with entries at filled positions, no list longer than the capacity, no position twice in
      all three lists, no subtree hash on the way from an entry to the root, and enough of
      everything to hash up to the root. Any other proof is an invalid one. */
  lemma VerifyAnswers(h: Hashing, p: DenseTreeProof, height: nat, count: nat)
    ensures var cap := Capacity(height);
            VerifiedRoot(h, p, height, count).Ok? <==>
              && 1 <= height <= 16 && count <= cap
              && (forall e :: e in p.entries ==> e.pos < count)
              && |p.entries| <= cap && |p.valueHashes| <= cap && |p.hashes| <= cap
              && DistinctPos(p.entries + p.valueHashes + p.hashes)
              && !(exists x, e :: x in p.hashes && e in p.entries && Under(x.pos, e.pos))
              && Covers(cap, count, ToMap(p.entries).Keys, ToMap(p.valueHashes).Keys, ToMap(p.hashes).Keys, 0)
    ensures VerifiedRoot(h, p, height, count).Err? ==> VerifiedRoot(h, p, height, count) == Err(InvalidProof)
  {
    hide *;
    RecomputeErrors(h, p, height, count);
    ShapeMeans(p, height, count);
    VerifiedIs(h, p, height, count);
    var values: seq<Bytes> := seq(count, _ => []);
    RecomputeHonest(h, values, Capacity(height), ToMap(p.entries), ToMap(p.valueHashes), ToMap(p.hashes), 0);
  }

  lemma VerifiedIs(h: Hashing, p: DenseTreeProof, height: nat, count: nat)
    ensures VerifiedRoot(h, p, height, count) ==
              if WellShaped(p, height, count)
              then RecomputeHash(h, Capacity(height), count, ToMap(p.entries), ToMap(p.valueHashes), ToMap(p.hashes), 0)
              else Err(InvalidProof)
  {
    hide WellShaped, RecomputeHash, Capacity, ToMap;
  }

  lemma ShapeMeans(p: DenseTreeProof, height: nat, count: nat)
    ensures WellShaped(p, height, count) <==>
              && 1 <= height <= 16 && count <= Capacity(height)
              && (forall e :: e in p.entries ==> e.pos < count)
              && |p.entries| <= Capacity(height) && |p.valueHashes| <= Capacity(height)
              && |p.hashes| <= Capacity(height)
              && DistinctPos(p.entries + p.valueHashes + p.hashes)
              && !(exists x, e :: x in p.hashes && e in p.entries && Under(x.pos, e.pos))
  {
    DistinctSplit(p.entries + p.valueHashes, p.hashes);
    DistinctSplit(p.entries, p.valueHashes);
    DisjointSplit(p.entries, p.valueHashes, p.hashes);
    OnPathMeans(p.entries, p.hashes);
    hide Capacity, DistinctPos, Disjoint, OnPath, Under;
  }

  lemma DistinctSplit(ps: seq<Pair>, qs: seq<Pair>)
    ensures DistinctPos(ps + qs) <==> DistinctPos(ps) && DistinctPos(qs) && Disjoint(ps, qs)
  {
    var all, n := ps + qs, |ps|;
    if DistinctPos(all) {
      forall a, b | 0 <= a < b < |ps| ensures ps[a].pos != ps[b].pos {
        assert all[a] == ps[a] && all[b] == ps[b];
      }
      forall a, b | 0 <= a < b < |qs| ensures qs[a].pos != qs[b].pos {
        assert all[n + a] == qs[a] && all[n + b] == qs[b];
      }
      forall a, b | 0 <= a < |ps| && 0 <= b < |qs| ensures ps[a].pos != qs[b].pos {
        assert all[a] == ps[a] && all[n + b] == qs[b];
      }
    }
  }

  lemma DisjointSplit(ps: seq<Pair>, qs: seq<Pair>, rs: seq<Pair>)
    ensures Disjoint(ps + qs, rs) <==> Disjoint(ps, rs) && Disjoint(qs, rs)
  {
    var all, n := ps + qs, |ps|;
    if Disjoint(all, rs) {
      forall a, b | 0 <= a < |ps| && 0 <= b < |rs| ensures ps[a].pos != rs[b].pos {
        assert all[a] == ps[a];
      }
      forall a, b | 0 <= a < |qs| && 0 <= b < |rs| ensures qs[a].pos != rs[b].pos {
        assert all[n + a] == qs[a];
      }
    }
  }

  lemma OnPathMeans(entries: seq<Pair>, hashes: seq<Pair>)
    ensures (forall j :: 0 <= j < |hashes| ==> !OnPath(hashes[j].pos, entries)) <==>
              !exists x, e :: x in hashes && e in entries && Under(x.pos, e.pos)
  {
    hide Under;
    forall j, i | 0 <= j < |hashes| && 0 <= i < |entries| && Under(hashes[j].pos, entries[i].pos)
      ensures OnPath(hashes[j].pos, entries) && hashes[j] in hashes && entries[i] in entries
    {
    }
  }
}
