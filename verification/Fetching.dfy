/** Reading a list of positions in order, up to the first one that cannot be read. */
module Fetching {
  import opened Wrappers
  import opened Mountain
  import opened MerkleProof
  import opened Overlay

  function ToResult(r: Read): Result<Hash, Error> {
    match r
    case Present(x) => Ok(x)
    case Absent => Err(InconsistentStore)
    case Failed => Err(StoreError)
  }

  /** The nodes found or the first error, and the positions read up to there. */
  datatype Fetched = Fetched(nodes: Result<seq<Hash>, Error>, asked: seq<nat>) {
    /** These positions were read before and found these nodes. */
    function After(before: seq<nat>, found: seq<Hash>): Fetched {
      Fetched(if nodes.Err? then nodes else Ok(found + nodes.value), before + asked)
    }
  }

  function Fetch(view: Store, want: seq<nat>): Fetched {
    if want == [] then Fetched(Ok([]), [])
    else
      var x := ToResult(view.Get(want[0]));
      if x.Err? then Fetched(Err(x.error), [want[0]])
      else Fetch(view, want[1..]).After([want[0]], [x.value])
  }

  /** Every position was read, and these are the nodes. */
  ghost predicate Finds(view: Store, want: seq<nat>, nodes: seq<Hash>) {
    Fetch(view, want) == Fetched(Ok(nodes), want)
  }

  lemma {:induction false} FetchedAll(view: Store, want: seq<nat>)
    ensures Fetch(view, want).nodes.Ok? ==>
              Fetch(view, want).asked == want && |Fetch(view, want).nodes.value| == |want|
    ensures Fetch(view, want).asked <= want
    decreases |want|
  {
    if want != [] {
      FetchedAll(view, want[1..]);
      assert want == [want[0]] + want[1..];
    }
  }

  lemma FindsNothing(view: Store)
    ensures Finds(view, [], [])
  {
  }

  /** What was found before decides nothing about the rest. */
  lemma {:induction false} FetchAfter(view: Store, a: seq<nat>, nodes: seq<Hash>, b: seq<nat>)
    requires Finds(view, a, nodes)
    ensures Fetch(view, a + b) == Fetch(view, b).After(a, nodes)
    decreases |a|
  {
    var rest := Fetch(view, b);
    if a == [] {
      assert a + b == b;
      NothingBefore(rest);
    } else {
      var x, tail := FoundFirst(view, a, nodes);
      FetchAfter(view, a[1..], tail, b);
      assert (a + b)[1..] == a[1..] + b;
      assert Fetch(view, a + b) == Fetch(view, a[1..] + b).After([a[0]], [x]);
      hide *;
      AfterTwice(rest, [a[0]], [x], a[1..], tail);
      assert a == [a[0]] + a[1..] && nodes == [x] + tail;
    }
  }

  lemma NothingBefore(f: Fetched)
    ensures f.After([], []) == f
  {
    assert [] + f.asked == f.asked;
    if f.nodes.Ok? {
      assert [] + f.nodes.value == f.nodes.value;
    }
  }

  lemma AfterTwice(f: Fetched, a: seq<nat>, xs: seq<Hash>, b: seq<nat>, ys: seq<Hash>)
    ensures f.After(b, ys).After(a, xs) == f.After(a + b, xs + ys)
  {
    assert a + (b + f.asked) == a + b + f.asked;
    if f.nodes.Ok? {
      assert xs + (ys + f.nodes.value) == xs + ys + f.nodes.value;
    }
  }

  lemma FoundFirst(view: Store, want: seq<nat>, nodes: seq<Hash>) returns (x: Hash, tail: seq<Hash>)
    requires want != [] && Finds(view, want, nodes)
    ensures ToResult(view.Get(want[0])) == Ok(x) && Finds(view, want[1..], tail) && nodes == [x] + tail
  {
    var rest := Fetch(view, want[1..]);
    x, tail := ToResult(view.Get(want[0])).value, rest.nodes.value;
    assert want[1..] == ([want[0]] + rest.asked)[1..];
  }

  lemma FetchOne(view: Store, p: nat, rest: seq<nat>)
    ensures ToResult(view.Get(p)).Ok? ==> Finds(view, [p], [ToResult(view.Get(p)).value])
    ensures ToResult(view.Get(p)).Err? ==>
              Fetch(view, [p] + rest) == Fetched(Err(ToResult(view.Get(p)).error), [p])
  {
    assert ([p] + rest)[0] == p;
    var x := ToResult(view.Get(p));
    if x.Ok? {
      assert [p][1..] == [] && [p] + [] == [p] && [x.value] + [] == [x.value];
      assert Fetch(view, [p]) == Fetched(Ok([]), []).After([p], [x.value]);
    }
  }

  lemma FindsNext(view: Store, want: seq<nat>, nodes: seq<Hash>, p: nat, x: Hash)
    requires Finds(view, want, nodes) && ToResult(view.Get(p)) == Ok(x)
    ensures Finds(view, want + [p], nodes + [x])
  {
    FetchOne(view, p, []);
    hide Fetch, ToResult;
    FetchAfter(view, want, nodes, [p]);
  }

  /** The first position that cannot be read ends it. */
  lemma FetchStops(view: Store, want: seq<nat>, nodes: seq<Hash>, p: nat, rest: seq<nat>)
    requires Finds(view, want, nodes) && ToResult(view.Get(p)).Err?
    ensures Fetch(view, want + ([p] + rest)) == Fetched(Err(ToResult(view.Get(p)).error), want + [p])
  {
    FetchOne(view, p, rest);
    hide Fetch, ToResult;
    FetchAfter(view, want, nodes, [p] + rest);
  }

  /** Later positions do not matter once an earlier one could not be read. */
  lemma {:induction false} FetchFails(view: Store, a: seq<nat>, b: seq<nat>)
    requires Fetch(view, a).nodes.Err?
    ensures Fetch(view, a + b) == Fetch(view, a)
    decreases |a|
  {
    assert (a + b)[1..] == a[1..] + b;
    if ToResult(view.Get(a[0])).Ok? {
      FetchFails(view, a[1..], b);
    }
  }
}
