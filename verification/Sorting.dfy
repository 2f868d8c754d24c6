/** `sort_by_key` followed by `dedup_by`: a stable sort, then dropping all but the
    first of equal neighbours. */
module Sorting {
  import opened Wrappers

  function Insert<T>(x: T, s: seq<T>, key: T -> nat): seq<T> {
    if s == [] || key(x) <= key(s[0]) then [x] + s
    else [s[0]] + Insert(x, s[1..], key)
  }

  /** Stable insertion sort: an element is placed before later ones of equal key. */
  function Sort<T>(s: seq<T>, key: T -> nat): seq<T> {
    if s == [] then [] else Insert(s[0], Sort(s[1..], key), key)
  }

  /** Keeps the first element of every run of equal keys. */
  function Dedup<T>(s: seq<T>, key: T -> nat): seq<T>
    decreases |s|
  {
    if |s| <= 1 then s
    else if key(s[0]) == key(s[1]) then Dedup([s[0]] + s[2..], key)
    else [s[0]] + Dedup(s[1..], key)
  }

  function Canonical<T>(s: seq<T>, key: T -> nat): seq<T> {
    Dedup(Sort(s, key), key)
  }

  /** The first element of key `k`. */
  function First<T>(s: seq<T>, key: T -> nat, k: nat): Option<T> {
    if s == [] then None else if key(s[0]) == k then Some(s[0]) else First(s[1..], key, k)
  }

  predicate Ascending<T>(s: seq<T>, key: T -> nat) {
    forall a, b :: 0 <= a < b < |s| ==> key(s[a]) <= key(s[b])
  }

  predicate StrictlyAscending<T>(s: seq<T>, key: T -> nat) {
    forall a, b :: 0 <= a < b < |s| ==> key(s[a]) < key(s[b])
  }

  lemma {:induction false} InsertSpec<T>(x: T, s: seq<T>, key: T -> nat, k: nat)
    requires Ascending(s, key)
    ensures Ascending(Insert(x, s, key), key)
    ensures Insert(x, s, key) != []
    ensures key(Insert(x, s, key)[0]) == key(x)
         || (s != [] && key(Insert(x, s, key)[0]) == key(s[0]) < key(x))
    ensures First(Insert(x, s, key), key, k) == if key(x) == k then Some(x) else First(s, key, k)
  {
    if s == [] || key(x) <= key(s[0]) {
      assert ([x] + s)[1..] == s;
    } else {
      InsertSpec(x, s[1..], key, k);
      var t := Insert(x, s[1..], key);
      assert ([s[0]] + t)[1..] == t;
      forall a, b | 0 <= a < b < |t| + 1 ensures key(([s[0]] + t)[a]) <= key(([s[0]] + t)[b]) {
        if a == 0 {
          assert key(s[0]) <= key(t[0]) <= key(t[b - 1]);
        }
      }
    }
  }

  lemma {:induction false} SortSpec<T>(s: seq<T>, key: T -> nat, k: nat)
    ensures Ascending(Sort(s, key), key)
    ensures First(Sort(s, key), key, k) == First(s, key, k)
  {
    if s != [] {
      SortSpec(s[1..], key, k);
      InsertSpec(s[0], Sort(s[1..], key), key, k);
    }
  }

  lemma {:induction false} DedupSpec<T>(s: seq<T>, key: T -> nat, k: nat)
    requires Ascending(s, key)
    ensures StrictlyAscending(Dedup(s, key), key)
    ensures First(Dedup(s, key), key, k) == First(s, key, k)
    ensures s == [] <==> Dedup(s, key) == []
    ensures s != [] ==> Dedup(s, key)[0] == s[0]
    decreases |s|
  {
    if |s| <= 1 {
    } else if key(s[0]) == key(s[1]) {
      var t := [s[0]] + s[2..];
      assert t[1..] == s[2..] == s[1..][1..];
      DedupSpec(t, key, k);
    } else {
      DedupSpec(s[1..], key, k);
      var t := Dedup(s[1..], key);
      assert ([s[0]] + t)[1..] == t;
      assert key(s[0]) < key(t[0]);
    }
  }

  /** Sorting and deduplicating keeps, per key, the first element given. */
  lemma CanonicalSpec<T>(s: seq<T>, key: T -> nat, k: nat)
    ensures StrictlyAscending(Canonical(s, key), key)
    ensures First(Canonical(s, key), key, k) == First(s, key, k)
  {
    SortSpec(s, key, k);
    DedupSpec(Sort(s, key), key, k);
  }

  lemma CanonicalOfOne<T>(x: T, key: T -> nat)
    ensures Canonical([x], key) == [x]
  {
    assert [x][1..] == [];
    assert Sort([x], key) == [x];
  }

  lemma {:induction false} FirstIsMember<T>(s: seq<T>, key: T -> nat, k: nat)
    ensures First(s, key, k).Some? ==> First(s, key, k).value in s && key(First(s, key, k).value) == k
    ensures forall x :: x in s && key(x) == k ==> First(s, key, k).Some?
  {
    if s != [] {
      FirstIsMember(s[1..], key, k);
      assert s == [s[0]] + s[1..];
    }
  }

  /** In a strictly ascending sequence every element is the first of its key. */
  lemma {:induction false} FirstOfStrict<T>(s: seq<T>, key: T -> nat, j: nat)
    requires StrictlyAscending(s, key) && j < |s|
    ensures First(s, key, key(s[j])) == Some(s[j])
    decreases j
  {
    if j > 0 {
      assert key(s[0]) < key(s[j]);
      FirstOfStrict(s[1..], key, j - 1);
    }
  }

  /** A strictly ascending sequence is already canonical. */
  lemma {:induction false} CanonicalOfStrict<T>(s: seq<T>, key: T -> nat)
    requires StrictlyAscending(s, key)
    ensures Sort(s, key) == s && Canonical(s, key) == s
    decreases |s|
  {
    if s != [] {
      CanonicalOfStrict(s[1..], key);
      assert s == [s[0]] + s[1..];
    }
  }

  lemma {:induction false} InsertBeforeLast<T>(x: T, s: seq<T>, y: T, key: T -> nat)
    requires key(x) < key(y)
    ensures Insert(x, s + [y], key) == Insert(x, s, key) + [y]
    decreases |s|
  {
    if s == [] || key(x) <= key(s[0]) {
      assert [x] + (s + [y]) == ([x] + s) + [y];
    } else {
      InsertBeforeLast(x, s[1..], y, key);
      assert (s + [y])[1..] == s[1..] + [y];
    }
  }

  lemma {:induction false} DedupBeforeLast<T>(s: seq<T>, y: T, key: T -> nat)
    requires s != [] ==> key(s[|s| - 1]) < key(y)
    ensures Dedup(s + [y], key) == Dedup(s, key) + [y]
    decreases |s|
  {
    if |s| > 1 {
      assert (s + [y])[1..] == s[1..] + [y];
      if key(s[0]) == key(s[1]) {
        var t := [s[0]] + s[2..];
        assert [(s + [y])[0]] + (s + [y])[2..] == t + [y];
        DedupBeforeLast(t, y, key);
      } else {
        DedupBeforeLast(s[1..], y, key);
      }
    } else if |s| == 1 {
      assert s + [y] == [s[0], y];
      assert [s[0], y][1..] == [y];
    }
  }

  lemma {:induction false} SortBeforeLast<T>(s: seq<T>, y: T, key: T -> nat)
    requires forall x :: x in s ==> key(x) < key(y)
    ensures Sort(s + [y], key) == Sort(s, key) + [y]
    decreases |s|
  {
    if s == [] {
      assert [] + [y] == [y] && [y][1..] == [];
    } else {
      assert (s + [y])[1..] == s[1..] + [y];
      SortBeforeLast(s[1..], y, key);
      InsertBeforeLast(s[0], Sort(s[1..], key), y, key);
    }
  }

  /** Appending an element of greater key appends it to the canonical form. */
  lemma CanonicalAppend<T>(s: seq<T>, y: T, key: T -> nat)
    requires forall x :: x in s ==> key(x) < key(y)
    ensures Canonical(s + [y], key) == Canonical(s, key) + [y]
  {
    var t := Sort(s, key);
    SortBeforeLast(s, y, key);
    if t != [] {
      SortMember(s, key, t[|t| - 1]);
    }
    DedupBeforeLast(t, y, key);
  }

  lemma {:induction false} SortMember<T>(s: seq<T>, key: T -> nat, x: T)
    ensures x in Sort(s, key) <==> x in s
    decreases |s|
  {
    if s != [] {
      SortMember(s[1..], key, x);
      InsertMember(s[0], Sort(s[1..], key), key, x);
      assert s == [s[0]] + s[1..];
    }
  }

  lemma {:induction false} InsertMember<T>(y: T, s: seq<T>, key: T -> nat, x: T)
    ensures x in Insert(y, s, key) <==> x == y || x in s
    decreases |s|
  {
    if s != [] && key(y) > key(s[0]) {
      InsertMember(y, s[1..], key, x);
      assert s == [s[0]] + s[1..];
    }
  }

  /** Membership in the canonical form: exactly the first element of each key. */
  lemma CanonicalMember<T>(s: seq<T>, key: T -> nat, x: T)
    ensures x in Canonical(s, key) <==> First(s, key, key(x)) == Some(x)
    ensures x in Canonical(s, key) ==> x in s
  {
    var c := Canonical(s, key);
    CanonicalSpec(s, key, key(x));
    FirstIsMember(c, key, key(x));
    FirstIsMember(s, key, key(x));
    if x in c {
      var j :| 0 <= j < |c| && c[j] == x;
      FirstOfStrict(c, key, j);
    }
  }

  lemma CanonicalKeys<T>(s: seq<T>, key: T -> nat, k: nat)
    ensures (exists x :: x in Canonical(s, key) && key(x) == k) <==> (exists x :: x in s && key(x) == k)
  {
    var c := Canonical(s, key);
    CanonicalSpec(s, key, k);
    FirstIsMember(c, key, k);
    FirstIsMember(s, key, k);
  }

  lemma FirstInSome(a: seq<nat>, b: seq<nat>)
    requires a != [] && forall x: nat :: x in a ==> x in b
    ensures b != []
  {
    assert a[0] in b;
  }

  lemma StrictTail(a: seq<nat>, b: seq<nat>)
    requires a != [] && b != [] && a[0] == b[0]
    requires forall i, j :: 0 <= i < j < |a| ==> a[i] < a[j]
    requires forall x: nat :: x in a ==> x in b
    ensures forall x: nat :: x in a[1..] ==> x in b[1..]
  {
    forall x: nat | x in a[1..] ensures x in b[1..] {
      var i :| 1 <= i < |a| && a[i] == x;
      assert a[0] < x && x in b;
      var j :| 0 <= j < |b| && b[j] == x;
      assert b[1..][j - 1] == x;
    }
  }

  /** Strictly increasing numbers are determined by their set. */
  lemma {:induction false} StrictUnique(a: seq<nat>, b: seq<nat>)
    requires forall i, j :: 0 <= i < j < |a| ==> a[i] < a[j]
    requires forall i, j :: 0 <= i < j < |b| ==> b[i] < b[j]
    requires forall x: nat :: x in a <==> x in b
    ensures a == b
    decreases |a|
  {
    if a == [] {
      assert b == [] by {
        if b != [] { FirstInSome(b, a); }
      }
    } else if b == [] {
      FirstInSome(a, b);
    } else {
      assert a[0] in b && b[0] in a;
      assert a[0] == b[0];
      StrictTail(a, b);
      StrictTail(b, a);
      StrictUnique(a[1..], b[1..]);
      assert a == [a[0]] + a[1..] && b == [b[0]] + b[1..];
    }
  }
}
