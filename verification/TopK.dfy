// A bounded list that keeps the best elements seen so far: insertion by shifting
// in a fixed array, against stable sorting of the whole stream.
module TopK {
  import opened Words

  type Key<!T> = T -> int

  // Where x goes: behind every element whose key does not exceed its own.
  function Position<T>(key: Key<T>, s: seq<T>, x: T): (p: nat)
    ensures p <= |s|
    ensures forall i :: p <= i < |s| ==> key(s[i]) > key(x)
    ensures p > 0 ==> key(s[p - 1]) <= key(x)
  {
    if s == [] || key(s[|s| - 1]) <= key(x) then |s| else Position(key, s[..|s| - 1], x)
  }

  function Insert<T>(key: Key<T>, s: seq<T>, x: T): (r: seq<T>)
    ensures |r| == |s| + 1
  {
    var p := Position(key, s, x);
    s[..p] + [x] + s[p..]
  }

  function Take<T>(s: seq<T>, n: nat): seq<T> { s[..Min(|s|, n)] }

  function InsertBounded<T>(key: Key<T>, s: seq<T>, capacity: nat, x: T): seq<T> {
    Take(Insert(key, s, x), capacity)
  }

  // Stable insertion sort of a stream, and the bounded list it leaves behind.
  function Sorted<T>(key: Key<T>, xs: seq<T>): (r: seq<T>)
    ensures |r| == |xs|
  {
    if xs == [] then [] else Insert(key, Sorted(key, xs[..|xs| - 1]), xs[|xs| - 1])
  }

  function Kept<T>(key: Key<T>, xs: seq<T>, capacity: nat): seq<T> {
    if xs == [] then [] else InsertBounded(key, Kept(key, xs[..|xs| - 1], capacity), capacity, xs[|xs| - 1])
  }

  ghost predicate Ascending<T>(key: Key<T>, s: seq<T>) {
    forall i, j :: 0 <= i <= j < |s| ==> key(s[i]) <= key(s[j])
  }

  lemma {:induction false} PositionIs<T>(key: Key<T>, s: seq<T>, x: T, p: nat)
    requires p <= |s|
    requires forall i :: p <= i < |s| ==> key(s[i]) > key(x)
    requires p > 0 ==> key(s[p - 1]) <= key(x)
    ensures Position(key, s, x) == p
    decreases |s|
  {
    if p < |s| { PositionIs(key, s[..|s| - 1], x, p); }
  }

  lemma InsertAscending<T>(key: Key<T>, s: seq<T>, x: T)
    requires Ascending(key, s)
    ensures Ascending(key, Insert(key, s, x))
  {
    var p, r := Position(key, s, x), Insert(key, s, x);
    forall i, j | 0 <= i <= j < |r| ensures key(r[i]) <= key(r[j]) {
      assert r[i] == if i < p then s[i] else if i == p then x else s[i - 1];
      assert r[j] == if j < p then s[j] else if j == p then x else s[j - 1];
    }
  }

  lemma {:induction false} SortedAscending<T>(key: Key<T>, xs: seq<T>)
    ensures Ascending(key, Sorted(key, xs))
    decreases |xs|
  {
    if xs != [] {
      SortedAscending(key, xs[..|xs| - 1]);
      InsertAscending(key, Sorted(key, xs[..|xs| - 1]), xs[|xs| - 1]);
    }
  }

  lemma InsertPermutes<T>(key: Key<T>, s: seq<T>, x: T)
    ensures multiset(Insert(key, s, x)) == multiset(s) + multiset{x}
  {
    var p := Position(key, s, x);
    assert s == s[..p] + s[p..];
  }

  lemma {:induction false} SortedPermutes<T>(key: Key<T>, xs: seq<T>)
    ensures multiset(Sorted(key, xs)) == multiset(xs)
    decreases |xs|
  {
    if xs != [] {
      var n := |xs| - 1;
      SortedPermutes(key, xs[..n]);
      InsertPermutes(key, Sorted(key, xs[..n]), xs[n]);
      LastApart(xs);
    }
  }

  lemma LastApart<T>(xs: seq<T>)
    requires xs != []
    ensures multiset(xs) == multiset(xs[..|xs| - 1]) + multiset{xs[|xs| - 1]}
  {
    assert xs == xs[..|xs| - 1] + [xs[|xs| - 1]];
  }

  // ---------- stability ----------

  function WithKey<T>(key: Key<T>, s: seq<T>, k: int): seq<T> {
    if s == [] then []
    else
      var rest := WithKey(key, s[..|s| - 1], k);
      if key(s[|s| - 1]) == k then rest + [s[|s| - 1]] else rest
  }

  lemma {:induction false} WithKeyAppend<T>(key: Key<T>, s: seq<T>, t: seq<T>, k: int)
    ensures WithKey(key, s + t, k) == WithKey(key, s, k) + WithKey(key, t, k)
    decreases |t|
  {
    if t == [] {
      assert s + t == s;
    } else {
      var n := |t| - 1;
      WithKeyAppend(key, s, t[..n], k);
      assert (s + t)[..|s + t| - 1] == s + t[..n];
      Assoc(WithKey(key, s, k), WithKey(key, t[..n], k), [t[n]]);
    }
  }

  lemma {:induction false} NoneWithKey<T>(key: Key<T>, s: seq<T>, k: int)
    requires forall i :: 0 <= i < |s| ==> key(s[i]) != k
    ensures WithKey(key, s, k) == []
    decreases |s|
  {
    if s != [] { NoneWithKey(key, s[..|s| - 1], k); }
  }

  // An element put between two parts.
  lemma {:induction false} BetweenStable<T>(key: Key<T>, a: seq<T>, b: seq<T>, x: T, k: int)
    requires key(x) == k ==> forall i :: 0 <= i < |b| ==> key(b[i]) != k
    ensures WithKey(key, a + [x] + b, k) == WithKey(key, a + b, k) + if key(x) == k then [x] else []
  {
    WithKeyAppend(key, a + [x], b, k);
    WithKeyAppend(key, a, [x], k);
    WithKeyAppend(key, a, b, k);
    OneWithKey(key, x, k);
    if key(x) == k { NoneWithKey(key, b, k); }
  }

  lemma {:induction false} InsertStable<T>(key: Key<T>, s: seq<T>, x: T, k: int)
    ensures WithKey(key, Insert(key, s, x), k) == WithKey(key, s, k) + if key(x) == k then [x] else []
  {
    var p := Position(key, s, x);
    assert s == s[..p] + s[p..];
    BetweenStable(key, s[..p], s[p..], x, k);
  }

  lemma {:induction false} OneWithKey<T>(key: Key<T>, x: T, k: int)
    ensures WithKey(key, [x], k) == if key(x) == k then [x] else []
  {
    assert [x][..0] == [];
  }

  // Elements with equal keys keep the order in which they arrived.
  lemma {:induction false} SortedStable<T>(key: Key<T>, xs: seq<T>, k: int)
    ensures WithKey(key, Sorted(key, xs), k) == WithKey(key, xs, k)
    decreases |xs|
  {
    if xs != [] {
      SortedStable(key, xs[..|xs| - 1], k);
      InsertStable(key, Sorted(key, xs[..|xs| - 1]), xs[|xs| - 1], k);
    }
  }

  // ---------- the bounded list is a prefix of the sorted stream ----------

  lemma {:induction false} PositionInPrefix<T>(key: Key<T>, s: seq<T>, n: nat, x: T)
    requires Ascending(key, s) && n <= |s|
    ensures Position(key, s[..n], x) == Min(Position(key, s, x), n)
  {
    var p := Position(key, s, x);
    var q := Min(p, n);
    if q > 0 && q < p { assert key(s[q - 1]) <= key(s[p - 1]); }
    PositionIs(key, s[..n], x, q);
  }

  lemma TakeOfInsert<T>(s: seq<T>, n: nat, p: nat, x: T)
    requires p <= |s| && n <= |s|
    ensures Take(s[..n][..Min(p, n)] + [x] + s[..n][Min(p, n)..], n) == Take(s[..p] + [x] + s[p..], n)
  {
    var a, b := s[..n][..Min(p, n)] + [x] + s[..n][Min(p, n)..], s[..p] + [x] + s[p..];
    assert forall i | 0 <= i < n :: a[i] == b[i];
  }

  lemma InsertIntoPrefix<T>(key: Key<T>, s: seq<T>, capacity: nat, x: T)
    requires Ascending(key, s)
    ensures InsertBounded(key, Take(s, capacity), capacity, x) == Take(Insert(key, s, x), capacity)
  {
    if capacity <= |s| {
      PositionInPrefix(key, s, capacity, x);
      TakeOfInsert(s, capacity, Position(key, s, x), x);
    } else {
      assert Take(s, capacity) == s;
    }
  }

  // After any stream of insertions the bounded list holds the first elements
  // of the stable sort of everything that was offered.
  lemma {:induction false} KeptIsPrefix<T>(key: Key<T>, xs: seq<T>, capacity: nat)
    ensures Kept(key, xs, capacity) == Take(Sorted(key, xs), capacity)
    decreases |xs|
  {
    if xs != [] {
      var n := |xs| - 1;
      KeptIsPrefix(key, xs[..n], capacity);
      SortedAscending(key, xs[..n]);
      InsertIntoPrefix(key, Sorted(key, xs[..n]), capacity, xs[n]);
    }
  }

  // The head of a nonempty list is at least as good as everything offered.
  lemma {:induction false} HeadIsLeast<T>(key: Key<T>, xs: seq<T>, capacity: nat, x: T)
    requires capacity > 0 && x in xs
    ensures Kept(key, xs, capacity) != [] && Kept(key, xs, capacity)[0] in xs
    ensures key(Kept(key, xs, capacity)[0]) <= key(x)
  {
    KeptIsPrefix(key, xs, capacity);
    SortedAscending(key, xs);
    SortedPermutes(key, xs);
    var r := Sorted(key, xs);
    assert x in multiset(r) && r[0] in multiset(xs);
    var i :| 0 <= i < |r| && r[i] == x;
  }

  lemma {:induction false} KeptFrom<T>(key: Key<T>, xs: seq<T>, capacity: nat)
    ensures |Kept(key, xs, capacity)| == Min(|xs|, capacity)
    ensures forall x :: x in Kept(key, xs, capacity) ==> x in xs
    ensures Ascending(key, Kept(key, xs, capacity))
  {
    KeptIsPrefix(key, xs, capacity);
    SortedAscending(key, xs);
    SortedPermutes(key, xs);
    forall x | x in Kept(key, xs, capacity) ensures x in xs {
      assert x in multiset(Sorted(key, xs));
    }
  }

  // ---------- insertion in place ----------

  // From the chosen last slot, larger elements move up by one until x fits.
  method ShiftIn<T>(key: Key<T>, list: array<T>, last: nat, x: T)
    requires last < list.Length
    modifies list
    ensures list[..last + 1] == Insert(key, old(list[..last]), x)
    ensures forall i :: last < i < list.Length ==> list[i] == old(list[i])
  {
    ghost var s := list[..last];
    var position := last;
    while position > 0 && key(x) < key(list[position - 1])
      invariant position <= last
      invariant forall i :: 0 <= i < position ==> list[i] == s[i]
      invariant forall i :: position < i <= last ==> list[i] == s[i - 1]
      invariant forall i :: position <= i < last ==> key(s[i]) > key(x)
      invariant forall i :: last < i < list.Length ==> list[i] == old(list[i])
    {
      list[position] := list[position - 1];
      position := position - 1;
    }
    list[position] := x;
    PositionIs(key, s, x, position);
    Shifted(s, x, position, list[..last + 1]);
  }

  lemma Shifted<T>(s: seq<T>, x: T, p: nat, r: seq<T>)
    requires p <= |s| && |r| == |s| + 1 && r[p] == x
    requires forall i :: 0 <= i < p ==> r[i] == s[i]
    requires forall i :: p < i < |r| ==> r[i] == s[i - 1]
    ensures r == s[..p] + [x] + s[p..]
  {
  }

  lemma RoomyInsert<T>(key: Key<T>, s: seq<T>, capacity: nat, x: T)
    requires |s| < capacity && Ascending(key, s)
    ensures InsertBounded(key, s, capacity, x) == Insert(key, s, x) && Ascending(key, Insert(key, s, x))
  {
    InsertAscending(key, s, x);
  }

  lemma DroppedInsert<T>(key: Key<T>, s: seq<T>, x: T)
    requires s != [] && key(x) >= key(s[|s| - 1])
    ensures InsertBounded(key, s, |s|, x) == s
  {
    PositionIs(key, s, x, |s|);
  }

  lemma FullInsert<T>(key: Key<T>, s: seq<T>, x: T)
    requires s != [] && Ascending(key, s) && key(x) < key(s[|s| - 1])
    ensures InsertBounded(key, s, |s|, x) == Insert(key, s[..|s| - 1], x)
    ensures Ascending(key, Insert(key, s[..|s| - 1], x))
  {
    var n := |s| - 1;
    PositionInPrefix(key, s, n, x);
    InsertAscending(key, s[..n], x);
    CutInsert(s, Position(key, s, x), x);
  }

  lemma CutInsert<T>(s: seq<T>, p: nat, x: T)
    requires p < |s|
    ensures Take(s[..p] + [x] + s[p..], |s|) == s[..|s| - 1][..p] + [x] + s[..|s| - 1][p..]
  {
  }

  method InsertFull<T>(key: Key<T>, list: array<T>, capacity: nat, x: T)
    requires 0 < capacity <= list.Length && Ascending(key, list[..capacity])
    modifies list
    ensures list[..capacity] == InsertBounded(key, old(list[..capacity]), capacity, x)
    ensures Ascending(key, list[..capacity])
  {
    ghost var s := list[..capacity];
    assert list[capacity - 1] == s[capacity - 1];
    if key(x) >= key(list[capacity - 1]) {
      DroppedInsert(key, s, x);
      return;
    }
    FullInsert(key, s, x);
    assert s[..capacity - 1] == list[..capacity - 1];
    ShiftIn(key, list, capacity - 1, x);
  }

  // A full list drops its last element, or x itself when x is no better.
  method InsertInPlace<T>(key: Key<T>, list: array<T>, count: nat, capacity: nat, x: T) returns (newCount: nat)
    requires count <= capacity <= list.Length && Ascending(key, list[..count])
    modifies list
    ensures newCount == Min(count + 1, capacity)
    ensures list[..newCount] == InsertBounded(key, old(list[..count]), capacity, x)
    ensures Ascending(key, list[..newCount])
  {
    newCount := count;
    if capacity == 0 {
      return;
    }
    if count < capacity {
      RoomyInsert(key, list[..count], capacity, x);
      ShiftIn(key, list, count, x);
      newCount := count + 1;
    } else {
      InsertFull(key, list, capacity, x);
    }
  }
}
