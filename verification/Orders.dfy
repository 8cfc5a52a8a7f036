/** Code-point order on strings, the stable sort behind Python's `sorted`, and sequence helpers. */
module Orders {

  /** Python's `<` on str: lexicographic by code point. */
  predicate StrLess(a: string, b: string) {
    b != [] && (a == [] || a[0] < b[0] || (a[0] == b[0] && StrLess(a[1..], b[1..])))
  }

  lemma {:induction false} StrLessIrreflexive(a: string)
    ensures !StrLess(a, a)
  {
    if a == [] {
    } else {
      StrLessIrreflexive(a[1..]);
    }
  }

  lemma {:induction false} StrLessTransitive(a: string, b: string, c: string)
    requires StrLess(a, b) && StrLess(b, c)
    ensures StrLess(a, c)
  {
    if a != [] && a[0] == b[0] == c[0] {
      StrLessTransitive(a[1..], b[1..], c[1..]);
    }
  }

  lemma {:induction false} StrLessConnected(a: string, b: string)
    ensures StrLess(a, b) || StrLess(b, a) || a == b
  {
    if a != [] && b != [] && a[0] == b[0] {
      StrLessConnected(a[1..], b[1..]);
      assert a == [a[0]] + a[1..] && b == [b[0]] + b[1..];
    }
  }

  lemma StrLessTotalOrder()
    ensures forall a: string :: !StrLess(a, a)
    ensures forall a: string, b: string, c: string :: StrLess(a, b) && StrLess(b, c) ==> StrLess(a, c)
    ensures forall a: string, b: string :: StrLess(a, b) || StrLess(b, a) || a == b
  {
    forall a: string ensures !StrLess(a, a) { StrLessIrreflexive(a); }
    forall a: string, b: string, c: string | StrLess(a, b) && StrLess(b, c) ensures StrLess(a, c) {
      StrLessTransitive(a, b, c);
    }
    forall a: string, b: string ensures StrLess(a, b) || StrLess(b, a) || a == b { StrLessConnected(a, b); }
  }

  /** a is a proper beginning of b, or at the first place where they differ its character has the smaller code point. */
  ghost predicate ComesFirst(a: string, b: string) { exists n: nat :: DiffersAt(a, b, n) }

  ghost predicate DiffersAt(a: string, b: string, n: nat) {
    n <= |a| && n < |b| && (forall k :: 0 <= k < n ==> a[k] == b[k]) && (n == |a| || a[n] < b[n])
  }

  lemma ComesFirstBehind(x: char, a: string, b: string)
    ensures ComesFirst([x] + a, [x] + b) <==> ComesFirst(a, b)
  {
    var c, d := [x] + a, [x] + b;
    if n: nat :| DiffersAt(a, b, n) { assert DiffersAt(c, d, n + 1); }
    if n: nat :| DiffersAt(c, d, n) {
      assert forall k :: 0 <= k < n - 1 ==> a[k] == c[k + 1] && b[k] == d[k + 1];
      assert DiffersAt(a, b, n - 1);
    }
  }

  lemma {:induction false} StrLessExactly(a: string, b: string)
    ensures StrLess(a, b) <==> ComesFirst(a, b)
  {
    if a == [] || b == [] || a[0] != b[0] {
      FirstCharacters(a, b);
    } else {
      StrLessExactly(a[1..], b[1..]);
      ComesFirstBehind(a[0], a[1..], b[1..]);
      assert a == [a[0]] + a[1..] && b == [a[0]] + b[1..];
    }
  }

  lemma FirstCharacters(a: string, b: string)
    requires a == [] || b == [] || a[0] != b[0]
    ensures ComesFirst(a, b) <==> b != [] && (a == [] || a[0] < b[0])
  {
    if b != [] && (a == [] || a[0] < b[0]) { assert DiffersAt(a, b, 0); }
  }

  /** Python's order on lists of strings. */
  predicate LexLe(a: seq<string>, b: seq<string>) {
    a == [] || (b != [] && (StrLess(a[0], b[0]) || (a[0] == b[0] && LexLe(a[1..], b[1..]))))
  }

  predicate IsLeast(m: string, s: set<string>) {
    m in s && forall y :: y in s && y != m ==> StrLess(m, y)
  }

  lemma {:induction false} LeastExists(s: set<string>)
    requires s != {}
    ensures exists m :: IsLeast(m, s)
    decreases |s|
  {
    StrLessTotalOrder();
    var x :| x in s;
    if s == {x} {
      assert IsLeast(x, s);
    } else {
      assert s - {x} != {} by { assert exists y :: y in s && y != x; }
      LeastExists(s - {x});
      var n :| IsLeast(n, s - {x});
      assert IsLeast(if StrLess(n, x) then n else x, s);
    }
  }

  /** The least element of a set: what `heapq.heappop` takes from a heap holding that set. */
  ghost function Least(s: set<string>): (m: string)
    requires s != {}
    ensures IsLeast(m, s)
  {
    LeastExists(s);
    var m :| IsLeast(m, s);
    m
  }

  lemma LeastUnique(m: string, s: set<string>)
    requires IsLeast(m, s)
    ensures s != {} && Least(s) == m
  {
    StrLessTotalOrder();
  }

  /** `sorted(s)` for a set of strings. */
  ghost function SortedSet(s: set<string>): seq<string>
    decreases |s|
  {
    if s == {} then [] else [Least(s)] + SortedSet(s - {Least(s)})
  }

  ghost predicate Ascending(q: seq<string>) {
    forall i, j :: 0 <= i < j < |q| ==> StrLess(q[i], q[j])
  }

  lemma {:induction false} SortedSetSorts(s: set<string>)
    ensures Elems(SortedSet(s)) == s
    ensures Ascending(SortedSet(s))
    decreases |s|
  {
    if s != {} {
      SortedSetSorts(s - {Least(s)});
      PutLeastFirst(Least(s), SortedSet(s - {Least(s)}));
    }
  }

  lemma PutLeastFirst(m: string, rest: seq<string>)
    requires Ascending(rest) && m !in rest && IsLeast(m, Elems(rest) + {m})
    ensures Ascending([m] + rest) && Elems([m] + rest) == {m} + Elems(rest)
  {
  }

  // ---------------------------------------------------------------- sequences

  function Elems<T>(q: seq<T>): set<T> { set x | x in q }

  /** The least element and the others; `heapq.heappop` on a heap without duplicates. */
  method PopLeast(heap: set<string>) returns (least: string, rest: set<string>)
    requires heap != {}
    ensures IsLeast(least, heap) && rest == heap - {least}
  {
    least :| least in heap;
    var todo, seen := heap - {least}, {least};
    while todo != {}
      invariant seen + todo == heap && seen !! todo && IsLeast(least, seen)
      decreases todo
    {
      var y :| y in todo;
      StrLessConnected(y, least);
      forall z | z in seen && StrLess(y, least) && StrLess(least, z) ensures StrLess(y, z) {
        StrLessTransitive(y, least, z);
      }
      todo, seen := todo - {y}, seen + {y};
      if StrLess(y, least) { least := y; }
    }
    rest := heap - {least};
  }

  /** `sorted` */
  method SortedList(s: set<string>) returns (q: seq<string>)
    ensures q == SortedSet(s)
  {
    var rest := s;
    q := [];
    while rest != {}
      invariant q + SortedSet(rest) == SortedSet(s)
      decreases rest
    {
      var m, rest' := PopLeast(rest);
      LeastUnique(m, rest);
      q, rest := q + [m], rest';
    }
  }

  lemma TakeNext<T>(q: seq<T>, i: nat)
    requires i < |q|
    ensures q[..i + 1] == q[..i] + [q[i]]
    ensures forall x :: x in q[..i + 1] <==> x in q[..i] || x == q[i]
  {
  }

  lemma TakeAll<T>(q: seq<T>)
    ensures q[..|q|] == q
  {
  }

  lemma Reassociate<T>(a: seq<T>, b: seq<T>, c: seq<T>)
    ensures (a + b) + c == a + (b + c)
  {
  }

  lemma EmptyElems<T>(q: seq<T>)
    ensures q == [] <==> Elems(q) == {}
  {
    if q != [] { assert q[0] in Elems(q); }
  }

  predicate Distinct<T(==)>(q: seq<T>) {
    forall i, j :: 0 <= i < j < |q| ==> q[i] != q[j]
  }

  lemma {:induction false} DistinctCard<T>(q: seq<T>)
    requires Distinct(q)
    ensures |Elems(q)| == |q|
  {
    if q == [] {
    } else {
      DistinctCard(q[1..]);
      assert q == [q[0]] + q[1..];
      assert Elems(q) == {q[0]} + Elems(q[1..]);
      assert q[0] !in q[1..];
    }
  }

  lemma {:induction false} DistinctMultiplicity<T>(q: seq<T>, x: T)
    requires Distinct(q)
    ensures multiset(q)[x] == if x in q then 1 else 0
  {
    if q != [] {
      DistinctMultiplicity(q[1..], x);
      assert q == [q[0]] + q[1..];
      assert q[0] !in q[1..];
    }
  }

  lemma DistinctLast<T>(q: seq<T>)
    requires q != [] && Distinct(q)
    ensures var n := |q| - 1; Distinct(q[..n]) && q[n] !in q[..n] && forall x :: x in q <==> x in q[..n] || x == q[n]
  {
    var n := |q| - 1;
    assert q == q[..n] + [q[n]];
  }

  lemma DistinctSameElems<T>(a: seq<T>, b: seq<T>)
    requires Distinct(a) && Distinct(b) && forall x :: x in a <==> x in b
    ensures multiset(a) == multiset(b)
  {
    forall x ensures multiset(a)[x] == multiset(b)[x] {
      DistinctMultiplicity(a, x);
      DistinctMultiplicity(b, x);
    }
  }

  /** A sequence longer than the set holding its elements repeats one of them. */
  lemma Pigeonhole<T>(q: seq<T>, s: set<T>) returns (i: nat, j: nat)
    requires Elems(q) <= s && |q| > |s|
    ensures i < j < |q| && q[i] == q[j]
  {
    if Distinct(q) {
      DistinctCard(q);
      SubsetCard(Elems(q), s);
      assert false;
    }
    i, j :| 0 <= i < j < |q| && q[i] == q[j];
  }

  lemma {:induction false} SubsetCard<T>(a: set<T>, b: set<T>)
    requires a <= b
    ensures |a| <= |b|
  {
    if a == {} {
    } else {
      var x :| x in a;
      SubsetCard(a - {x}, b - {x});
    }
  }

  ghost predicate Subsequence<T>(a: seq<T>, b: seq<T>)
    decreases |b|
  {
    a == [] || (b != [] && ((a[0] == b[0] && Subsequence(a[1..], b[1..])) || Subsequence(a, b[1..])))
  }

  lemma {:induction false} SubsequenceSelf<T>(a: seq<T>)
    ensures Subsequence(a, a)
  {
    if a != [] { SubsequenceSelf(a[1..]); }
  }

  lemma {:induction false} SubsequenceTransitive<T>(a: seq<T>, b: seq<T>, c: seq<T>)
    requires Subsequence(a, b) && Subsequence(b, c)
    ensures Subsequence(a, c)
    decreases |c|, |b|
  {
    if a == [] {
    } else if b[0] == c[0] && Subsequence(b[1..], c[1..]) {
      if a[0] == b[0] && Subsequence(a[1..], b[1..]) {
        SubsequenceTransitive(a[1..], b[1..], c[1..]);
      } else {
        SubsequenceTransitive(a, b[1..], c[1..]);
      }
    } else {
      SubsequenceTransitive(a, b, c[1..]);
    }
  }

  // --------------------------------------------------------- folding in any order

  /** Apply f for the elements of q, first to last. */
  ghost function Fold<S, T>(f: (S, T) -> S, s: S, q: seq<T>): S {
    if q == [] then s else f(Fold(f, s, q[..|q| - 1]), q[|q| - 1])
  }

  lemma {:induction false} FoldConcat<S, T>(f: (S, T) -> S, s: S, a: seq<T>, b: seq<T>)
    ensures Fold(f, s, a + b) == Fold(f, Fold(f, s, a), b)
    decreases |b|
  {
    if b == [] {
      assert a + b == a;
    } else {
      var n := |b| - 1;
      assert (a + b)[..|a| + n] == a + b[..n];
      FoldConcat(f, s, a, b[..n]);
    }
  }

  /** The steps for x and y can be taken either way round, wherever one stands. */
  ghost predicate Swaps<S(!new), T>(f: (S, T) -> S, x: T, y: T) { forall s :: f(f(s, x), y) == f(f(s, y), x) }

  ghost predicate Precede<T>(q: seq<T>, x: T, y: T) { exists i, j :: 0 <= i < j < |q| && q[i] == x && q[j] == y }

  /** The two arrangements disagree about x and y. */
  ghost predicate Reversed<T>(a: seq<T>, b: seq<T>, x: T, y: T) { Precede(a, x, y) && Precede(b, y, x) }

  lemma {:induction false} FoldMoveLast<S(!new), T>(f: (S, T) -> S, s: S, a: seq<T>, x: T, b: seq<T>)
    requires forall y :: y in b ==> Swaps(f, x, y)
    ensures Fold(f, s, a + [x] + b) == f(Fold(f, s, a + b), x)
    decreases |b|
  {
    if b == [] {
      assert a + [x] + b == a + [x] && (a + [x])[..|a|] == a && a + b == a;
    } else {
      var n := |b| - 1;
      assert (a + [x] + b)[..|a| + 1 + n] == a + [x] + b[..n] && (a + b)[..|a| + n] == a + b[..n];
      FoldMoveLast(f, s, a, x, b[..n]);
      assert Swaps(f, x, b[n]);
    }
  }

  /** A position in a sequence without one element is a position in the whole one, in the same order. */
  lemma PrecedeInLarger<T>(a: seq<T>, x: T, b: seq<T>, u: T, v: T)
    requires Precede(a + b, u, v)
    ensures Precede(a + [x] + b, u, v)
  {
    var q, r := a + b, a + [x] + b;
    var i, j :| 0 <= i < j < |q| && q[i] == u && q[j] == v;
    var i', j' := if i < |a| then i else i + 1, if j < |a| then j else j + 1;
    assert r[i'] == u && r[j'] == v;
  }

  lemma CutOut<T>(q: seq<T>, x: T) returns (a: seq<T>, b: seq<T>)
    requires Distinct(q) && x in q
    ensures q == a + [x] + b && Distinct(a + b) && x !in a + b
  {
    var i :| 0 <= i < |q| && q[i] == x;
    a, b := q[..i], q[i + 1..];
    assert q == a + [x] + b;
    var r := a + b;
    forall k | 0 <= k < |r| ensures r[k] == q[if k < i then k else k + 1] { }
  }

  lemma SameRest<T>(a: seq<T>, x: T, b: seq<T>, c: seq<T>)
    requires Elems(a + [x] + b) == Elems(c + [x]) && x !in a + b && x !in c
    ensures Elems(a + b) == Elems(c)
  {
    forall y ensures y in a + b <==> y in c {
      assert y in Elems(a + [x] + b) <==> y in a + b || y == x;
      assert y in Elems(c + [x]) <==> y in c || y == x;
    }
  }

  /** Two arrangements of the same elements give the same result if the pairs they disagree about can be swapped. */
  lemma {:induction false} FoldReorder<S(!new), T>(f: (S, T) -> S, s: S, a: seq<T>, b: seq<T>)
    requires Distinct(a) && Distinct(b) && Elems(a) == Elems(b)
    requires forall x, y :: Reversed(a, b, x, y) ==> Swaps(f, x, y)
    ensures Fold(f, s, a) == Fold(f, s, b)
    decreases |b|
  {
    if b == [] {
      EmptyElems(a);
    } else {
      var n := |b| - 1;
      var x, c := b[n], b[..n];
      assert b == c + [x];
      assert x in Elems(a);
      var l, r := CutOut(a, x);
      SameRest(l, x, r, c);
      forall y | y in r ensures Swaps(f, x, y) { LaterIsReversed(l, x, r, c, y); }
      FoldMoveLast(f, s, l, x, r);
      forall u, v | Reversed(l + r, c, u, v) ensures Swaps(f, u, v) {
        PrecedeInLarger(l, x, r, u, v);
        assert Precede(b, v, u);
      }
      FoldReorder(f, s, l + r, c);
    }
  }

  lemma LaterIsReversed<T>(a: seq<T>, x: T, b: seq<T>, c: seq<T>, y: T)
    requires y in b && Elems(a + b) == Elems(c)
    ensures Reversed(a + [x] + b, c + [x], x, y)
  {
    var q, r := a + [x] + b, c + [x];
    var j :| 0 <= j < |b| && b[j] == y;
    assert q[|a|] == x && q[|a| + 1 + j] == y;
    assert (a + b)[|a| + j] == y;
    assert y in Elems(a + b);
    var k :| 0 <= k < |c| && c[k] == y;
    assert r[k] == y && r[|c|] == x;
  }

  // ------------------------------------------------------------ stable sorting

  ghost predicate StrictWeakOrder<T(!new)>(less: (T, T) -> bool) {
    && (forall x :: !less(x, x))
    && (forall x, y, z :: less(x, y) && less(y, z) ==> less(x, z))
    && (forall x, y, z :: !less(x, y) && !less(y, z) ==> !less(x, z))
  }

  ghost predicate SortedBy<T>(less: (T, T) -> bool, q: seq<T>) {
    forall i, j :: 0 <= i < j < |q| ==> !less(q[j], q[i])
  }

  /** Elements of q are told apart by the sort key. */
  ghost predicate KeyedApart<T>(less: (T, T) -> bool, q: seq<T>) {
    forall x, y :: x in q && y in q && x != y ==> less(x, y) || less(y, x)
  }

  function Insert<T>(less: (T, T) -> bool, x: T, q: seq<T>): seq<T> {
    if q == [] then [x]
    else if less(q[0], x) then [q[0]] + Insert(less, x, q[1..])
    else [x] + q
  }

  /** Python's `sorted(q, key=...)`, which is stable. */
  function Sort<T>(less: (T, T) -> bool, q: seq<T>): seq<T> {
    if q == [] then [] else Insert(less, q[0], Sort(less, q[1..]))
  }

  lemma {:induction false} InsertAdds<T>(less: (T, T) -> bool, x: T, q: seq<T>)
    ensures multiset(Insert(less, x, q)) == multiset{x} + multiset(q)
  {
    if q != [] && less(q[0], x) {
      InsertAdds(less, x, q[1..]);
      assert q == [q[0]] + q[1..];
    }
  }

  lemma {:induction false} InsertSorts<T(!new)>(less: (T, T) -> bool, x: T, q: seq<T>)
    requires StrictWeakOrder(less) && SortedBy(less, q)
    ensures SortedBy(less, Insert(less, x, q))
  {
    if q == [] {
    } else if less(q[0], x) {
      var r := Insert(less, x, q[1..]);
      InsertSorts(less, x, q[1..]);
      InsertAdds(less, x, q[1..]);
      forall k | 0 <= k < |r| ensures !less(r[k], q[0]) {
        assert r[k] in multiset(r);
        assert r[k] == x || r[k] in q[1..];
      }
    } else {
      forall k | 0 <= k < |q| ensures !less(q[k], x) {
        assert k > 0 ==> !less(q[k], q[0]);
      }
    }
  }

  lemma {:induction false} SortSorts<T(!new)>(less: (T, T) -> bool, q: seq<T>)
    ensures multiset(Sort(less, q)) == multiset(q)
    ensures |Sort(less, q)| == |q|
    ensures StrictWeakOrder(less) ==> SortedBy(less, Sort(less, q))
  {
    if q == [] {
    } else {
      SortSorts(less, q[1..]);
      InsertAdds(less, q[0], Sort(less, q[1..]));
      if StrictWeakOrder(less) { InsertSorts(less, q[0], Sort(less, q[1..])); }
      assert q == [q[0]] + q[1..];
    }
    assert |multiset(Sort(less, q))| == |multiset(q)|;
  }

  lemma HeadsAgree<T(!new)>(less: (T, T) -> bool, a: seq<T>, b: seq<T>)
    requires a != [] && b != [] && KeyedApart(less, a)
    requires a[0] in b && b[0] in a && SortedBy(less, a) && SortedBy(less, b)
    ensures a[0] == b[0]
  {
  }

  lemma TailBag<T>(a: seq<T>)
    requires a != []
    ensures multiset(a[1..]) == multiset(a) - multiset{a[0]}
  {
    assert a == [a[0]] + a[1..];
  }

  lemma SameBag<T>(a: seq<T>, b: seq<T>)
    requires multiset(a) == multiset(b)
    ensures |a| == |b| && (forall x :: x in a <==> x in b)
  {
    assert |multiset(a)| == |a| && |multiset(b)| == |b|;
    forall x ensures x in a <==> x in b { assert x in multiset(a) <==> x in multiset(b); }
  }

  lemma SortedTail<T>(less: (T, T) -> bool, q: seq<T>)
    requires q != [] && SortedBy(less, q)
    ensures SortedBy(less, q[1..])
  {
  }

  lemma ApartTail<T>(less: (T, T) -> bool, q: seq<T>)
    requires q != [] && KeyedApart(less, q)
    ensures KeyedApart(less, q[1..])
  {
  }

  lemma SameHeadAndTail<T>(a: seq<T>, b: seq<T>)
    requires a != [] && b != [] && a[0] == b[0] && a[1..] == b[1..]
    ensures a == b
  {
    assert a == [a[0]] + a[1..] && b == [b[0]] + b[1..];
  }

  /** A sorted arrangement of key-distinct elements is unique. */
  lemma {:induction false} SortedUnique<T(!new)>(less: (T, T) -> bool, a: seq<T>, b: seq<T>)
    requires KeyedApart(less, a)
    requires multiset(a) == multiset(b)
    requires SortedBy(less, a) && SortedBy(less, b)
    ensures a == b
  {
    SameBag(a, b);
    if a != [] {
      HeadsAgree(less, a, b);
      TailBag(a);
      TailBag(b);
      SortedTail(less, a);
      SortedTail(less, b);
      ApartTail(less, a);
      SortedUnique(less, a[1..], b[1..]);
      SameHeadAndTail(a, b);
    }
  }

  /** Sorting forgets the order of its input when keys tell the elements apart. */
  lemma SortOfPermutation<T(!new)>(less: (T, T) -> bool, a: seq<T>, b: seq<T>)
    requires StrictWeakOrder(less) && KeyedApart(less, a)
    requires multiset(a) == multiset(b)
    ensures Sort(less, a) == Sort(less, b)
  {
    SortSorts(less, a);
    SortSorts(less, b);
    var r := Sort(less, a);
    forall x, y | x in r && y in r && x != y ensures less(x, y) || less(y, x) {
      assert x in multiset(r) && y in multiset(r);
      assert x in a && y in a;
    }
    SortedUnique(less, r, Sort(less, b));
  }
}
