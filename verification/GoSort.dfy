/** Go's `sort.Slice` by its contract: some sorted permutation.  Callers use nothing else of it. */
module GoSort {

  /** What `sort.Slice` needs of its comparison. */
  ghost predicate StrictWeakOrder<T(!new)>(less: (T, T) -> bool) {
    && (forall a, b :: less(a, b) ==> !less(b, a))
    && (forall a, b, c :: less(a, c) ==> less(a, b) || less(b, c))
  }

  predicate SortedBy<T>(s: seq<T>, less: (T, T) -> bool) {
    forall i, j | 0 <= i < j < |s| :: !less(s[j], s[i])
  }

  function Insert<T>(s: seq<T>, x: T, less: (T, T) -> bool): seq<T> {
    if s == [] || less(x, s[0]) then [x] + s else [s[0]] + Insert(s[1..], x, less)
  }

  lemma {:induction false} InsertIsPermutation<T>(s: seq<T>, x: T, less: (T, T) -> bool)
    ensures multiset(Insert(s, x, less)) == multiset(s) + multiset{x}
  {
    if s != [] {
      assert s == [s[0]] + s[1..];
      if !less(x, s[0]) { InsertIsPermutation(s[1..], x, less); }
    }
  }

  lemma {:induction false} InsertIsSorted<T(!new)>(s: seq<T>, x: T, less: (T, T) -> bool)
    requires StrictWeakOrder(less) && SortedBy(s, less)
    ensures SortedBy(Insert(s, x, less), less)
  {
    if s != [] {
      if less(x, s[0]) {
        forall j | 0 <= j < |s| ensures !less(s[j], x) {
          NotBelow(s[j], s[0], x, less);
        }
      } else {
        var rest := Insert(s[1..], x, less);
        InsertIsSorted(s[1..], x, less);
        InsertIsPermutation(s[1..], x, less);
        forall j | 0 <= j < |rest| ensures !less(rest[j], s[0]) {
          assert rest[j] in multiset(rest);
          if rest[j] != x {
            assert rest[j] in s[1..];
          }
        }
      }
    }
  }

  lemma NotBelow<T(!new)>(a: T, b: T, c: T, less: (T, T) -> bool)
    requires StrictWeakOrder(less) && less(c, b) && !less(a, b)
    ensures !less(a, c)
  {
  }

  method SortSlice<T(!new)>(s: seq<T>, less: (T, T) -> bool) returns (r: seq<T>)
    requires StrictWeakOrder(less)
    ensures multiset(r) == multiset(s)
    ensures SortedBy(r, less)
  {
    r := [];
    for i := 0 to |s|
      invariant multiset(r) == multiset(s[..i])
      invariant SortedBy(r, less)
    {
      InsertIsPermutation(r, s[i], less);
      InsertIsSorted(r, s[i], less);
      assert s[..i + 1] == s[..i] + [s[i]];
      r := Insert(r, s[i], less);
    }
    assert s[..|s|] == s;
  }

  lemma SameElements<T>(r: seq<T>, s: seq<T>)
    requires multiset(r) == multiset(s)
    ensures |r| == |s| && forall x :: x in r <==> x in s
  {
    assert |multiset(r)| == |multiset(s)|;
    forall x ensures x in r <==> x in s {
      assert x in r <==> x in multiset(r);
      assert x in s <==> x in multiset(s);
    }
  }

  lemma TwiceCounts<T>(r: seq<T>, i: nat, j: nat)
    requires i < j < |r| && r[i] == r[j]
    ensures multiset(r)[r[i]] >= 2
  {
    assert r == r[..j] + [r[j]] + r[j + 1..];
    assert r[..j][i] == r[i];
  }

  /** Where different elements are always ordered, there is only one sorted permutation. */
  lemma {:induction false} SortedPermutationIsUnique<T(!new)>(a: seq<T>, b: seq<T>, less: (T, T) -> bool)
    requires multiset(a) == multiset(b) && SortedBy(a, less) && SortedBy(b, less)
    requires forall x, y | x in a && y in a && x != y :: less(x, y) || less(y, x)
    ensures a == b
  {
    hide SortedBy;
    SameElements(a, b);
    if a != [] {
      SameSmallest(a, b, less);
      assert a == [a[0]] + a[1..] && b == [b[0]] + b[1..];
      TailPermutation(a);
      TailPermutation(b);
      SortedTail(a, less);
      SortedTail(b, less);
      SortedPermutationIsUnique(a[1..], b[1..], less);
    }
  }

  lemma SortedTail<T>(s: seq<T>, less: (T, T) -> bool)
    requires s != [] && SortedBy(s, less)
    ensures SortedBy(s[1..], less)
  {
  }

  lemma SameSmallest<T(!new)>(a: seq<T>, b: seq<T>, less: (T, T) -> bool)
    requires a != [] && b != [] && SortedBy(a, less) && SortedBy(b, less)
    requires forall x :: x in a <==> x in b
    requires forall x, y | x in a && y in a && x != y :: less(x, y) || less(y, x)
    ensures a[0] == b[0]
  {
    assert a[0] in a && b[0] in b;
    var i :| 0 <= i < |b| && b[i] == a[0];
    var j :| 0 <= j < |a| && a[j] == b[0];
  }

  lemma TailPermutation<T>(s: seq<T>)
    requires s != []
    ensures multiset(s[1..]) == multiset(s) - multiset{s[0]}
  {
    assert s == [s[0]] + s[1..];
  }

  predicate StrictlySortedBy<T>(s: seq<T>, less: (T, T) -> bool) {
    forall i, j | 0 <= i < j < |s| :: less(s[i], s[j])
  }

  lemma SomeElement<T>(s: seq<T>)
    requires s != []
    ensures exists x :: x in s
  {
    assert s[0] in s;
  }

  lemma TailElements<T(!new)>(s: seq<T>, less: (T, T) -> bool)
    requires s != [] && StrictlySortedBy(s, less) && StrictWeakOrder(less)
    ensures forall x :: x in s[1..] <==> x in s && x != s[0]
  {
    assert s == [s[0]] + s[1..];
    forall i | 0 < i < |s| ensures s[i] != s[0] { assert less(s[0], s[i]); }
  }

  /** There is only one strictly sorted list with given elements. */
  lemma {:induction false} StrictlySortedIsUnique<T(!new)>(a: seq<T>, b: seq<T>, less: (T, T) -> bool)
    requires StrictWeakOrder(less) && StrictlySortedBy(a, less) && StrictlySortedBy(b, less)
    requires forall x :: x in a <==> x in b
    ensures a == b
  {
    if a == [] {
      if b != [] { SomeElement(b); }
    } else {
      SomeElement(a);
      assert b != [];
      SameFirst(a, b, less);
      TailElements(a, less);
      TailElements(b, less);
      StrictlySortedIsUnique(a[1..], b[1..], less);
      assert a == [a[0]] + a[1..] && b == [b[0]] + b[1..];
    }
  }

  lemma SameFirst<T(!new)>(a: seq<T>, b: seq<T>, less: (T, T) -> bool)
    requires StrictWeakOrder(less) && StrictlySortedBy(a, less) && StrictlySortedBy(b, less)
    requires a != [] && b != [] && forall x :: x in a <==> x in b
    ensures a[0] == b[0]
  {
    assert a[0] in a && b[0] in b;
    var i :| 0 <= i < |b| && b[i] == a[0];
    var j :| 0 <= j < |a| && a[j] == b[0];
    if i > 0 { assert less(b[0], b[i]); }
    if j > 0 { assert less(a[0], a[j]); }
  }

  /** Without the elements equal to their predecessor. */
  function Uniq<T(==)>(s: seq<T>): seq<T> {
    if |s| <= 1 then s
    else Uniq(s[..|s| - 1]) + if s[|s| - 1] == s[|s| - 2] then [] else [s[|s| - 1]]
  }

  /** Where different elements are always ordered, a sorted list so becomes the strictly sorted list
      of its elements. */
  lemma {:induction false} UniqFacts<T(!new)>(s: seq<T>, less: (T, T) -> bool)
    requires StrictWeakOrder(less) && SortedBy(s, less)
    requires forall x, y | x in s && y in s && x != y :: less(x, y) || less(y, x)
    ensures StrictlySortedBy(Uniq(s), less)
    ensures forall x :: x in Uniq(s) <==> x in s
    ensures s != [] ==> Uniq(s) != [] && Uniq(s)[|Uniq(s)| - 1] == s[|s| - 1]
  {
    if |s| > 1 {
      var init := s[..|s| - 1];
      UniqFacts(init, less);
      UniqStep(s, Uniq(init), less);
    }
  }

  lemma UniqStep<T(!new)>(s: seq<T>, u: seq<T>, less: (T, T) -> bool)
    requires StrictWeakOrder(less) && |s| > 1 && SortedBy(s, less) && StrictlySortedBy(u, less)
    requires forall x, y | x in s && y in s && x != y :: less(x, y) || less(y, x)
    requires u != [] && u[|u| - 1] == s[|s| - 2]
    requires forall x :: x in u <==> x in s[..|s| - 1]
    ensures var r := u + if s[|s| - 1] == s[|s| - 2] then [] else [s[|s| - 1]];
            StrictlySortedBy(r, less) && forall x :: x in r <==> x in s
  {
    var init, last := s[..|s| - 1], s[|s| - 1];
    assert s == init + [last] && init[|s| - 2] == s[|s| - 2];
    if last != s[|s| - 2] {
      forall i | 0 <= i < |u| ensures less(u[i], last) {
        assert less(s[|s| - 2], last);
        if i < |u| - 1 { assert less(u[i], u[|u| - 1]); }
      }
    }
  }

  /** `sort.Search`: the first index at which a condition holds that holds from there on. */
  method Search(n: nat, f: nat -> bool) returns (idx: nat)
    requires forall i, j | 0 <= i < j < n :: f(i) ==> f(j)
    ensures idx <= n && (forall i | 0 <= i < idx :: !f(i)) && (forall i | idx <= i < n :: f(i))
  {
    var i: nat, j: nat := 0, n;
    while i < j
      invariant i <= j <= n
      invariant forall k | 0 <= k < i :: !f(k)
      invariant forall k | j <= k < n :: f(k)
    {
      var h := (i + j) / 2;
      if !f(h) {
        i := h + 1;
      } else {
        j := h;
      }
    }
    idx := i;
  }
}
