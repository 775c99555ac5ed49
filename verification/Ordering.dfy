/**
 Orders and sorting. `sort.Slice` and `slices.SortFunc` are modelled by `Sort`; proofs use only its
 contract (a permutation of the input, in order), so they hold for any sorting algorithm.
 */
module Ordering {

  /** Byte-wise order of strings, Go's `<`. */
  predicate Before(a: string, b: string) {
    b != "" && (a == "" || a[0] < b[0] || (a[0] == b[0] && Before(a[1..], b[1..])))
  }

  lemma {:induction false} BeforeTotal(a: string, b: string)
    ensures a == b || Before(a, b) || Before(b, a)
    ensures !(Before(a, b) && Before(b, a))
  {
    if a != "" && b != "" {
      BeforeTotal(a[1..], b[1..]);
      assert a == [a[0]] + a[1..] && b == [b[0]] + b[1..];
    }
  }

  lemma {:induction false} BeforeTransitive(a: string, b: string, c: string)
    requires Before(a, b) && Before(b, c)
    ensures Before(a, c)
  {
    if a != "" && a[0] == b[0] == c[0] {
      BeforeTransitive(a[1..], b[1..], c[1..]);
    }
  }

  /** `a` precedes `b` byte by byte: it ends first, or the first byte that differs is smaller. */
  ghost predicate Precedes(a: string, b: string) {
    exists k: nat :: FirstDifference(a, b, k) && (k == |a| || a[k] < b[k])
  }

  predicate FirstDifference(a: string, b: string, k: nat) {
    k <= |a| && k < |b| && forall i | 0 <= i < k :: a[i] == b[i]
  }

  lemma {:induction false} BeforeExact(a: string, b: string)
    ensures Before(a, b) <==> Precedes(a, b)
  {
    if b != "" && (a == "" || a[0] < b[0]) {
      assert FirstDifference(a, b, 0);
    } else if b != "" && a[0] > b[0] {
      assert forall k: nat | FirstDifference(a, b, k) :: k == 0;
    } else if b != "" {
      BeforeExact(a[1..], b[1..]);
      if Precedes(a[1..], b[1..]) {
        var k: nat :| FirstDifference(a[1..], b[1..], k) && (k == |a[1..]| || a[1..][k] < b[1..][k]);
        assert forall i | 0 < i < k + 1 :: a[i] == a[1..][i - 1] && b[i] == b[1..][i - 1];
        assert FirstDifference(a, b, k + 1);
      }
      if Precedes(a, b) {
        var k: nat :| FirstDifference(a, b, k) && (k == |a| || a[k] < b[k]);
        assert FirstDifference(a[1..], b[1..], k - 1);
      }
    }
  }

  /** One component of a comparison key; Go's comparison functions compare component by component. */
  datatype Part = Name(name: string) | Count(count: int)

  predicate PartBefore(a: Part, b: Part) {
    match (a, b)
    case (Name(s), Name(t)) => Before(s, t)
    case (Count(m), Count(n)) => m < n
    case (Count(_), Name(_)) => true
    case (Name(_), Count(_)) => false
  }

  predicate KeyLess(a: seq<Part>, b: seq<Part>) {
    b != [] && (a == [] || PartBefore(a[0], b[0]) || (a[0] == b[0] && KeyLess(a[1..], b[1..])))
  }

  lemma PartTotal(a: Part, b: Part)
    ensures a == b || PartBefore(a, b) || PartBefore(b, a)
    ensures !(PartBefore(a, b) && PartBefore(b, a))
  {
    if a.Name? && b.Name? { BeforeTotal(a.name, b.name); }
  }

  lemma {:induction false} KeyTotal(a: seq<Part>, b: seq<Part>)
    ensures a == b || KeyLess(a, b) || KeyLess(b, a)
    ensures !(KeyLess(a, b) && KeyLess(b, a))
  {
    if a != [] && b != [] {
      PartTotal(a[0], b[0]);
      KeyTotal(a[1..], b[1..]);
      assert a == [a[0]] + a[1..] && b == [b[0]] + b[1..];
    }
  }

  lemma {:induction false} KeyTransitive(a: seq<Part>, b: seq<Part>, c: seq<Part>)
    requires KeyLess(a, b) && KeyLess(b, c)
    ensures KeyLess(a, c)
  {
    if a != [] {
      PartTotal(a[0], b[0]);
      if a[0] == b[0] && b[0] == c[0] {
        KeyTransitive(a[1..], b[1..], c[1..]);
      } else if a[0] != b[0] && b[0] != c[0] && a[0].Name? && b[0].Name? && c[0].Name? {
        BeforeTransitive(a[0].name, b[0].name, c[0].name);
      }
    }
  }

  lemma FirstPart(p: Part, q: Part, a: seq<Part>, b: seq<Part>)
    ensures KeyLess([p] + a, [q] + b) <==> PartBefore(p, q) || (p == q && KeyLess(a, b))
  {
    assert ([p] + a)[1..] == a && ([q] + b)[1..] == b;
  }

  lemma NameFirst(s: string, t: string, a: seq<Part>, b: seq<Part>)
    ensures KeyLess([Name(s)] + a, [Name(t)] + b) <==> Precedes(s, t) || (s == t && KeyLess(a, b))
  {
    FirstPart(Name(s), Name(t), a, b);
    BeforeExact(s, t);
  }

  lemma CountFirst(m: int, n: int, a: seq<Part>, b: seq<Part>)
    ensures KeyLess([Count(m)] + a, [Count(n)] + b) <==> m < n || (m == n && KeyLess(a, b))
  {
    FirstPart(Count(m), Count(n), a, b);
  }

  lemma NothingLess()
    ensures !KeyLess([], [])
  {
  }

  /** Comparing by a key is an order Go's sorting accepts. */
  lemma ByKey<T(!new)>(key: T -> seq<Part>, less: (T, T) -> bool)
    requires forall a, b :: less(a, b) == KeyLess(key(a), key(b))
    ensures WeakOrder(less)
  {
    forall a, b ensures less(a, b) ==> !less(b, a) { KeyTotal(key(a), key(b)); }
    forall a, b, c ensures less(a, c) ==> less(a, b) || less(b, c) {
      KeyTotal(key(a), key(b));
      if KeyLess(key(b), key(a)) && less(a, c) { KeyTransitive(key(b), key(a), key(c)); }
    }
  }

  /** `less` is a strict weak order: the comparison functions Go's sorting accepts. */
  ghost predicate WeakOrder<T(!new)>(less: (T, T) -> bool) {
    && (forall a, b :: less(a, b) ==> !less(b, a))
    && (forall a, b, c :: less(a, c) ==> less(a, b) || less(b, c))
  }

  ghost predicate Sorted<T>(s: seq<T>, less: (T, T) -> bool) {
    forall i, j | 0 <= i < j < |s| :: !less(s[j], s[i])
  }

  ghost predicate StrictlySorted<T>(s: seq<T>, less: (T, T) -> bool) {
    forall i, j | 0 <= i < j < |s| :: less(s[i], s[j])
  }

  function Insert<T>(x: T, s: seq<T>, less: (T, T) -> bool): seq<T> {
    if s == [] || !less(s[0], x) then [x] + s else [s[0]] + Insert(x, s[1..], less)
  }

  function Sort<T>(s: seq<T>, less: (T, T) -> bool): seq<T> {
    if s == [] then [] else Insert(s[0], Sort(s[1..], less), less)
  }

  lemma {:induction false} InsertContents<T>(x: T, s: seq<T>, less: (T, T) -> bool)
    ensures multiset(Insert(x, s, less)) == multiset{x} + multiset(s)
    ensures |Insert(x, s, less)| == |s| + 1
  {
    if s != [] && less(s[0], x) {
      InsertContents(x, s[1..], less);
      assert s == [s[0]] + s[1..];
    }
  }

  lemma {:induction false} SortContents<T>(s: seq<T>, less: (T, T) -> bool)
    ensures multiset(Sort(s, less)) == multiset(s) && |Sort(s, less)| == |s|
  {
    if s != [] {
      SortContents(s[1..], less);
      InsertContents(s[0], Sort(s[1..], less), less);
      assert s == [s[0]] + s[1..];
    }
  }

  lemma {:induction false} InsertSorted<T(!new)>(x: T, s: seq<T>, less: (T, T) -> bool)
    requires WeakOrder(less) && Sorted(s, less)
    ensures Sorted(Insert(x, s, less), less)
  {
    var r := Insert(x, s, less);
    if s == [] {
    } else if !less(s[0], x) {
      assert r[1..] == s;
      forall j | 1 <= j < |r| ensures !less(r[j], x) {
        assert r[j] == s[j - 1];
        if j > 1 { assert !less(s[j - 1], s[0]); }
      }
    } else {
      InsertSorted(x, s[1..], less);
      InsertContents(x, s[1..], less);
      var t := Insert(x, s[1..], less);
      forall y | y in t ensures !less(y, s[0]) {
        assert y in multiset(t);
      }
      assert forall j | 0 <= j < |t| :: t[j] in t;
    }
  }

  lemma {:induction false} SortSorted<T(!new)>(s: seq<T>, less: (T, T) -> bool)
    requires WeakOrder(less)
    ensures Sorted(Sort(s, less), less)
  {
    if s != [] {
      SortSorted(s[1..], less);
      InsertSorted(s[0], Sort(s[1..], less), less);
    }
  }

  lemma SameContentsSameElements<T>(a: seq<T>, b: seq<T>)
    requires multiset(a) == multiset(b)
    ensures forall x :: x in a <==> x in b
  {
    assert forall x :: x in a <==> x in multiset(a);
    assert forall x :: x in b <==> x in multiset(b);
  }

  /** A set of elements has one strictly sorted sequence. */
  lemma {:induction false} StrictlySortedUnique<T(!new)>(a: seq<T>, b: seq<T>, less: (T, T) -> bool)
    requires WeakOrder(less) && StrictlySorted(a, less) && StrictlySorted(b, less)
    requires forall x :: x in a <==> x in b
    ensures a == b
  {
    if a == [] || b == [] {
      EmptyTogether(a, b);
    } else {
      assert a[0] in b && b[0] in a;
      var i :| 0 <= i < |b| && b[i] == a[0];
      var j :| 0 <= j < |a| && a[j] == b[0];
      assert a[0] == b[0];
      forall x | x in a[1..] ensures x in b[1..] { Later(a, less, x); assert x in b; }
      forall x | x in b[1..] ensures x in a[1..] { Later(b, less, x); assert x in a; }
      StrictlySortedUnique(a[1..], b[1..], less);
      assert a == [a[0]] + a[1..] && b == [b[0]] + b[1..];
    }
  }

  lemma EmptyTogether<T>(a: seq<T>, b: seq<T>)
    requires forall x :: x in a <==> x in b
    ensures a == [] <==> b == []
  {
    if a != [] { assert a[0] in b; }
    if b != [] { assert b[0] in a; }
  }

  lemma Later<T(!new)>(s: seq<T>, less: (T, T) -> bool, x: T)
    requires WeakOrder(less) && StrictlySorted(s, less) && s != [] && x in s[1..]
    ensures less(s[0], x) && x != s[0]
  {
    var k :| 0 <= k < |s[1..]| && s[1..][k] == x;
    assert less(s[0], s[k + 1]);
  }

  /** No two positions hold elements that tie. */
  ghost predicate Comparable<T>(s: seq<T>, less: (T, T) -> bool) {
    forall i, j | 0 <= i < j < |s| :: less(s[i], s[j]) || less(s[j], s[i])
  }

  /** A sorted arrangement of pairwise comparable elements is strict, whoever sorted it. */
  lemma SortedStrict<T(!new)>(s: seq<T>, r: seq<T>, less: (T, T) -> bool)
    requires Sorted(r, less) && multiset(r) == multiset(s) && Comparable(s, less)
    ensures StrictlySorted(r, less)
  {
    forall i, j | 0 <= i < j < |r| ensures less(r[i], r[j]) {
      var p, q := TwoPositions(s, r, i, j);
      assert less(s[p], s[q]);
    }
  }

  lemma SortStrict<T(!new)>(s: seq<T>, less: (T, T) -> bool)
    requires WeakOrder(less) && Comparable(s, less)
    ensures StrictlySorted(Sort(s, less), less)
    ensures forall x :: x in Sort(s, less) <==> x in s
  {
    SortSorted(s, less);
    SortContents(s, less);
    SameContentsSameElements(Sort(s, less), s);
    SortedStrict(s, Sort(s, less), less);
  }

  /** Two positions of a permutation come from two positions of the original. */
  lemma TwoPositions<T>(s: seq<T>, r: seq<T>, i: nat, j: nat) returns (p: nat, q: nat)
    requires multiset(r) == multiset(s) && i < j < |r|
    ensures p < |s| && q < |s| && p != q && s[p] == r[i] && s[q] == r[j]
  {
    SameContentsSameElements(r, s);
    assert r[i] in s && r[j] in s;
    if r[i] == r[j] {
      assert r == r[..i] + [r[i]] + r[i + 1..];
      assert r[j] == r[i + 1..][j - i - 1];
      p, q := Twice(s, r[i]);
    } else {
      p :| 0 <= p < |s| && s[p] == r[i];
      q :| 0 <= q < |s| && s[q] == r[j];
    }
  }

  lemma {:induction false} Twice<T>(s: seq<T>, x: T) returns (p: nat, q: nat)
    requires multiset(s)[x] >= 2
    ensures p < |s| && q < |s| && p != q && s[p] == x && s[q] == x
  {
    assert s == [s[0]] + s[1..];
    if s[0] != x || multiset(s[1..])[x] >= 2 {
      p, q := Twice(s[1..], x);
      p, q := p + 1, q + 1;
    } else {
      p := 0;
      assert x in multiset(s[1..]);
      q :| 0 <= q < |s[1..]| && s[1..][q] == x;
      q := q + 1;
    }
  }

  /** A strictly sorted sequence is its own sorting. */
  lemma SortFixed<T(!new)>(s: seq<T>, less: (T, T) -> bool)
    requires WeakOrder(less) && StrictlySorted(s, less)
    ensures Sort(s, less) == s
  {
    SortStrict(s, less);
    StrictlySortedUnique(Sort(s, less), s, less);
  }
}
