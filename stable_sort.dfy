/** A stable sort under a comparator, as `Array.prototype.sort` performs it.

    Since ES2019 (section 22.1.3.27 of ECMA-262, 10th edition) `sort` must be
    stable: elements the comparator calls equal keep their relative order.  A
    comparator `cmp` is modelled by the relation `leq(a, b)`, "cmp(a, b) <= 0",
    i.e. `a` may stay in front of `b`.  When `leq` is a total preorder (the
    standard's "consistent comparator"), the arrangement a stable sort produces
    is unique (StableSortUnique), so the insertion sort below yields exactly
    what any conforming engine yields, whatever algorithm it runs. */
module StableSort {

  /** `leq` is total and transitive: what a consistent comparator induces. */
  ghost predicate TotalPreorder<T(!new)>(leq: (T, T) -> bool) {
    && (forall x, y :: leq(x, y) || leq(y, x))
    && (forall x, y, z :: leq(x, y) && leq(y, z) ==> leq(x, z))
  }

  /** The comparator calls `x` and `y` equal. */
  predicate Equiv<T>(leq: (T, T) -> bool, x: T, y: T) {
    leq(x, y) && leq(y, x)
  }

  /** Every element is in front of every later one, as far as `leq` can tell. */
  predicate Sorted<T>(leq: (T, T) -> bool, s: seq<T>) {
    forall i, j :: 0 <= i < j < |s| ==> leq(s[i], s[j])
  }

  /** The elements of `s` that the comparator calls equal to `y`, in their order in `s`. */
  function Equivalents<T>(leq: (T, T) -> bool, s: seq<T>, y: T): (r: seq<T>)
    ensures |r| <= |s|
    ensures forall e :: e in r ==> e in s && Equiv(leq, e, y)
  {
    if s == [] then []
    else (if Equiv(leq, s[0], y) then [s[0]] else []) + Equivalents(leq, s[1..], y)
  }

  /** `r` keeps every class of equal elements of `s` in the order `s` has it:
      the definition of a stable arrangement. */
  ghost predicate KeepsEqualsInOrder<T(!new)>(leq: (T, T) -> bool, r: seq<T>, s: seq<T>) {
    forall y :: Equivalents(leq, r, y) == Equivalents(leq, s, y)
  }

  /** Inserts `x` into `s` from the back: `x` moves left past every element
      that must come after it, and stops behind the first that may precede it. */
  function Insert<T>(leq: (T, T) -> bool, s: seq<T>, x: T): (r: seq<T>)
    ensures |r| == |s| + 1
  {
    if s == [] || leq(s[|s| - 1], x) then s + [x]
    else
      assert s == s[..|s| - 1] + [s[|s| - 1]];
      Insert(leq, s[..|s| - 1], x) + [s[|s| - 1]]
  }

  /** Insertion sort: the specification of what the in-place method computes. */
  function Sort<T>(leq: (T, T) -> bool, s: seq<T>): (r: seq<T>)
    ensures |r| == |s|
  {
    if s == [] then []
    else
      assert s == s[..|s| - 1] + [s[|s| - 1]];
      Insert(leq, Sort(leq, s[..|s| - 1]), s[|s| - 1])
  }

  /** Insert adds exactly `x`. */
  lemma {:induction false} InsertPermutes<T>(leq: (T, T) -> bool, s: seq<T>, x: T)
    ensures multiset(Insert(leq, s, x)) == multiset(s) + multiset{x}
  {
    if s != [] && !leq(s[|s| - 1], x) {
      var init, last := s[..|s| - 1], s[|s| - 1];
      assert s == init + [last];
      InsertPermutes(leq, init, x);
    }
  }

  /** Sort returns a permutation of its input. */
  lemma {:induction false} SortPermutes<T>(leq: (T, T) -> bool, s: seq<T>)
    ensures multiset(Sort(leq, s)) == multiset(s)
  {
    if s != [] {
      var init, last := s[..|s| - 1], s[|s| - 1];
      assert s == init + [last];
      SortPermutes(leq, init);
      InsertPermutes(leq, Sort(leq, init), last);
    }
  }

  lemma {:induction false} EquivalentsAppend<T>(leq: (T, T) -> bool, a: seq<T>, b: seq<T>, y: T)
    ensures Equivalents(leq, a + b, y) == Equivalents(leq, a, y) + Equivalents(leq, b, y)
  {
    if a == [] {
      assert a + b == b;
    } else {
      assert (a + b)[1..] == a[1..] + b;
      EquivalentsAppend(leq, a[1..], b, y);
    }
  }

  /** Inserting `x` adds `x` at the end of its own class and leaves every
      other class as it was. */
  lemma {:induction false} InsertKeepsEquals<T(!new)>(leq: (T, T) -> bool, s: seq<T>, x: T, y: T)
    requires TotalPreorder(leq)
    ensures Equivalents(leq, Insert(leq, s, x), y) == Equivalents(leq, s, y) + Equivalents(leq, [x], y)
  {
    if s == [] || leq(s[|s| - 1], x) {
      EquivalentsAppend(leq, s, [x], y);
    } else {
      var init, last := s[..|s| - 1], s[|s| - 1];
      assert s == init + [last];
      InsertKeepsEquals(leq, init, x, y);
      EquivalentsAppend(leq, Insert(leq, init, x), [last], y);
      EquivalentsAppend(leq, init, [last], y);
      EquivalentsAppend(leq, init, [x], y);
      // last was moved behind x, so last and x are not equal: at most one is equal to y
      assert Equiv(leq, x, y) ==> !Equiv(leq, last, y);
    }
  }

  /** Insertion into a sorted sequence keeps it sorted. */
  lemma {:induction false} InsertSorted<T(!new)>(leq: (T, T) -> bool, s: seq<T>, x: T)
    requires TotalPreorder(leq) && Sorted(leq, s)
    ensures Sorted(leq, Insert(leq, s, x))
  {
    if s == [] || leq(s[|s| - 1], x) {
      var r := s + [x];
      forall i, j | 0 <= i < j < |r| ensures leq(r[i], r[j]) {
        if j == |s| && i < |s| - 1 {
          assert leq(s[i], s[|s| - 1]);
        }
      }
    } else {
      var init, last := s[..|s| - 1], s[|s| - 1];
      InsertSorted(leq, init, x);
      var front := Insert(leq, init, x);
      InsertPermutes(leq, init, x);
      var r := front + [last];
      assert leq(x, last);
      forall i, j | 0 <= i < j < |r| ensures leq(r[i], r[j]) {
        if j == |front| {
          assert r[i] in multiset(front);
          assert r[i] in multiset(init) || r[i] == x;
          if r[i] != x {
            var k :| 0 <= k < |init| && init[k] == r[i];
            assert leq(s[k], s[|s| - 1]);
          }
        }
      }
    }
  }

  /** The result of Sort is sorted. */
  lemma {:induction false} SortSorted<T(!new)>(leq: (T, T) -> bool, s: seq<T>)
    requires TotalPreorder(leq)
    ensures Sorted(leq, Sort(leq, s))
  {
    if s != [] {
      SortSorted(leq, s[..|s| - 1]);
      InsertSorted(leq, Sort(leq, s[..|s| - 1]), s[|s| - 1]);
    }
  }

  /** Sort is stable: every class of equal elements keeps its input order. */
  lemma {:induction false} SortStable<T(!new)>(leq: (T, T) -> bool, s: seq<T>)
    requires TotalPreorder(leq)
    ensures KeepsEqualsInOrder(leq, Sort(leq, s), s)
  {
    if s != [] {
      var init, last := s[..|s| - 1], s[|s| - 1];
      assert s == init + [last];
      SortStable(leq, init);
      forall y ensures Equivalents(leq, Sort(leq, s), y) == Equivalents(leq, s, y) {
        InsertKeepsEquals(leq, Sort(leq, init), last, y);
        EquivalentsAppend(leq, init, [last], y);
      }
    }
  }

  /** The head of a sorted sequence is in front of each of its elements. */
  lemma HeadFirst<T(!new)>(leq: (T, T) -> bool, s: seq<T>, e: T)
    requires TotalPreorder(leq) && Sorted(leq, s) && e in s
    ensures leq(s[0], e)
  {
    var k :| 0 <= k < |s| && s[k] == e;
    if k == 0 {
      assert leq(e, e);
    }
  }

  /** When both sequences hold the same class of r1's head in the same order,
      the head of a sorted r2 is in front of r1's head. */
  lemma HeadPrecedesHead<T(!new)>(leq: (T, T) -> bool, r1: seq<T>, r2: seq<T>)
    requires TotalPreorder(leq) && Sorted(leq, r2) && r1 != []
    requires Equivalents(leq, r1, r1[0]) == Equivalents(leq, r2, r1[0])
    ensures r2 != [] && leq(r2[0], r1[0])
  {
    var a := r1[0];
    assert leq(a, a);
    assert Equivalents(leq, r1, a)[0] == a;
    var e := Equivalents(leq, r2, a)[0];
    assert e in Equivalents(leq, r2, a);
    HeadFirst(leq, r2, e);
  }

  /** Sorted, stable arrangements of the same elements coincide: under a total
      preorder there is only one result a stable sort may return. */
  lemma {:induction false} StableSortUnique<T(!new)>(leq: (T, T) -> bool, r1: seq<T>, r2: seq<T>)
    requires TotalPreorder(leq) && Sorted(leq, r1) && Sorted(leq, r2)
    requires KeepsEqualsInOrder(leq, r1, r2)
    ensures r1 == r2
    decreases |r1|
  {
    if r1 != [] {
      var a := r1[0];
      assert Equivalents(leq, r1, a) == Equivalents(leq, r2, a);
      HeadPrecedesHead(leq, r1, r2);
      var b := r2[0];
      assert Equivalents(leq, r2, b) == Equivalents(leq, r1, b);
      HeadPrecedesHead(leq, r2, r1);
      assert Equiv(leq, b, a);
      assert Equivalents(leq, r2, a)[0] == b;
      assert a == b;
      forall y ensures Equivalents(leq, r1[1..], y) == Equivalents(leq, r2[1..], y) {
        var head := if Equiv(leq, a, y) then [a] else [];
        var rest1, rest2 := Equivalents(leq, r1[1..], y), Equivalents(leq, r2[1..], y);
        assert head + rest1 == Equivalents(leq, r1, y) == Equivalents(leq, r2, y) == head + rest2;
        assert rest1 == (head + rest1)[|head|..];
        assert rest2 == (head + rest2)[|head|..];
      }
      StableSortUnique(leq, r1[1..], r2[1..]);
      assert r1 == [a] + r1[1..] && r2 == [b] + r2[1..];
    } else if r2 != [] {
      assert Equivalents(leq, r2, r2[0]) == Equivalents(leq, r1, r2[0]);
      HeadPrecedesHead(leq, r2, r1);
    }
  }

  /** Whatever a conforming engine returns (sorted, stable, the same elements)
      is exactly Sort's result. */
  lemma SortIsTheStableSort<T(!new)>(leq: (T, T) -> bool, s: seq<T>, r: seq<T>)
    requires TotalPreorder(leq) && Sorted(leq, r) && KeepsEqualsInOrder(leq, r, s)
    ensures r == Sort(leq, s)
  {
    SortSorted(leq, s);
    SortStable(leq, s);
    StableSortUnique(leq, r, Sort(leq, s));
  }

  /** One shift of the inner loop: `x` passes the element in front of the hole. */
  lemma InsertShift<T>(leq: (T, T) -> bool, sorted: seq<T>, j: nat, x: T)
    requires 0 < j <= |sorted| && !leq(sorted[j - 1], x)
    ensures Insert(leq, sorted[..j], x) + sorted[j..] == Insert(leq, sorted[..j - 1], x) + sorted[j - 1..]
  {
    assert sorted[..j][..j - 1] == sorted[..j - 1];
    assert sorted[j - 1..] == [sorted[j - 1]] + sorted[j..];
  }

  /** Sorting one more element is inserting it into the sorted prefix. */
  lemma SortSnoc<T>(leq: (T, T) -> bool, s: seq<T>, x: T)
    ensures Sort(leq, s + [x]) == Insert(leq, Sort(leq, s), x)
  {
    assert (s + [x])[..|s|] == s;
  }

  /** Moves `a[i]` left into the sorted prefix `a[..i]`, as Insert does. */
  method InsertInPlace<T>(a: array<T>, i: nat, leq: (T, T) -> bool)
    requires i < a.Length
    modifies a
    ensures a[..i + 1] == Insert(leq, old(a[..i]), old(a[i]))
    ensures a[i + 1..] == old(a[i + 1..])
  {
    ghost var sorted := a[..i];
    var x := a[i];
    var j := i;
    while j > 0 && !leq(a[j - 1], x)
      invariant 0 <= j <= i
      invariant a[..j] == sorted[..j]
      invariant a[j + 1..i + 1] == sorted[j..]
      invariant a[i + 1..] == old(a[i + 1..])
      invariant Insert(leq, sorted, x) == Insert(leq, sorted[..j], x) + sorted[j..]
    {
      InsertShift(leq, sorted, j, x);
      a[j] := a[j - 1];
      assert a[j..i + 1] == [sorted[j - 1]] + sorted[j..] == sorted[j - 1..];
      j := j - 1;
    }
    assert j == 0 || leq(sorted[j - 1], x);
    assert Insert(leq, sorted[..j], x) == sorted[..j] + [x];
    a[j] := x;
    assert a[..i + 1] == sorted[..j] + [x] + sorted[j..];
  }

  /** Stable in-place insertion sort of `a` under `leq`. */
  method SortInPlace<T>(a: array<T>, leq: (T, T) -> bool)
    modifies a
    ensures a[..] == Sort(leq, old(a[..]))
  {
    ghost var input := a[..];
    var i := 0;
    while i < a.Length
      invariant 0 <= i <= a.Length
      invariant a[..i] == Sort(leq, input[..i])
      invariant a[i..] == input[i..]
    {
      assert input[..i + 1] == input[..i] + [input[i]];
      InsertInPlace(a, i, leq);
      SortSnoc(leq, input[..i], input[i]);
      assert a[..i + 1] == Sort(leq, input[..i + 1]);
      assert a[i + 1..] == input[i + 1..];
      i := i + 1;
    }
    assert a[..] == a[..a.Length];
    assert input == input[..a.Length];
  }
}
