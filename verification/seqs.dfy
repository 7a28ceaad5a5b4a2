/**
  Order-preserving list operations the source writes with `Set`, `filter` and
  `flatMap`: first-occurrence deduplication, removal of members, flattening,
  deletion at an index, and the index list `0 .. n-1`.
 */
module Seqs {

  predicate Distinct<T(==)>(s: seq<T>) {
    forall i, j :: 0 <= i < j < |s| ==> s[i] != s[j]
  }

  function Elements<T(!new)>(s: seq<T>): set<T> {
    set x | x in s
  }

  /** `s.filter(x => !xs.has(x))`: the elements outside `xs`, in their original order. */
  function Except<T(==)>(s: seq<T>, xs: set<T>): seq<T> {
    if |s| == 0 then []
    else
      var init := Except(s[..|s| - 1], xs);
      if s[|s| - 1] in xs then init else init + [s[|s| - 1]]
  }

  lemma ExceptSnoc<T>(s: seq<T>, x: T, xs: set<T>)
    ensures Except(s + [x], xs) == if x in xs then Except(s, xs) else Except(s, xs) + [x]
  {
    assert (s + [x])[..|s + [x]| - 1] == s;
  }

  /** `Except` keeps exactly the elements outside `xs`, never more than there were. */
  lemma {:induction false} ExceptSpec<T>(s: seq<T>, xs: set<T>)
    ensures |Except(s, xs)| <= |s|
    ensures forall y :: y in Except(s, xs) <==> y in s && y !in xs
    decreases |s|
  {
    if |s| > 0 {
      var init := s[..|s| - 1];
      ExceptSpec(init, xs);
      assert s == init + [s[|s| - 1]];
      ExceptSnoc(init, s[|s| - 1], xs);
    }
  }

  /** Filtering distributes over concatenation: the order of what is kept is the order of `s`. */
  lemma {:induction false} ExceptAppend<T>(a: seq<T>, b: seq<T>, xs: set<T>)
    ensures Except(a + b, xs) == Except(a, xs) + Except(b, xs)
    decreases |b|
  {
    if |b| > 0 {
      var b' := b[..|b| - 1];
      assert (a + b)[..|a + b| - 1] == a + b';
      ExceptAppend(a, b', xs);
    } else {
      assert a + b == a;
    }
  }

  /** `Except` only looks at the members of `s`. */
  lemma {:induction false} ExceptSame<T>(s: seq<T>, xs: set<T>, ys: set<T>)
    requires forall x :: x in s ==> (x in xs <==> x in ys)
    ensures Except(s, xs) == Except(s, ys)
    decreases |s|
  {
    if |s| > 0 {
      var init := s[..|s| - 1];
      assert s == init + [s[|s| - 1]];
      ExceptSame(init, xs, ys);
    }
  }

  lemma {:induction false} ExceptDistinct<T>(s: seq<T>, xs: set<T>)
    requires Distinct(s)
    ensures Distinct(Except(s, xs))
    decreases |s|
  {
    if |s| > 0 {
      var init := s[..|s| - 1];
      ExceptDistinct(init, xs);
      ExceptSpec(init, xs);
      assert s[|s| - 1] !in init;
    }
  }

  /** Leaving out elements `s` does not hold changes nothing. */
  lemma {:induction false} ExceptNone<T>(s: seq<T>, xs: set<T>)
    requires forall x :: x in s ==> x !in xs
    ensures Except(s, xs) == s
    decreases |s|
  {
    if |s| > 0 {
      var init := s[..|s| - 1];
      assert s == init + [s[|s| - 1]];
      ExceptNone(init, xs);
    }
  }

  /** `s.filter(y => y !== x)`: every occurrence of `x` removed, the rest kept in order. */
  function Without<T(==)>(s: seq<T>, x: T): seq<T> {
    Except(s, {x})
  }

  /**
    Removal deletes every `x`, keeps every other element, and works piece by
    piece, so the survivors keep their relative order.
   */
  lemma WithoutSpec<T>(a: seq<T>, b: seq<T>, x: T)
    ensures x !in Without(a, x)
    ensures forall y :: y != x ==> (y in Without(a, x) <==> y in a)
    ensures Without(a + b, x) == Without(a, x) + Without(b, x)
    ensures Without([x], x) == [] && forall y :: y != x ==> Without([y], x) == [y]
  {
    ExceptSpec(a, {x});
    ExceptAppend(a, b, {x});
    ExceptSnoc([], x, {x});
    assert [] + [x] == [x];
    forall y | y != x
      ensures Without([y], x) == [y]
    {
      ExceptSnoc([], y, {x});
      assert [] + [y] == [y];
    }
  }

  /** `Array.from(new Set(s))`: each element once, in order of first occurrence. */
  function Dedupe<T(==)>(s: seq<T>): seq<T> {
    if |s| == 0 then []
    else
      var d := Dedupe(s[..|s| - 1]);
      if s[|s| - 1] in d then d else d + [s[|s| - 1]]
  }

  lemma DedupeSnoc<T>(s: seq<T>, x: T)
    ensures Dedupe(s + [x]) == if x in Dedupe(s) then Dedupe(s) else Dedupe(s) + [x]
  {
    assert (s + [x])[..|s + [x]| - 1] == s;
  }

  /** Deduplication keeps every element, repeats none, and never grows the list. */
  lemma {:induction false} DedupeSpec<T>(s: seq<T>)
    ensures forall y :: y in Dedupe(s) <==> y in s
    ensures Distinct(Dedupe(s))
    ensures |Dedupe(s)| <= |s|
    decreases |s|
  {
    if |s| > 0 {
      var init := s[..|s| - 1];
      DedupeSpec(init);
      assert s == init + [s[|s| - 1]];
      DedupeSnoc(init, s[|s| - 1]);
    }
  }

  /** A list with no repetitions is its own deduplication. */
  lemma {:induction false} DedupeOfDistinct<T>(s: seq<T>)
    requires Distinct(s)
    ensures Dedupe(s) == s
    decreases |s|
  {
    if |s| > 0 {
      var init := s[..|s| - 1];
      DedupeOfDistinct(init);
      assert s == init + [s[|s| - 1]];
      DedupeSnoc(init, s[|s| - 1]);
    }
  }

  /**
    Deduplicating `a + b` keeps the deduplication of `a` and then adds, in
    first-occurrence order, the elements of `b` that `a` does not hold.
   */
  lemma {:induction false} DedupeAppend<T(!new)>(a: seq<T>, b: seq<T>)
    ensures Dedupe(a + b) == Dedupe(a) + Dedupe(Except(b, Elements(a)))
    decreases |b|
  {
    if |b| == 0 {
      assert a + b == a;
    } else {
      var b', x := b[..|b| - 1], b[|b| - 1];
      assert b == b' + [x];
      assert a + b == (a + b') + [x];
      DedupeAppend(a, b');
      var A := Elements(a);
      var e := Except(b', A);
      DedupeSnoc(a + b', x);
      ExceptSnoc(b', x, A);
      DedupeSpec(a + b');
      ExceptSpec(b', A);
      if x in A {
        assert x in Dedupe(a + b');
      } else if x in e {
        DedupeAppendSeen(e, x);
        assert x in Dedupe(a + b');
      } else {
        DedupeAppendFresh(Dedupe(a), e, x);
      }
    }
  }

  lemma DedupeAppendSeen<T>(e: seq<T>, x: T)
    requires x in e
    ensures Dedupe(e + [x]) == Dedupe(e)
  {
    DedupeSpec(e);
    DedupeSnoc(e, x);
  }

  lemma DedupeAppendFresh<T>(d: seq<T>, e: seq<T>, x: T)
    requires x !in e
    ensures d + Dedupe(e + [x]) == (d + Dedupe(e)) + [x]
  {
    DedupeSpec(e);
    DedupeSnoc(e, x);
  }

  /** `ss.flatMap(x => x)`: the lists concatenated in order. */
  function Flatten<T>(ss: seq<seq<T>>): seq<T> {
    if |ss| == 0 then [] else ss[0] + Flatten(ss[1..])
  }

  /** Flattening keeps every element of every list, and nothing else. */
  lemma {:induction false} FlattenSpec<T>(ss: seq<seq<T>>)
    ensures forall x :: x in Flatten(ss) ==> exists i :: 0 <= i < |ss| && x in ss[i]
    ensures forall x, i :: 0 <= i < |ss| && x in ss[i] ==> x in Flatten(ss)
  {
    if |ss| > 0 {
      var t := ss[1..];
      FlattenSpec(t);
      assert Flatten(ss) == ss[0] + Flatten(t);
      forall x | x in Flatten(ss)
        ensures exists i :: 0 <= i < |ss| && x in ss[i]
      {
        if x !in ss[0] {
          assert x in Flatten(t);
          var i :| 0 <= i < |t| && x in t[i];
          assert x in ss[i + 1];
        } else {
          assert x in ss[0];
        }
      }
      forall x, i | 0 <= i < |ss| && x in ss[i]
        ensures x in Flatten(ss)
      {
        if i > 0 {
          assert x in t[i - 1];
        }
      }
    }
  }

  lemma {:induction false} FlattenAppend<T>(a: seq<seq<T>>, b: seq<seq<T>>)
    ensures Flatten(a + b) == Flatten(a) + Flatten(b)
    decreases |a|
  {
    if |a| > 0 {
      assert (a + b)[1..] == a[1..] + b;
      FlattenAppend(a[1..], b);
    } else {
      assert a + b == b;
    }
  }

  /** `s.filter((_, j) => j !== i)`: the element at `i` removed, the rest kept in order. */
  function RemoveAt<T>(s: seq<T>, i: nat): (r: seq<T>)
    ensures i < |s| ==> |r| == |s| - 1
    ensures i < |s| ==> forall k :: 0 <= k < i ==> r[k] == s[k]
    ensures i < |s| ==> forall k :: i <= k < |r| ==> r[k] == s[k + 1]
    ensures i >= |s| ==> r == s
  {
    if i < |s| then s[..i] + s[i + 1..] else s
  }

  /** The indices `0, 1, ..., n-1`. */
  function Range(n: nat): (r: seq<nat>)
    ensures |r| == n && forall i :: 0 <= i < n ==> r[i] == i
  {
    if n == 0 then [] else Range(n - 1) + [n - 1]
  }

  /** Leaving out `used` indices of `0 .. n-1` leaves `n - |used|` of them. */
  lemma {:induction false} ExceptRangeSize(n: nat, used: set<nat>)
    requires forall j :: j in used ==> j < n
    ensures |Except(Range(n), used)| == n - |used|
  {
    if n == 0 {
      assert used == {};
    } else {
      var used' := used - {n - 1};
      ExceptRangeSize(n - 1, used');
      assert Range(n) == Range(n - 1) + [n - 1];
      ExceptSnoc<nat>(Range(n - 1), n - 1, used);
      ExceptSame<nat>(Range(n - 1), used, used');
      if n - 1 in used {
        assert used == used' + {n - 1};
        assert |used| == |used'| + 1;
      } else {
        assert used' == used;
      }
    }
  }

  /** Leaving out `used` indices of `0 .. n-1` keeps exactly the other indices below `n`. */
  lemma ExceptRangeMembers(n: nat, used: set<nat>)
    ensures forall j: nat :: j in Except<nat>(Range(n), used) <==> j < n && j !in used
  {
    var r := Range(n);
    ExceptSpec(r, used);
    forall j: nat
      ensures j in r <==> j < n
    {
      if j < n {
        assert r[j] == j;
      }
      if j in r {
        var i :| 0 <= i < |r| && r[i] == j;
      }
    }
  }

  predicate Increasing(s: seq<nat>) {
    forall a, b :: 0 <= a < b < |s| ==> s[a] < s[b]
  }

  lemma IncreasingSnoc(s: seq<nat>, x: nat)
    requires Increasing(s) && forall k :: 0 <= k < |s| ==> s[k] < x
    ensures Increasing(s + [x])
  {
  }

  /** Leaving out indices of `0 .. n-1` keeps the others in increasing order. */
  lemma {:induction false} ExceptRangeIncreasing(n: nat, used: set<nat>)
    ensures Increasing(Except<nat>(Range(n), used))
    ensures forall k :: 0 <= k < |Except<nat>(Range(n), used)| ==> Except<nat>(Range(n), used)[k] < n
  {
    if n > 0 {
      var init := Except<nat>(Range(n - 1), used);
      ExceptRangeIncreasing(n - 1, used);
      assert Range(n) == Range(n - 1) + [n - 1];
      ExceptSnoc<nat>(Range(n - 1), n - 1, used);
      if n - 1 !in used {
        IncreasingSnoc(init, n - 1);
      }
    }
  }
}
