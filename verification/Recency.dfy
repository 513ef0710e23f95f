/**
  The recency sequence that LRUList (LRUList.h) stands for, most recently used element first,
  and what its documentation promises over whole runs of `put` and `eraseElement`.
 */
module Recency {
  import opened Wrappers

  ghost predicate NoDup<T>(s: seq<T>) {
    s == [] || (s[0] !in s[1..] && NoDup(s[1..]))
  }

  /** The elements of s other than x, in their order. */
  function Without<T(==)>(s: seq<T>, x: T): seq<T> {
    if s == [] then []
    else if s[0] == x then Without(s[1..], x)
    else [s[0]] + Without(s[1..], x)
  }

  /** x moves, or comes in, to the head. */
  function Touch<T(==)>(s: seq<T>, x: T): seq<T> {
    [x] + Without(s, x)
  }

  /** `put` drops the tail exactly when the touched list is longer than the maximum. */
  predicate Overflows<T(==)>(s: seq<T>, x: T, max: nat) {
    |Touch(s, x)| > max
  }

  /** The list without its last element, if it is longer than the maximum. */
  function Trim<T>(t: seq<T>, max: nat): seq<T> {
    if |t| > max then t[..|t| - 1] else t
  }

  function Put<T(==)>(s: seq<T>, x: T, max: nat): seq<T> {
    Trim(Touch(s, x), max)
  }

  function Evicted<T(==)>(s: seq<T>, x: T, max: nat): Option<T> {
    var t := Touch(s, x);
    if Overflows(s, x, max) then Some(t[|t| - 1]) else None
  }

  ghost function Elems<T(!new)>(s: seq<T>): set<T> {
    set y | y in s
  }

  /** All positions hold different elements. */
  ghost predicate Distinct<T>(s: seq<T>) {
    forall i, j :: 0 <= i < j < |s| ==> s[i] != s[j]
  }

  lemma {:induction false} NoDupIsDistinct<T(!new)>(s: seq<T>)
    ensures NoDup(s) <==> Distinct(s)
  {
    if s != [] {
      NoDupIsDistinct(s[1..]);
      assert s == [s[0]] + s[1..];
      if NoDup(s) {
        forall i, j | 0 <= i < j < |s|
          ensures s[i] != s[j]
        {
          assert s[j] == s[1..][j - 1];
        }
      }
      if Distinct(s) {
        forall j | 0 <= j < |s| - 1
          ensures s[1..][j] != s[0]
        {
          assert s[1..][j] == s[j + 1];
        }
        forall i, j | 0 <= i < j < |s| - 1
          ensures s[1..][i] != s[1..][j]
        {
          assert s[i + 1] != s[j + 1];
        }
      }
    }
  }

  // ---------- single operations ----------

  lemma {:induction false} WithoutFacts<T(!new)>(s: seq<T>, x: T)
    ensures x !in Without(s, x)
    ensures forall y :: y in Without(s, x) <==> y in s && y != x
    ensures x !in s ==> Without(s, x) == s
    ensures NoDup(s) ==> NoDup(Without(s, x))
  {
    if s != [] {
      WithoutFacts(s[1..], x);
      assert s == [s[0]] + s[1..];
      assert Without(s, x) == if s[0] == x then Without(s[1..], x) else [s[0]] + Without(s[1..], x);
    }
  }

  lemma {:induction false} WithoutConcat<T(!new)>(a: seq<T>, b: seq<T>, x: T)
    ensures Without(a + b, x) == Without(a, x) + Without(b, x)
  {
    if a == [] {
      assert a + b == b;
    } else {
      assert (a + b)[1..] == a[1..] + b;
      WithoutConcat(a[1..], b, x);
    }
  }

  /** Cutting out a position behind the first leaves the first. */
  lemma Behind<T(!new)>(s: seq<T>, i: nat)
    requires 0 < i < |s|
    ensures [s[0]] + (s[1..][..i - 1] + s[1..][i..]) == s[..i] + s[i + 1..]
  {
  }

  /** Deleting the one occurrence of s[i] cuts out position i. */
  lemma {:induction false} WithoutAt<T(!new)>(s: seq<T>, i: nat)
    requires NoDup(s) && i < |s|
    ensures Without(s, s[i]) == s[..i] + s[i + 1..]
  {
    if i == 0 {
      WithoutFacts(s[1..], s[0]);
    } else {
      var rest := s[1..];
      assert rest[i - 1] == s[i] && s[i] in rest;
      WithoutAt(rest, i - 1);
      Behind(s, i);
    }
  }

  lemma {:induction false} WithoutLength<T(!new)>(s: seq<T>, x: T)
    requires NoDup(s)
    ensures |Without(s, x)| == if x in s then |s| - 1 else |s|
  {
    if s != [] {
      WithoutLength(s[1..], x);
      assert s == [s[0]] + s[1..];
    }
  }

  lemma {:induction false} NoDupPrefix<T(!new)>(s: seq<T>, k: nat)
    requires NoDup(s) && k <= |s|
    ensures NoDup(s[..k])
  {
    if k > 0 {
      NoDupPrefix(s[1..], k - 1);
      assert s[..k] == [s[0]] + s[1..][..k - 1];
      assert s[..k][1..] == s[1..][..k - 1];
      assert forall y :: y in s[1..][..k - 1] ==> y in s[1..];
    }
  }

  lemma TouchFacts<T(!new)>(s: seq<T>, x: T)
    requires NoDup(s)
    ensures NoDup(Touch(s, x))
    ensures Touch(s, x)[1..] == Without(s, x)
    ensures |Touch(s, x)| == if x in s then |s| else |s| + 1
    ensures forall y :: y in Touch(s, x) <==> y in s || y == x
  {
    WithoutFacts(s, x);
    WithoutLength(s, x);
  }

  lemma PutFacts<T(!new)>(s: seq<T>, x: T, max: nat)
    requires NoDup(s) && |s| <= max
    ensures NoDup(Put(s, x, max)) && |Put(s, x, max)| <= max
    ensures forall y :: y in Put(s, x, max) ==> y in s || y == x
  {
    TouchFacts(s, x);
    var t := Touch(s, x);
    NoDupPrefix(t, |t| - 1);
    assert forall y :: y in t[..|t| - 1] ==> y in t;
  }

  lemma ButLast<T(!new)>(s: seq<T>)
    requires NoDup(s) && s != []
    ensures Elems(s[..|s| - 1]) == Elems(s) - {s[|s| - 1]}
  {
    WithoutAt(s, |s| - 1);
    WithoutFacts(s, s[|s| - 1]);
  }

  lemma TrimElems<T(!new)>(t: seq<T>, max: nat)
    requires NoDup(t) && |t| <= max + 1
    ensures Elems(Trim(t, max)) == if |t| > max then Elems(t) - {t[max]} else Elems(t)
  {
    if |t| > max {
      ButLast(t);
    }
  }

  lemma TouchElems<T(!new)>(s: seq<T>, x: T)
    ensures Elems(Touch(s, x)) == Elems(s) + {x}
  {
    WithoutFacts(s, x);
  }

  lemma PutElems<T(!new)>(s: seq<T>, x: T, max: nat)
    requires NoDup(s) && |s| <= max && max > 0
    ensures Elems(Put(s, x, max)) ==
            if x !in s && |s| == max then Elems(s) - {s[|s| - 1]} + {x} else Elems(s) + {x}
  {
    TouchFacts(s, x);
    TouchElems(s, x);
    TrimElems(Touch(s, x), max);
    if x !in s && |s| == max {
      WithoutFacts(s, x);
      assert Touch(s, x)[max] == s[max - 1];
      assert s[max - 1] in s;
    }
  }

  /**
    What one `put` does, without naming its steps: x is at the head, the other survivors keep
    their order, the list stays duplicate free and within its size, and only the element that
    was last, and only when a new element meets a full list, can be lost.
   */
  lemma {:induction false} PutCharacterised<T(!new)>(s: seq<T>, x: T, max: nat)
    requires NoDup(s) && |s| <= max
    ensures max == 0 ==> Put(s, x, max) == [] && Evicted(s, x, max) == Some(x)
    ensures max > 0 ==>
            var p := Put(s, x, max);
            && NoDup(p) && 0 < |p| <= max && p[0] == x
            && p[1..] <= Without(s, x)
            && (Evicted(s, x, max).Some? <==> x !in s && |s| == max)
            && (Evicted(s, x, max).Some? ==> Evicted(s, x, max).value == s[|s| - 1])
            && Elems(p) == if x !in s && |s| == max then Elems(s) - {s[|s| - 1]} + {x} else Elems(s) + {x}
  {
    if max == 0 {
      PutIntoNothing(x);
    } else {
      TouchSize(s, x);
      PutFacts(s, x, max);
      PutElems(s, x, max);
      if x !in s && |s| == max {
        WithoutFacts(s, x);
      }
    }
  }

  /** A list of maximum size zero forgets every element at once. */
  lemma PutIntoNothing<T(!new)>(x: T)
    ensures Put([], x, 0) == [] && Evicted([], x, 0) == Some(x)
  {
  }

  // ---------- runs ----------

  datatype Op<T> = Use(elem: T) | Erase(elem: T)

  function Apply<T(==)>(s: seq<T>, op: Op<T>, max: nat): seq<T> {
    match op
    case Use(x) => Put(s, x, max)
    case Erase(x) => Without(s, x)
  }

  /** The list after the calls `ops` on a new list. */
  function Run<T(==)>(ops: seq<Op<T>>, max: nat): seq<T> {
    if ops == [] then [] else Apply(Run(ops[..|ops| - 1], max), ops[|ops| - 1], max)
  }

  lemma {:induction false} RunWellFormed<T(!new)>(ops: seq<Op<T>>, max: nat)
    ensures NoDup(Run(ops, max)) && |Run(ops, max)| <= max
  {
    if ops != [] {
      RunWellFormed(ops[..|ops| - 1], max);
      var s := Run(ops[..|ops| - 1], max);
      var x := ops[|ops| - 1].elem;
      WithoutFacts(s, x);
      WithoutLength(s, x);
      PutFacts(s, x, max);
    }
  }

  lemma TouchInclusion<T(!new)>(s: seq<T>, l: seq<T>, x: T)
    requires s <= l && NoDup(l)
    ensures Without(s, x) <= Without(l, x)
    ensures Touch(s, x) <= Touch(l, x)
  {
    var r := l[|s|..];
    assert l == s + r;
    WithoutConcat(s, r, x);
  }

  lemma ApplyInclusion<T(!new)>(s: seq<T>, l: seq<T>, op: Op<T>, n: nat, m: nat)
    requires s <= l && NoDup(s) && NoDup(l) && |s| <= n <= m && |l| <= m
    ensures Apply(s, op, n) <= Apply(l, op, m)
  {
    TouchInclusion(s, l, op.elem);
    TouchSize(s, op.elem);
    TouchSize(l, op.elem);
  }

  lemma TouchSize<T(!new)>(s: seq<T>, x: T)
    requires NoDup(s)
    ensures |Touch(s, x)| == if x in s then |s| else |s| + 1
  {
    WithoutLength(s, x);
  }

  /** Stack inclusion: on the same run the smaller list is always a prefix of the larger one. */
  lemma {:induction false} StackInclusion<T(!new)>(ops: seq<Op<T>>, n: nat, m: nat)
    requires n <= m
    ensures Run(ops, n) <= Run(ops, m)
  {
    if ops != [] {
      var before := ops[..|ops| - 1];
      StackInclusion(before, n, m);
      RunWellFormed(before, n);
      RunWellFormed(before, m);
      ApplyInclusion(Run(before, n), Run(before, m), ops[|ops| - 1], n, m);
    }
  }

  /** Position of the last call on x, or -1. */
  function LastOp<T(==)>(ops: seq<Op<T>>, x: T): (i: int)
    ensures -1 <= i < |ops|
    ensures i >= 0 ==> ops[i].elem == x
    ensures forall j :: i < j < |ops| ==> ops[j].elem != x
  {
    if ops == [] then -1
    else if ops[|ops| - 1].elem == x then |ops| - 1
    else LastOp(ops[..|ops| - 1], x)
  }

  /** x is known: the last call on it was a `put`. */
  ghost predicate Known<T(!new)>(ops: seq<Op<T>>, x: T) {
    LastOp(ops, x) >= 0 && ops[LastOp(ops, x)].Use?
  }

  /** Every element was last used after all elements behind it. */
  ghost predicate ByLastUse<T(!new)>(ops: seq<Op<T>>, s: seq<T>) {
    forall i, j :: 0 <= i < j < |s| ==> LastOp(ops, s[i]) > LastOp(ops, s[j])
  }

  lemma {:induction false} WithoutKeepsOrder<T(!new)>(ops: seq<Op<T>>, s: seq<T>, x: T)
    requires ByLastUse(ops, s)
    ensures ByLastUse(ops, Without(s, x))
  {
    if s != [] {
      var r := s[1..];
      WithoutKeepsOrder(ops, r, x);
      WithoutFacts(r, x);
      var w := Without(r, x);
      forall j | 0 <= j < |w|
        ensures LastOp(ops, s[0]) > LastOp(ops, w[j])
      {
        var y := w[j];
        assert y in w;
        assert y in r;
        var k :| 0 <= k < |r| && r[k] == w[j];
        assert r[k] == s[k + 1];
      }
    }
  }

  /** A call on x changes the last call of no other element. */
  lemma OrderAfterCall<T(!new)>(before: seq<Op<T>>, op: Op<T>, s: seq<T>)
    requires ByLastUse(before, s) && op.elem !in s
    ensures ByLastUse(before + [op], s)
    ensures ByLastUse(before + [op], [op.elem] + s)
  {
    var ops := before + [op];
    assert ops[..|ops| - 1] == before;
    forall y | y != op.elem
      ensures LastOp(ops, y) == LastOp(before, y)
    {
    }
    var t := [op.elem] + s;
    forall i, j | 0 <= i < j < |t|
      ensures LastOp(ops, t[i]) > LastOp(ops, t[j])
    {
      assert t[j] == s[j - 1];
      if i > 0 {
        assert t[i] == s[i - 1];
      }
    }
  }

  /** The list is ordered by last use, most recent first. */
  lemma {:induction false} RecencyOrder<T(!new)>(ops: seq<Op<T>>, max: nat)
    ensures ByLastUse(ops, Run(ops, max))
  {
    if ops != [] {
      var before := ops[..|ops| - 1];
      var op := ops[|ops| - 1];
      var s := Run(before, max);
      assert ops == before + [op];
      RecencyOrder(before, max);
      WithoutKeepsOrder(before, s, op.elem);
      WithoutFacts(s, op.elem);
      OrderAfterCall(before, op, Without(s, op.elem));
      var t := Touch(s, op.elem);
      assert ByLastUse(ops, t[..|t| - 1]);
    }
  }

  /**
    Every resident is known, and a list too large to overflow holds all that is known. With
    RecencyOrder and StackInclusion this fixes every bounded list: it is a prefix of the known
    elements in order of last use.
   */
  lemma {:induction false} ResidentsAreKnown<T(!new)>(ops: seq<Op<T>>, max: nat)
    ensures forall x :: x in Run(ops, max) ==> Known(ops, x)
    ensures |ops| <= max ==> |Run(ops, max)| <= |ops| && forall x :: Known(ops, x) ==> x in Run(ops, max)
  {
    if ops != [] {
      var before := ops[..|ops| - 1];
      var op := ops[|ops| - 1];
      var s := Run(before, max);
      ResidentsAreKnown(before, max);
      RunWellFormed(before, max);
      WithoutFacts(s, op.elem);
      WithoutLength(s, op.elem);
      forall y | y != op.elem
        ensures Known(ops, y) == Known(before, y)
      {
      }
      var r := Run(ops, max);
      if op.Use? && Overflows(s, op.elem, max) {
        var t := Touch(s, op.elem);
        assert forall y :: y in r ==> y in t;
      }
    }
  }

  // ---------- retention ----------

  /** The elements put after position i and not erased since. */
  ghost function KnownAfter<T(!new)>(ops: seq<Op<T>>, i: int): set<T> {
    set k | 0 <= k < |ops| && k > i && ops[k].Use? && LastOp(ops, ops[k].elem) == k :: ops[k].elem
  }

  lemma InKnownAfter<T(!new)>(ops: seq<Op<T>>, i: int, y: T)
    requires i >= -1
    ensures y in KnownAfter(ops, i) <==> Known(ops, y) && LastOp(ops, y) > i
  {
    var k := LastOp(ops, y);
    if k > i && ops[k].Use? {
      assert ops[k].elem == y;
    }
  }

  lemma KnownAfterSnoc<T(!new)>(ops: seq<Op<T>>, i: int)
    requires -1 <= i < |ops| - 1
    ensures var before, op := ops[..|ops| - 1], ops[|ops| - 1];
            KnownAfter(ops, i) ==
            if op.Use? then KnownAfter(before, i) + {op.elem} else KnownAfter(before, i) - {op.elem}
  {
    var before, op := ops[..|ops| - 1], ops[|ops| - 1];
    forall y
      ensures y in KnownAfter(ops, i) <==>
              if y == op.elem then op.Use? else y in KnownAfter(before, i)
    {
      InKnownAfter(ops, i, y);
      InKnownAfter(before, i, y);
    }
  }

  /** At every moment since position i fewer than `max` known elements were put after it. */
  ghost predicate NeverCrowded<T(!new)>(ops: seq<Op<T>>, i: int, max: nat) {
    forall j :: i < j <= |ops| && 0 <= j ==> |KnownAfter(ops[..j], i)| < max
  }

  lemma NeverCrowdedSnoc<T(!new)>(ops: seq<Op<T>>, i: int, max: nat)
    requires -1 <= i < |ops| && ops != []
    ensures i < |ops| - 1 ==>
              (NeverCrowded(ops, i, max) <==> NeverCrowded(ops[..|ops| - 1], i, max) && |KnownAfter(ops, i)| < max)
    ensures i == |ops| - 1 ==> (NeverCrowded(ops, i, max) <==> max > 0)
  {
    var before := ops[..|ops| - 1];
    assert ops[..|ops|] == ops;
    assert forall j :: 0 <= j < |ops| ==> before[..j] == ops[..j];
    if i == |ops| - 1 {
      assert KnownAfter(ops, i) == {};
    } else {
      if NeverCrowded(ops, i, max) {
        forall j | i < j <= |before| && 0 <= j
          ensures |KnownAfter(before[..j], i)| < max
        {
          assert before[..j] == ops[..j];
        }
        assert |KnownAfter(ops[..|ops|], i)| < max;
      }
      if NeverCrowded(before, i, max) && |KnownAfter(ops, i)| < max {
        forall j | i < j <= |ops| && 0 <= j
          ensures |KnownAfter(ops[..j], i)| < max
        {
          assert j < |ops| ==> before[..j] == ops[..j];
        }
      }
    }
  }

  lemma {:induction false} CardinalityOfNoDup<T(!new)>(s: seq<T>)
    requires NoDup(s)
    ensures |Elems(s)| == |s|
  {
    if s != [] {
      CardinalityOfNoDup(s[1..]);
      assert Elems(s) == {s[0]} + Elems(s[1..]);
      assert s[0] !in s[1..];
    }
  }

  lemma SubsetSize<T(!new)>(a: set<T>, b: set<T>)
    requires a <= b
    ensures |a| <= |b|
    ensures |a| == |b| ==> a == b
  {
    assert b == a + (b - a);
    assert |b| == |a| + |b - a|;
  }

  /** The elements more recent than x. */
  ghost function Ahead<T(!new)>(s: seq<T>, x: T): set<T> {
    if s == [] || s[0] == x then {} else {s[0]} + Ahead(s[1..], x)
  }

  lemma {:induction false} AheadWithout<T(!new)>(s: seq<T>, x: T, y: T)
    requires x != y
    ensures Ahead(Without(s, y), x) == Ahead(s, x) - {y}
  {
    if s != [] {
      AheadWithout(s[1..], x, y);
      if s[0] != y {
        assert Without(s, y)[1..] == Without(s[1..], y);
      }
    }
  }

  lemma {:induction false} AheadIn<T(!new)>(s: seq<T>, x: T)
    ensures forall y :: y in Ahead(s, x) ==> y in s
  {
    if s != [] {
      AheadIn(s[1..], x);
    }
  }

  lemma {:induction false} AheadSize<T(!new)>(s: seq<T>, x: T)
    requires NoDup(s) && x in s
    ensures |Ahead(s, x)| < |s|
    ensures |Ahead(s, x)| == |s| - 1 <==> x == s[|s| - 1]
  {
    if s[0] != x {
      assert s == [s[0]] + s[1..];
      AheadSize(s[1..], x);
      AheadIn(s[1..], x);
    } else if |s| > 1 {
      assert s[|s| - 1] in s[1..];
    }
  }

  lemma {:induction false} AheadPrefix<T(!new)>(s: seq<T>, k: nat, x: T)
    requires k <= |s| && x in s[..k]
    ensures Ahead(s[..k], x) == Ahead(s, x)
  {
    if s[0] != x {
      assert s[..k] == [s[0]] + s[1..][..k - 1];
      AheadPrefix(s[1..], k - 1, x);
      assert s[..k][1..] == s[1..][..k - 1];
    }
  }

  lemma InButLast<T(!new)>(s: seq<T>, x: T)
    requires NoDup(s) && x in s
    ensures x in s[..|s| - 1] <==> x != s[|s| - 1]
  {
    ButLast(s);
    assert x in s[..|s| - 1] <==> x in Elems(s[..|s| - 1]);
  }

  lemma TouchAhead<T(!new)>(s: seq<T>, x: T, y: T)
    requires x != y
    ensures Ahead(Touch(s, y), x) == Ahead(s, x) + {y}
  {
    AheadWithout(s, x, y);
    assert Touch(s, y)[1..] == Without(s, y);
  }

  lemma TouchKeeps<T(!new)>(s: seq<T>, x: T, y: T)
    requires NoDup(s) && x in s
    ensures NoDup(Touch(s, y)) && x in Touch(s, y) && |Touch(s, y)| <= |s| + 1
  {
    TouchFacts(s, y);
  }

  lemma {:induction false} AheadAfterTrim<T(!new)>(t: seq<T>, x: T, max: nat)
    requires NoDup(t) && x in t && |t| <= max + 1
    ensures x in Trim(t, max) <==> |Ahead(t, x)| < max
    ensures x in Trim(t, max) ==> Ahead(Trim(t, max), x) == Ahead(t, x)
  {
    AheadSize(t, x);
    if |t| > max {
      InButLast(t, x);
      if x in t[..max] {
        AheadPrefix(t, max, x);
      }
    }
  }

  /** What a `put` of another element does to x: too many ahead drop it. */
  lemma PutAhead<T(!new)>(s: seq<T>, x: T, y: T, max: nat)
    requires x in s && y != x && NoDup(s) && |s| <= max
    ensures var a := Ahead(Touch(s, y), x);
            var r := Put(s, y, max);
            (x in r <==> |a| < max) && (x in r ==> Ahead(r, x) == a)
  {
    TouchKeeps(s, x, y);
    AheadAfterTrim(Touch(s, y), x, max);
  }

  /** What is ahead of a resident x is what was put after it and is still known. */
  ghost predicate AheadIsNewer<T(!new)>(ops: seq<Op<T>>, i: int, x: T, s: seq<T>) {
    x in s ==> Ahead(s, x) == KnownAfter(ops, i)
  }

  /** One later call on another element. */
  lemma RetentionStep<T(!new)>(before: seq<Op<T>>, op: Op<T>, i: int, x: T, s: seq<T>, max: nat)
    requires 0 <= i < |before| && op.elem != x
    requires NoDup(s) && |s| <= max && AheadIsNewer(before, i, x, s)
    ensures var ops, r := before + [op], Apply(s, op, max);
            && AheadIsNewer(ops, i, x, r)
            && (x in r <==> x in s && |KnownAfter(ops, i)| < max)
  {
    var ops := before + [op];
    assert ops[..|ops| - 1] == before;
    KnownAfterSnoc(ops, i);
    WithoutFacts(s, op.elem);
    if x in s {
      AheadSize(s, x);
      if op.Use? {
        PutAhead(s, x, op.elem, max);
        TouchAhead(s, x, op.elem);
      } else {
        AheadWithout(s, x, op.elem);
        SubsetSize(KnownAfter(ops, i), Ahead(s, x));
      }
    } else {
      assert x !in Touch(s, op.elem);
    }
  }

  lemma {:induction false} RetentionInvariant<T(!new)>(ops: seq<Op<T>>, x: T, max: nat)
    requires Known(ops, x)
    ensures AheadIsNewer(ops, LastOp(ops, x), x, Run(ops, max))
    ensures x in Run(ops, max) <==> NeverCrowded(ops, LastOp(ops, x), max)
  {
    var before := ops[..|ops| - 1];
    var op := ops[|ops| - 1];
    assert ops == before + [op];
    var s := Run(before, max);
    RunWellFormed(before, max);
    NeverCrowdedSnoc(ops, LastOp(ops, x), max);
    if op.elem == x {
      JustPut(ops, x, max);
    } else {
      RetentionInvariant(before, x, max);
      RetentionStep(before, op, LastOp(before, x), x, s, max);
    }
  }

  lemma JustPut<T(!new)>(ops: seq<Op<T>>, x: T, max: nat)
    requires ops != [] && ops[|ops| - 1] == Use(x)
    ensures x in Run(ops, max) <==> max > 0
    ensures KnownAfter(ops, |ops| - 1) == {} && Ahead(Run(ops, max), x) == {}
  {
    var s := Run(ops[..|ops| - 1], max);
    RunWellFormed(ops, max);
    assert max > 0 ==> Put(s, x, max)[0] == x;
  }

  /**
    Retention. A key is resident exactly when the last call on it was a `put`, and at every moment
    since then fewer than `max` others that were put after it were still known.
   */
  lemma Retention<T(!new)>(ops: seq<Op<T>>, x: T, max: nat)
    ensures x in Run(ops, max) <==> Known(ops, x) && NeverCrowded(ops, LastOp(ops, x), max)
  {
    ResidentsAreKnown(ops, max);
    if Known(ops, x) {
      RetentionInvariant(ops, x, max);
    }
  }

  /** The elements put after position i. */
  ghost function PutAfter<T(!new)>(ops: seq<Op<T>>, i: int): set<T> {
    set k | 0 <= k < |ops| && k > i && ops[k].Use? :: ops[k].elem
  }

  ghost predicate NoErase<T(!new)>(ops: seq<Op<T>>, i: int) {
    forall k :: 0 <= k < |ops| && k > i ==> ops[k].Use?
  }

  lemma KnownWerePut<T(!new)>(ops: seq<Op<T>>, i: int, j: nat)
    requires -1 <= i && j <= |ops|
    ensures KnownAfter(ops[..j], i) <= PutAfter(ops, i)
    ensures j == |ops| && NoErase(ops, i) ==> KnownAfter(ops, i) == PutAfter(ops, i)
  {
    forall y | y in KnownAfter(ops[..j], i)
      ensures y in PutAfter(ops, i)
    {
      var k :| 0 <= k < j && k > i && ops[..j][k].Use? && ops[..j][k].elem == y;
      assert ops[k] == ops[..j][k];
    }
    if j == |ops| && NoErase(ops, i) {
      assert ops[..j] == ops;
      forall y | y in PutAfter(ops, i)
        ensures y in KnownAfter(ops, i)
      {
        var k :| 0 <= k < |ops| && k > i && ops[k].Use? && ops[k].elem == y;
        assert LastOp(ops, y) >= k;
        InKnownAfter(ops, i, y);
      }
    }
  }

  /**
    In terms of the `put` calls alone: a known key is resident while fewer than `max` distinct keys
    were put after it; when nothing was erased since, it is resident exactly then.
   */
  lemma RetentionByPuts<T(!new)>(ops: seq<Op<T>>, x: T, max: nat)
    requires Known(ops, x)
    ensures |PutAfter(ops, LastOp(ops, x))| < max ==> x in Run(ops, max)
    ensures NoErase(ops, LastOp(ops, x)) ==>
              (x in Run(ops, max) <==> |PutAfter(ops, LastOp(ops, x))| < max)
  {
    var i := LastOp(ops, x);
    Retention(ops, x, max);
    forall j | i < j <= |ops|
      ensures |KnownAfter(ops[..j], i)| <= |PutAfter(ops, i)|
    {
      KnownWerePut(ops, i, j);
      SubsetSize(KnownAfter(ops[..j], i), PutAfter(ops, i));
    }
    KnownWerePut(ops, i, |ops|);
    assert ops[..|ops|] == ops;
    assert NeverCrowded(ops, i, max) ==> |KnownAfter(ops[..|ops|], i)| < max;
  }

  // ---------- conservation ----------

  datatype Tally = Tally(inserted: nat, evicted: nat, erased: nat)

  /** Counts of new insertions, of puts that return 1, and of erasures that find their element. */
  function Count<T(==)>(ops: seq<Op<T>>, max: nat): Tally {
    if ops == [] then Tally(0, 0, 0)
    else
      var t := Count(ops[..|ops| - 1], max);
      var s := Run(ops[..|ops| - 1], max);
      match ops[|ops| - 1]
      case Use(x) =>
        t.(inserted := t.inserted + if x in s then 0 else 1,
           evicted := t.evicted + if Overflows(s, x, max) then 1 else 0)
      case Erase(x) => t.(erased := t.erased + if x in s then 1 else 0)
  }

  /** Nothing is lost unaccounted: every insertion is resident, evicted or erased. */
  lemma {:induction false} Conservation<T(!new)>(ops: seq<Op<T>>, max: nat)
    ensures var t := Count(ops, max);
            t.inserted == |Run(ops, max)| + t.evicted + t.erased
  {
    if ops != [] {
      var before := ops[..|ops| - 1];
      Conservation(before, max);
      RunWellFormed(before, max);
      WithoutLength(Run(before, max), ops[|ops| - 1].elem);
    }
  }
}
