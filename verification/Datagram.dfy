/**
  Reassembly of one datagram (section 3.2 of RFC 791, section 4.5 of RFC 8200): whatever the
  order in which its fragments arrive, and however often each arrives, the packet comes out at
  the first moment every fragment has been seen, and it is the datagram.
 */
module Datagram {
  import opened Wrappers
  import opened Bytes
  import opened Fragments

  /** Where the fragments of d start: from 0, each further on, all within reach of the offset field. */
  ghost predicate IsCut(d: seq<Byte>, cuts: seq<nat>) {
    && |cuts| > 0 && cuts[0] == 0
    && (forall i, j :: 0 <= i < j < |cuts| ==> cuts[i] < cuts[j])
    && (forall i :: 0 <= i < |cuts| ==> cuts[i] < 0x1_0000 && cuts[i] <= |d|)
  }

  ghost function End(d: seq<Byte>, cuts: seq<nat>, i: nat): (e: nat)
    requires IsCut(d, cuts) && i < |cuts|
    ensures cuts[i] <= e <= |d|
  {
    if i + 1 < |cuts| then cuts[i + 1] else |d|
  }

  ghost function PieceOf(d: seq<Byte>, cuts: seq<nat>, i: nat): Piece
    requires IsCut(d, cuts) && i < |cuts|
  {
    Piece(i == 0, cuts[i], i == |cuts| - 1, d[cuts[i]..End(d, cuts, i)])
  }

  ghost function WaitingOf(d: seq<Byte>, cuts: seq<nat>, i: nat): IPFragment
    requires IsCut(d, cuts) && i < |cuts|
  {
    IPFragment(cuts[i], i == |cuts| - 1, d[cuts[i]..End(d, cuts, i)])
  }

  /** The first index from p on that was not seen, or n. */
  ghost function FilledFrom(seen: set<nat>, p: nat, n: nat): (q: nat)
    requires p <= n
    ensures p <= q <= n
    ensures forall i :: p <= i < q ==> i in seen
    ensures q < n ==> q !in seen
    decreases n - p
  {
    if p < n && p in seen then FilledFrom(seen, p + 1, n) else p
  }

  ghost function Filled(seen: set<nat>, n: nat): nat {
    FilledFrom(seen, 0, n)
  }

  lemma FilledUnique(seen: set<nat>, p: nat, n: nat, q: nat)
    requires p <= q <= n && (forall i :: p <= i < q ==> i in seen) && (q < n ==> q !in seen)
    ensures FilledFrom(seen, p, n) == q
  {
  }

  ghost predicate FragmentsOf(w: seq<IPFragment>, d: seq<Byte>, cuts: seq<nat>, seen: set<nat>)
    requires IsCut(d, cuts)
  {
    forall f :: f in w ==> exists i :: i in seen && 0 < i < |cuts| && f == WaitingOf(d, cuts, i)
  }

  /** Only fragments of d wait, and every seen one from index q on does. */
  ghost predicate WaitsFor(w: seq<IPFragment>, d: seq<Byte>, cuts: seq<nat>, seen: set<nat>, q: nat)
    requires IsCut(d, cuts)
  {
    && FragmentsOf(w, d, cuts, seen)
    && (forall i :: i in seen && q <= i < |cuts| ==> WaitingOf(d, cuts, i) in w)
  }

  /** The buffer is exactly the first cuts[q] bytes of the datagram. */
  ghost predicate BuiltTo(r: Record, d: seq<Byte>, cuts: seq<nat>, q: nat)
    requires IsCut(d, cuts) && q < |cuts|
  {
    && r.currentOffset == cuts[q]
    && r.data == if q == 0 then None else Some(d[..cuts[q]])
  }

  /** The record after the fragments in `seen`, as long as one is missing. */
  ghost predicate Partial(r: Record, d: seq<Byte>, cuts: seq<nat>, seen: set<nat>)
    requires IsCut(d, cuts)
  {
    var q := Filled(seen, |cuts|);
    q < |cuts| && BuiltTo(r, d, cuts, q) && WaitsFor(r.outOfOrder, d, cuts, seen, q)
  }

  /** A waiting fragment that starts where the buffer ends is fragment q; it waits if it was seen. */
  lemma NextInLine(w: seq<IPFragment>, d: seq<Byte>, cuts: seq<nat>, seen: set<nat>, q: nat)
    requires IsCut(d, cuts) && 0 < q < |cuts| && WaitsFor(w, d, cuts, seen, q)
    ensures var k := FirstAt(w, cuts[q]);
            (k < |w| <==> q in seen) && (k < |w| ==> w[k] == WaitingOf(d, cuts, q))
  {
    var k := FirstAt(w, cuts[q]);
    if k < |w| {
      assert w[k] in w;
      var i :| i in seen && 0 < i < |cuts| && w[k] == WaitingOf(d, cuts, i);
      assert i == q;
    }
    if q in seen {
      assert WaitingOf(d, cuts, q) in w;
    }
  }

  /** Taking fragment q out of the waiting list leaves every later one there. */
  lemma RemovedWaiting(w: seq<IPFragment>, k: nat, d: seq<Byte>, cuts: seq<nat>, seen: set<nat>, q: nat)
    requires IsCut(d, cuts) && q < |cuts| && WaitsFor(w, d, cuts, seen, q)
    requires k < |w| && w[k] == WaitingOf(d, cuts, q)
    ensures WaitsFor(RemoveAt(w, k), d, cuts, seen, q + 1)
  {
    var v := RemoveAt(w, k);
    forall i | i in seen && q + 1 <= i < |cuts|
      ensures WaitingOf(d, cuts, i) in v
    {
      var f := WaitingOf(d, cuts, i);
      assert f.fragmentOffset > w[k].fragmentOffset;
      var j :| 0 <= j < |w| && w[j] == f;
      assert if j < k then v[j] == f else v[j - 1] == f;
    }
    assert forall f :: f in v ==> f in w;
  }

  /** Adding fragment q right after the first cuts[q] bytes. */
  lemma AppendNext(r: Record, d: seq<Byte>, cuts: seq<nat>, q: nat)
    requires IsCut(d, cuts) && q < |cuts| && BuiltTo(r, d, cuts, q)
    ensures var r' := Append(r, d[cuts[q]..End(d, cuts, q)]);
            && r'.outOfOrder == r.outOfOrder
            && (q + 1 < |cuts| ==> BuiltTo(r', d, cuts, q + 1))
            && (q + 1 == |cuts| ==> r'.data == Some(d))
  {
    assert d[..cuts[q]] + d[cuts[q]..End(d, cuts, q)] == d[..End(d, cuts, q)];
    if q + 1 == |cuts| {
      assert d[..|d|] == d;
    }
  }

  /**
    The drain moves exactly the run of waiting fragments that continues the buffer, and stops
    only where the next one is missing or the datagram is complete.
   */
  lemma {:induction false} DrainContinues(r: Record, d: seq<Byte>, cuts: seq<nat>, seen: set<nat>, q: nat)
    requires IsCut(d, cuts) && 0 < q < |cuts|
    requires BuiltTo(r, d, cuts, q) && WaitsFor(r.outOfOrder, d, cuts, seen, q)
    ensures var p := FilledFrom(seen, q, |cuts|);
            var (r', done) := Drain(r);
            && done == (p == |cuts|)
            && (done ==> r'.data == Some(d))
            && (!done ==> BuiltTo(r', d, cuts, p) && WaitsFor(r'.outOfOrder, d, cuts, seen, p))
    decreases |r.outOfOrder|
  {
    var w := r.outOfOrder;
    var k := FirstAt(w, r.currentOffset);
    NextInLine(w, d, cuts, seen, q);
    if q in seen {
      RemovedWaiting(w, k, d, cuts, seen, q);
      var s := r.(outOfOrder := RemoveAt(w, k));
      AppendNext(s, d, cuts, q);
      if q + 1 < |cuts| {
        DrainContinues(Append(s, w[k].fragmentData), d, cuts, seen, q + 1);
      }
    }
  }

  ghost function ExpectedStatus(seen: set<nat>, i: nat, n: nat): ReassemblyStatus {
    if Filled(seen + {i}, n) == n then Reassembled
    else if i == 0 && 0 !in seen then FirstFragment
    else if i > Filled(seen, n) then OutOfOrderFragment
    else Fragment
  }

  lemma WaitsForMore(w: seq<IPFragment>, d: seq<Byte>, cuts: seq<nat>, seen: set<nat>, i: nat, q: nat, q': nat)
    requires IsCut(d, cuts) && WaitsFor(w, d, cuts, seen, q) && q <= q'
    requires i in seen || i < q'
    ensures WaitsFor(w, d, cuts, seen + {i}, q')
  {
  }

  /** Filling the first gap moves it to the next one. */
  lemma FilledPast(seen: set<nat>, n: nat, q: nat)
    requires q == Filled(seen, n) < n
    ensures Filled(seen + {q}, n) == FilledFrom(seen + {q}, q + 1, n)
  {
    FilledUnique(seen + {q}, 0, n, FilledFrom(seen + {q}, q + 1, n));
  }

  /** The fragment the buffer was waiting for, with more to come. */
  lemma AcceptMiddle(r: Record, d: seq<Byte>, cuts: seq<nat>, seen: set<nat>, q: nat)
    requires IsCut(d, cuts) && Partial(r, d, cuts, seen) && q == Filled(seen, |cuts|) && q + 1 < |cuts|
    ensures var p := FilledFrom(seen + {q}, q + 1, |cuts|);
            var (r', done) := Drain(Append(r, PieceOf(d, cuts, q).payload));
            && done == (p == |cuts|)
            && (done ==> r'.data == Some(d))
            && (!done ==> BuiltTo(r', d, cuts, p) && WaitsFor(r'.outOfOrder, d, cuts, seen + {q}, p))
  {
    var s := Append(r, PieceOf(d, cuts, q).payload);
    AppendNext(r, d, cuts, q);
    WaitsForMore(r.outOfOrder, d, cuts, seen, q, q, q + 1);
    assert BuiltTo(s, d, cuts, q + 1) && WaitsFor(s.outOfOrder, d, cuts, seen + {q}, q + 1);
    DrainContinues(s, d, cuts, seen + {q}, q + 1);
  }

  /** The fragment the buffer was waiting for. */
  lemma AcceptNext(r: Record, d: seq<Byte>, cuts: seq<nat>, seen: set<nat>, q: nat)
    requires IsCut(d, cuts) && Partial(r, d, cuts, seen) && q == Filled(seen, |cuts|)
    ensures var (r', done) := AppendAndDrain(r, PieceOf(d, cuts, q));
            && done == (Filled(seen + {q}, |cuts|) == |cuts|)
            && (done ==> r'.data == Some(d))
            && (!done ==> Partial(r', d, cuts, seen + {q}))
  {
    var n := |cuts|;
    FilledPast(seen, n, q);
    if q + 1 < n {
      AcceptMiddle(r, d, cuts, seen, q);
    } else {
      AppendNext(r, d, cuts, q);
    }
  }

  /**
    Every fragment of the datagram, in order, early, late or repeated, leaves the record in
    the state the set of seen fragments determines, and completes it exactly when none is missing.
   */
  lemma AcceptPartial(r: Record, d: seq<Byte>, cuts: seq<nat>, seen: set<nat>, i: nat)
    requires IsCut(d, cuts) && Partial(r, d, cuts, seen) && i < |cuts|
    ensures var (r', status) := Accept(r, PieceOf(d, cuts, i));
            && status == ExpectedStatus(seen, i, |cuts|)
            && (status == Reassembled ==> r'.data == Some(d))
            && (status != Reassembled ==> Partial(r', d, cuts, seen + {i}))
  {
    var n := |cuts|;
    var q := Filled(seen, n);
    var p := PieceOf(d, cuts, i);
    if i == q {
      AcceptNext(r, d, cuts, seen, q);
    } else {
      FilledUnique(seen + {i}, 0, n, q);
      if i > q {
        var w := r.outOfOrder + [WaitingOf(d, cuts, i)];
        forall f | f in w
          ensures exists j :: j in seen + {i} && 0 < j < n && f == WaitingOf(d, cuts, j)
        {
          if f in r.outOfOrder {
            var j :| j in seen && 0 < j < n && f == WaitingOf(d, cuts, j);
            assert j in seen + {i};
          }
        }
      } else {
        WaitsForMore(r.outOfOrder, d, cuts, seen, i, q, q);
      }
    }
  }

  // ---------- whole arrival sequences ----------

  ghost predicate InRange(arrivals: seq<nat>, n: nat) {
    forall k :: 0 <= k < |arrivals| ==> arrivals[k] < n
  }

  ghost function Seen(arrivals: seq<nat>): set<nat> {
    set i | i in arrivals
  }

  ghost predicate Complete(arrivals: seq<nat>, n: nat) {
    forall i :: 0 <= i < n ==> i in arrivals
  }

  ghost function Arrivals(d: seq<Byte>, cuts: seq<nat>, arrivals: seq<nat>): seq<LocalEvent>
    requires IsCut(d, cuts) && InRange(arrivals, |cuts|)
  {
    seq(|arrivals|, k requires 0 <= k < |arrivals| =>
      Arrives(PieceOf(d, cuts, arrivals[k])))
  }

  /** The record of a fresh datagram after some, but not all, of its fragments. */
  lemma {:induction false} PartialRun(d: seq<Byte>, cuts: seq<nat>, arrivals: seq<nat>)
    requires IsCut(d, cuts) && InRange(arrivals, |cuts|)
    requires !Complete(arrivals, |cuts|)
    decreases |arrivals|, 1
    ensures var o := LocalRun(Arrivals(d, cuts, arrivals));
            if arrivals == [] then o == None else o.Some? && Partial(o.value, d, cuts, Seen(arrivals))
  {
    if arrivals != [] {
      IncompletePrefix(arrivals, |cuts|);
      LastArrival(d, cuts, arrivals);
    }
  }

  /**
    For every sequence of arrivals, with repetitions, up to the first complete one: the last
    arrival gets the expected status, and it gets the packet, which is d, exactly when no
    fragment is missing any more.
   */
  lemma {:induction false} LastArrival(d: seq<Byte>, cuts: seq<nat>, arrivals: seq<nat>)
    requires IsCut(d, cuts) && |arrivals| > 0 && InRange(arrivals, |cuts|)
    requires !Complete(arrivals[..|arrivals| - 1], |cuts|)
    ensures var before := arrivals[..|arrivals| - 1];
            var i := arrivals[|arrivals| - 1];
            var (o, out) := Feed(LocalRun(Arrivals(d, cuts, before)), PieceOf(d, cuts, i));
            && o == LocalRun(Arrivals(d, cuts, arrivals))
            && out == Outcome(ExpectedStatus(Seen(before), i, |cuts|),
                              if Complete(arrivals, |cuts|) then Some(d) else None)
            && (out.status == Reassembled <==> Complete(arrivals, |cuts|))
            && (out.status == Reassembled ==> o == None)
            && (out.status != Reassembled ==> o.Some? && Partial(o.value, d, cuts, Seen(arrivals)))
    decreases |arrivals|, 0
  {
    var n := |cuts|;
    var before := arrivals[..|arrivals| - 1];
    var i := arrivals[|arrivals| - 1];
    assert arrivals == before + [i];
    var h := Arrivals(d, cuts, arrivals);
    assert h[..|h| - 1] == Arrivals(d, cuts, before);
    assert Seen(arrivals) == Seen(before) + {i};
    PartialRun(d, cuts, before);
    var r := if before == [] then FRESH else LocalRun(Arrivals(d, cuts, before)).value;
    assert Partial(r, d, cuts, Seen(before));
    AcceptPartial(r, d, cuts, Seen(before), i);
    FilledIsComplete(arrivals, n);
  }

  lemma FilledIsComplete(arrivals: seq<nat>, n: nat)
    ensures Filled(Seen(arrivals), n) == n <==> Complete(arrivals, n)
  {
    var q := Filled(Seen(arrivals), n);
    if q == n {
      forall i | 0 <= i < n
        ensures i in arrivals
      {
        assert i in Seen(arrivals);
      }
    } else {
      assert q !in arrivals;
    }
  }

  lemma IncompletePrefix(arrivals: seq<nat>, n: nat)
    requires |arrivals| > 0 && !Complete(arrivals, n)
    ensures !Complete(arrivals[..|arrivals| - 1], n)
  {
    var i :| 0 <= i < n && i !in arrivals;
    assert i !in arrivals[..|arrivals| - 1];
  }

  // ---------- what waits ----------

  /** The waiting fragments start at different offsets, none before `bound`. */
  ghost predicate Beyond(w: seq<IPFragment>, bound: int) {
    && (forall j :: 0 <= j < |w| ==> bound <= w[j].fragmentOffset)
    && (forall j, k :: 0 <= j < k < |w| ==> w[j].fragmentOffset != w[k].fragmentOffset)
  }

  /** Of the fragments from index q on, those other than q start at cuts[q + 1] or later. */
  lemma NextBound(w: seq<IPFragment>, d: seq<Byte>, cuts: seq<nat>, seen: set<nat>, q: nat)
    requires IsCut(d, cuts) && q + 1 < |cuts| && FragmentsOf(w, d, cuts, seen)
    requires Beyond(w, cuts[q] + 1)
    ensures Beyond(w, cuts[q + 1])
  {
    forall j | 0 <= j < |w|
      ensures cuts[q + 1] <= w[j].fragmentOffset
    {
      assert w[j] in w;
      var i :| i in seen && 0 < i < |cuts| && w[j] == WaitingOf(d, cuts, i);
      assert i > q;
    }
  }

  lemma BeyondRemoved(w: seq<IPFragment>, k: nat)
    requires k < |w| && Beyond(w, w[k].fragmentOffset)
    ensures Beyond(RemoveAt(w, k), w[k].fragmentOffset + 1)
  {
    var v := RemoveAt(w, k);
    forall j | 0 <= j < |v|
      ensures v[j] == if j < k then w[j] else w[j + 1]
    {
    }
  }

  lemma {:induction false} DrainStaysBeyond(r: Record, d: seq<Byte>, cuts: seq<nat>, seen: set<nat>, q: nat)
    requires IsCut(d, cuts) && 0 < q < |cuts|
    requires BuiltTo(r, d, cuts, q) && WaitsFor(r.outOfOrder, d, cuts, seen, q)
    requires Beyond(r.outOfOrder, cuts[q])
    ensures !Drain(r).1 ==> Beyond(Drain(r).0.outOfOrder, Drain(r).0.currentOffset + 1)
    decreases |r.outOfOrder|
  {
    var w := r.outOfOrder;
    var k := FirstAt(w, r.currentOffset);
    NextInLine(w, d, cuts, seen, q);
    if q in seen {
      var s := r.(outOfOrder := RemoveAt(w, k));
      AppendNext(s, d, cuts, q);
      if q + 1 < |cuts| {
        RemovedWaiting(w, k, d, cuts, seen, q);
        BeyondRemoved(w, k);
        NextBound(s.outOfOrder, d, cuts, seen, q);
        DrainStaysBeyond(Append(s, w[k].fragmentData), d, cuts, seen, q + 1);
      }
    }
  }

  lemma AcceptStaysBeyond(r: Record, d: seq<Byte>, cuts: seq<nat>, seen: set<nat>, i: nat)
    requires IsCut(d, cuts) && Partial(r, d, cuts, seen) && i < |cuts| && i !in seen
    requires Beyond(r.outOfOrder, r.currentOffset + 1)
    ensures var (r', status) := Accept(r, PieceOf(d, cuts, i));
            status != Reassembled ==> Beyond(r'.outOfOrder, r'.currentOffset + 1)
  {
    var n := |cuts|;
    var q := Filled(seen, n);
    var w := r.outOfOrder;
    if i == q {
      if q + 1 < n {
        AppendNext(r, d, cuts, q);
        WaitsForMore(w, d, cuts, seen, q, q, q + 1);
        NextBound(w, d, cuts, seen, q);
        DrainStaysBeyond(Append(r, PieceOf(d, cuts, q).payload), d, cuts, seen + {q}, q + 1);
      }
    } else if i > q {
      forall j | 0 <= j < |w|
        ensures w[j].fragmentOffset != cuts[i]
      {
        assert w[j] in w;
        var k :| k in seen && 0 < k < n && w[j] == WaitingOf(d, cuts, k);
        assert k != i;
      }
    }
  }

  /** While no fragment is repeated, every waiting one lies strictly beyond the current offset. */
  lemma {:induction false} WaitingLiesBeyond(d: seq<Byte>, cuts: seq<nat>, arrivals: seq<nat>)
    requires IsCut(d, cuts) && InRange(arrivals, |cuts|) && !Complete(arrivals, |cuts|)
    requires forall j, k :: 0 <= j < k < |arrivals| ==> arrivals[j] != arrivals[k]
    ensures var o := LocalRun(Arrivals(d, cuts, arrivals));
            o.Some? ==> Beyond(o.value.outOfOrder, o.value.currentOffset + 1)
    decreases |arrivals|
  {
    if arrivals != [] {
      var before := arrivals[..|arrivals| - 1];
      var i := arrivals[|before|];
      IncompletePrefix(arrivals, |cuts|);
      WaitingLiesBeyond(d, cuts, before);
      PartialRun(d, cuts, before);
      LastArrival(d, cuts, arrivals);
      var o := LocalRun(Arrivals(d, cuts, before));
      assert i !in before;
      AcceptStaysBeyond(if o.Some? then o.value else FRESH, d, cuts, Seen(before), i);
    }
  }

  // ---------- every order of arrival ----------

  ghost predicate IsPermutation(arrivals: seq<nat>, n: nat) {
    && |arrivals| == n
    && InRange(arrivals, n)
    && (forall j, k :: 0 <= j < k < n ==> arrivals[j] != arrivals[k])
  }

  ghost function Upto(n: nat): (s: set<nat>)
    ensures |s| == n
    ensures forall i: nat :: i in s <==> i < n
  {
    if n == 0 then {} else Upto(n - 1) + {n - 1}
  }

  lemma {:induction false} SeenSize(arrivals: seq<nat>)
    requires forall j, k :: 0 <= j < k < |arrivals| ==> arrivals[j] != arrivals[k]
    ensures |Seen(arrivals)| == |arrivals|
  {
    if arrivals != [] {
      var before := arrivals[..|arrivals| - 1];
      SeenSize(before);
      assert Seen(arrivals) == Seen(before) + {arrivals[|arrivals| - 1]};
      assert arrivals[|arrivals| - 1] !in before;
    }
  }

  lemma PermutationIsComplete(arrivals: seq<nat>, n: nat, k: nat)
    requires IsPermutation(arrivals, n) && k <= n
    ensures Complete(arrivals[..k], n) <==> k == n
  {
    if k == n {
      assert arrivals[..k] == arrivals;
      SeenSize(arrivals);
      var all := Upto(n);
      assert Seen(arrivals) <= all;
      if exists i :: 0 <= i < n && i !in arrivals {
        var i: nat :| 0 <= i < n && i !in arrivals;
        assert Seen(arrivals) <= all - {i};
        SizeOfSubset(Seen(arrivals), all - {i});
      }
    } else {
      assert arrivals[k] !in arrivals[..k];
      assert arrivals[k] in arrivals;
    }
  }

  lemma SizeOfSubset(a: set<nat>, b: set<nat>)
    requires a <= b
    ensures |a| <= |b|
  {
    assert b == a + (b - a);
    assert |b| == |a| + |b - a|;
  }

  /**
    The reassembly theorem: for every datagram, every way to cut it and every order of arrival,
    exactly the final arrival reports REASSEMBLED, and it returns the fragments' bytes in
    offset order, which is the datagram.
   */
  lemma AnyOrder(d: seq<Byte>, cuts: seq<nat>, arrivals: seq<nat>, k: nat)
    requires IsCut(d, cuts) && IsPermutation(arrivals, |cuts|) && k < |cuts|
    ensures var out := Feed(LocalRun(Arrivals(d, cuts, arrivals[..k])), PieceOf(d, cuts, arrivals[k])).1;
            && (out.status == Reassembled <==> k == |cuts| - 1)
            && out.packet == if k == |cuts| - 1 then Some(d) else None
  {
    var upto := arrivals[..k + 1];
    assert upto[..|upto| - 1] == arrivals[..k];
    PermutationIsComplete(arrivals, |cuts|, k);
    PermutationIsComplete(arrivals, |cuts|, k + 1);
    LastArrival(d, cuts, upto);
  }
}
