/**
  One datagram's reassembly record (IPReassembly.h, struct IPFragmentData) as a value, and the
  documented logic for one arriving fragment.
 */
module Fragments {
  import opened Wrappers
  import opened Bytes

  /** Offsets are kept in a uint16_t. */
  const OFFSET_SPAN := 0x1_0000

  type Offset = n: int | 0 <= n < 0x1_0000

  /** The part of an arriving fragment that reassembly looks at. */
  datatype Piece = Piece(first: bool, offset: Offset, last: bool, payload: seq<Byte>)

  /** A fragment that waits for its turn. */
  datatype IPFragment = IPFragment(fragmentOffset: Offset, lastFragment: bool, fragmentData: seq<Byte>)

  datatype Record = Record(currentOffset: Offset, data: Option<seq<Byte>>, outOfOrder: seq<IPFragment>)

  datatype ReassemblyStatus =
    | NonIpPacket
    | NonFragment
    | FirstFragment
    | Fragment
    | OutOfOrderFragment
    | MalformedFragment
    | Reassembled

  const FRESH := Record(0, None, [])

  function Gathered(r: Record): seq<Byte> {
    if r.data.Some? then r.data.value else []
  }

  /** Copies data right after what is there; the offset counter is 16 bits wide. */
  function Append(r: Record, payload: seq<Byte>): Record {
    r.(data := Some(Gathered(r) + payload), currentOffset := (r.currentOffset + |payload|) % OFFSET_SPAN)
  }

  /** Position of the first waiting fragment that starts at `offset`, or the length. */
  function FirstAt(w: seq<IPFragment>, offset: int): (i: nat)
    ensures i <= |w|
    ensures i < |w| ==> w[i].fragmentOffset == offset
    ensures forall j :: 0 <= j < i ==> w[j].fragmentOffset != offset
  {
    if w == [] || w[0].fragmentOffset == offset then 0 else 1 + FirstAt(w[1..], offset)
  }

  function RemoveAt<T>(s: seq<T>, i: nat): seq<T>
    requires i < |s|
  {
    s[..i] + s[i + 1..]
  }

  /** Moves waiting fragments whose turn has come; true once the last fragment was moved. */
  function Drain(r: Record): (Record, bool)
    decreases |r.outOfOrder|
  {
    var i := FirstAt(r.outOfOrder, r.currentOffset);
    if i == |r.outOfOrder| then (r, false)
    else
      var f := r.outOfOrder[i];
      var r' := Append(r.(outOfOrder := RemoveAt(r.outOfOrder, i)), f.fragmentData);
      if f.lastFragment then (r', true) else Drain(r')
  }

  function AppendAndDrain(r: Record, p: Piece): (Record, bool) {
    var r' := Append(r, p.payload);
    if p.last then (r', true) else Drain(r')
  }

  /** The record and status after one fragment. */
  function Accept(r: Record, p: Piece): (Record, ReassemblyStatus) {
    if p.first then
      if r.data.None? then
        var (r', done) := AppendAndDrain(r, p);
        (r', if done then Reassembled else FirstFragment)
      else (r, Fragment)
    else if p.offset == 0 then (r, MalformedFragment)
    else if p.offset == r.currentOffset then
      var (r', done) := AppendAndDrain(r, p);
      (r', if done then Reassembled else Fragment)
    else if p.offset > r.currentOffset then
      (r.(outOfOrder := r.outOfOrder + [IPFragment(p.offset, p.last, p.payload)]), OutOfOrderFragment)
    else (r, Fragment)
  }

  // ---------- on any input ----------

  /** The waiting fragments that the drain moves, in the order in which it does. */
  function Moved(r: Record): seq<IPFragment>
    decreases |r.outOfOrder|
  {
    var i := FirstAt(r.outOfOrder, r.currentOffset);
    if i == |r.outOfOrder| then []
    else
      var f := r.outOfOrder[i];
      [f] + if f.lastFragment then []
            else Moved(Append(r.(outOfOrder := RemoveAt(r.outOfOrder, i)), f.fragmentData))
  }

  function Payloads(w: seq<IPFragment>): seq<Byte> {
    if w == [] then [] else w[0].fragmentData + Payloads(w[1..])
  }

  /** Each starts where the one before it brought the offset counter, and only the final one may be marked last. */
  ghost predicate Chained(w: seq<IPFragment>, offset: Offset) {
    w != [] ==>
    && w[0].fragmentOffset == offset
    && (w[0].lastFragment ==> |w| == 1)
    && Chained(w[1..], (offset + |w[0].fragmentData|) % 0x1_0000)
  }

  ghost predicate EndsWithLast(w: seq<IPFragment>) {
    w != [] && w[|w| - 1].lastFragment
  }

  lemma RemovedIsOne(w: seq<IPFragment>, i: nat)
    requires i < |w|
    ensures multiset(w) == multiset{w[i]} + multiset(RemoveAt(w, i))
  {
    assert w == w[..i] + [w[i]] + w[i + 1..];
  }

  /** One move: the record after it, and the fragments that move later. */
  lemma DrainStep(r: Record, i: nat)
    requires i == FirstAt(r.outOfOrder, r.currentOffset) < |r.outOfOrder|
    ensures var f := r.outOfOrder[i];
            var r' := Append(r.(outOfOrder := RemoveAt(r.outOfOrder, i)), f.fragmentData);
            && Drain(r) == (if f.lastFragment then (r', true) else Drain(r'))
            && Moved(r) == [f] + (if f.lastFragment then [] else Moved(r'))
            && Gathered(r') == Gathered(r) + f.fragmentData
            && multiset(r.outOfOrder) == multiset{f} + multiset(r'.outOfOrder)
  {
    RemovedIsOne(r.outOfOrder, i);
  }

  lemma {:induction false} DrainBuffer(r: Record)
    ensures Gathered(Drain(r).0) == Gathered(r) + Payloads(Moved(r))
    decreases |r.outOfOrder|
  {
    var i := FirstAt(r.outOfOrder, r.currentOffset);
    if i < |r.outOfOrder| {
      DrainStep(r, i);
      var f := r.outOfOrder[i];
      var r' := Append(r.(outOfOrder := RemoveAt(r.outOfOrder, i)), f.fragmentData);
      var rest := if f.lastFragment then [] else Moved(r');
      MovedNext(f, rest);
      Associative(Gathered(r), f.fragmentData, Payloads(rest));
      if !f.lastFragment {
        DrainBuffer(r');
      }
    }
  }

  lemma {:induction false} DrainSplits(r: Record)
    ensures multiset(r.outOfOrder) == multiset(Moved(r)) + multiset(Drain(r).0.outOfOrder)
    decreases |r.outOfOrder|
  {
    var i := FirstAt(r.outOfOrder, r.currentOffset);
    if i < |r.outOfOrder| {
      DrainStep(r, i);
      var f := r.outOfOrder[i];
      if !f.lastFragment {
        var r' := Append(r.(outOfOrder := RemoveAt(r.outOfOrder, i)), f.fragmentData);
        MovedNext(f, Moved(r'));
        DrainSplits(r');
      }
    }
  }

  lemma {:induction false} DrainOrder(r: Record)
    ensures Chained(Moved(r), r.currentOffset)
    ensures Drain(r).1 <==> EndsWithLast(Moved(r))
    ensures Drain(r).1 || FirstAt(Drain(r).0.outOfOrder, Drain(r).0.currentOffset) == |Drain(r).0.outOfOrder|
    decreases |r.outOfOrder|
  {
    var i := FirstAt(r.outOfOrder, r.currentOffset);
    if i < |r.outOfOrder| {
      DrainStep(r, i);
      var f := r.outOfOrder[i];
      var r' := Append(r.(outOfOrder := RemoveAt(r.outOfOrder, i)), f.fragmentData);
      MovedNext(f, if f.lastFragment then [] else Moved(r'));
      if !f.lastFragment {
        DrainOrder(r');
      }
    }
  }

  /**
    The drain on any record: the buffer grows by the moved payloads in order, the waiting fragments
    are split into moved and remaining ones, each moved one is in turn, and unless the last fragment
    was moved nothing that remains is next.
   */
  lemma {:induction false} DrainOnAnyRecord(r: Record)
    ensures var (r', done) := Drain(r);
            && Gathered(r') == Gathered(r) + Payloads(Moved(r))
            && multiset(r.outOfOrder) == multiset(Moved(r)) + multiset(r'.outOfOrder)
            && Chained(Moved(r), r.currentOffset)
            && (done <==> EndsWithLast(Moved(r)))
            && (done || forall f :: f in r'.outOfOrder ==> f.fragmentOffset != r'.currentOffset)
  {
    DrainBuffer(r);
    DrainSplits(r);
    DrainOrder(r);
  }

  lemma MovedNext(f: IPFragment, rest: seq<IPFragment>)
    ensures ([f] + rest)[1..] == rest
    ensures Payloads([f] + rest) == f.fragmentData + Payloads(rest)
    ensures multiset([f] + rest) == multiset{f} + multiset(rest)
    ensures EndsWithLast([f] + rest) <==> if rest == [] then f.lastFragment else EndsWithLast(rest)
  {
    assert ([f] + rest)[1..] == rest;
  }

  /** A fragment that is in turn, and one that has to wait. */
  predicate InTurn(r: Record, p: Piece) {
    if p.first then r.data.None? else p.offset != 0 && p.offset == r.currentOffset
  }

  predicate Waits(r: Record, p: Piece) {
    !p.first && p.offset > r.currentOffset
  }

  /** The waiting fragments that an arriving one brings into turn. */
  function Released(r: Record, p: Piece): seq<IPFragment> {
    if InTurn(r, p) && !p.last then Moved(Append(r, p.payload)) else []
  }

  /** A fragment in turn. */
  lemma AcceptInTurn(r: Record, p: Piece)
    requires InTurn(r, p)
    ensures var (r', done) := AppendAndDrain(r, p);
            && Accept(r, p) == (r', if done then Reassembled else if p.first then FirstFragment else Fragment)
            && Gathered(r') == Gathered(r) + (p.payload + Payloads(Released(r, p)))
            && multiset(r'.outOfOrder) + multiset(Released(r, p)) == multiset(r.outOfOrder)
            && (done <==> p.last || EndsWithLast(Released(r, p)))
  {
    var r1 := Append(r, p.payload);
    assert Gathered(r1) == Gathered(r) + p.payload;
    if p.last {
      assert p.payload + [] == p.payload;
    } else {
      DrainOnAnyRecord(r1);
      Associative(Gathered(r), p.payload, Payloads(Released(r, p)));
    }
  }

  /**
    Any fragment on any record. One in turn extends the buffer by its payload and by the payloads of
    those it brings into turn, which stop waiting; one beyond the buffer is called out of order and
    waits; any other changes nothing. The datagram is complete exactly when the last fragment was
    copied, malformed is exactly an offset of zero that is not the first fragment's, and what is left
    over is called the first fragment, if it is taken as that, or a fragment.
   */
  lemma AcceptOnAnyRecord(r: Record, p: Piece)
    ensures var (r', status) := Accept(r, p);
            && Gathered(r') == Gathered(r) + (if InTurn(r, p) then p.payload + Payloads(Released(r, p)) else [])
            && multiset(r'.outOfOrder) + multiset(Released(r, p)) ==
               multiset(r.outOfOrder) +
               (if Waits(r, p) then multiset{IPFragment(p.offset, p.last, p.payload)} else multiset{})
            && (!InTurn(r, p) && !Waits(r, p) ==> r' == r)
            && (status == Reassembled <==> InTurn(r, p) && (p.last || EndsWithLast(Released(r, p))))
            && (status == MalformedFragment <==> !p.first && p.offset == 0)
            && (status == OutOfOrderFragment <==> !p.first && p.offset > r.currentOffset)
            && (status == FirstFragment <==> p.first && r.data.None? && status != Reassembled)
            && (status == Fragment <==>
                  if p.first then r.data.Some? else 0 < p.offset <= r.currentOffset && status != Reassembled)
  {
    if InTurn(r, p) {
      AcceptInTurn(r, p);
    } else {
      assert Gathered(r) + [] == Gathered(r);
    }
  }

  /** From one record to the other the offset counter goes up with the buffer, modulo 2^16. */
  predicate CountsUp(r: Record, r': Record) {
    && |Gathered(r')| >= |Gathered(r)|
    && r'.currentOffset == (r.currentOffset + (|Gathered(r')| - |Gathered(r)|)) % 0x1_0000
  }

  lemma WrapTwice(a: nat, b: nat, c: nat)
    ensures ((a + b) % 0x1_0000 + c) % 0x1_0000 == (a + (b + c)) % 0x1_0000
  {
  }

  lemma CountsTwice(r: Record, r1: Record, r2: Record)
    requires CountsUp(r, r1) && CountsUp(r1, r2)
    ensures CountsUp(r, r2)
  {
    WrapTwice(r.currentOffset, |Gathered(r1)| - |Gathered(r)|, |Gathered(r2)| - |Gathered(r1)|);
  }

  lemma CountedStep(r: Record, i: nat) returns (r': Record, next: bool)
    requires i == FirstAt(r.outOfOrder, r.currentOffset) < |r.outOfOrder|
    ensures |r'.outOfOrder| < |r.outOfOrder| && CountsUp(r, r')
    ensures Drain(r).0 == if next then Drain(r').0 else r'
  {
    DrainStep(r, i);
    var f := r.outOfOrder[i];
    r', next := Append(r.(outOfOrder := RemoveAt(r.outOfOrder, i)), f.fragmentData), !f.lastFragment;
  }

  lemma {:induction false} DrainCounts(r: Record)
    ensures CountsUp(r, Drain(r).0)
    decreases |r.outOfOrder|
  {
    var i := FirstAt(r.outOfOrder, r.currentOffset);
    if i < |r.outOfOrder| {
      var r', next := CountedStep(r, i);
      if next {
        DrainCounts(r');
        CountsTwice(r, r', Drain(r').0);
      }
    }
  }

  /** The offset counter goes up by the bytes that the buffer gains, modulo 2^16. */
  lemma OffsetCounts(r: Record, p: Piece)
    ensures var r' := Accept(r, p).0;
            && |Gathered(r')| >= |Gathered(r)|
            && r'.currentOffset == (r.currentOffset + (|Gathered(r')| - |Gathered(r)|)) % 0x1_0000
  {
    if InTurn(r, p) {
      var r1 := Append(r, p.payload);
      DrainCounts(r1);
      assert CountsUp(r, r1);
      CountsTwice(r, r1, Drain(r1).0);
    }
  }

  /** What the caller of processPacket gets for a fragment. */
  datatype Outcome = Outcome(status: ReassemblyStatus, packet: Option<seq<Byte>>)

  /** One fragment against the record of its datagram, if there is one; done records go away. */
  function Feed(o: Option<Record>, p: Piece): (Option<Record>, Outcome) {
    var (r, status) := Accept(if o.Some? then o.value else FRESH, p);
    if status == Reassembled then (None, Outcome(Reassembled, Some(Gathered(r))))
    else (Some(r), Outcome(status, None))
  }

  datatype LocalEvent = Arrives(piece: Piece) | Forgotten

  /** The record of one datagram after its own history. */
  function LocalRun(history: seq<LocalEvent>): Option<Record> {
    if history == [] then None
    else
      match history[|history| - 1]
      case Arrives(p) => Feed(LocalRun(history[..|history| - 1]), p).0
      case Forgotten => None
  }
}
