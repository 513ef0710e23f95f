/**
  Many datagrams at once: what the engine does to one hash depends only on that hash's own
  arrivals and drops, and a datagram whose stretch of traffic stays within the capacity is
  reassembled no matter what else arrives in between.
 */
module ReassemblyRuns {
  import opened Wrappers
  import opened Bytes
  import opened Fragments
  import opened Datagram
  import opened Reassembly
  import Recency

  predicate IsFragmentFor(c: Call, hash: HashFunction, h: Hash) {
    c.Process? && c.packet.FragmentOf? && hash(c.packet.key) == h
  }

  /** The hash a call makes the engine drop for lack of room. */
  function Victim(e: Engine, c: Call, hash: HashFunction, cap: nat): Option<Hash> {
    if c.Process? && c.packet.FragmentOf? && hash(c.packet.key) !in e.records
    then Recency.Evicted(e.lru, hash(c.packet.key), cap)
    else None
  }

  predicate Forgets(e: Engine, c: Call, hash: HashFunction, cap: nat, h: Hash) {
    Victim(e, c, hash, cap) == Some(h) || (c.Remove? && hash(c.key) == h)
  }

  /** What one call means for hash h: its fragment arrives, its record is forgotten, or both. */
  function EventsFor(e: Engine, c: Call, hash: HashFunction, cap: nat, h: Hash): seq<LocalEvent> {
    if IsFragmentFor(c, hash, h) then
      if Forgets(e, c, hash, cap, h) then [Arrives(c.packet.piece), Forgotten] else [Arrives(c.packet.piece)]
    else if Forgets(e, c, hash, cap, h) then [Forgotten]
    else []
  }

  function History(calls: seq<Call>, hash: HashFunction, cap: nat, h: Hash): seq<LocalEvent> {
    if calls == [] then []
    else
      var before := calls[..|calls| - 1];
      History(before, hash, cap, h) + EventsFor(Run(before, hash, cap), calls[|calls| - 1], hash, cap, h)
  }

  function RecordOf(e: Engine, h: Hash): Option<Record> {
    if h in e.records then Some(e.records[h].record) else None
  }

  function Continue(o: Option<Record>, events: seq<LocalEvent>): Option<Record>
    decreases |events|
  {
    if events == [] then o
    else
      match events[0]
      case Arrives(p) => Continue(Feed(o, p).0, events[1..])
      case Forgotten => Continue(None, events[1..])
  }

  lemma {:induction false} LocalRunContinues(a: seq<LocalEvent>, b: seq<LocalEvent>)
    ensures LocalRun(a + b) == Continue(LocalRun(a), b)
    decreases |b|
  {
    if b == [] {
      assert a + b == a;
    } else {
      var a' := a + [b[0]];
      assert a'[..|a'| - 1] == a;
      assert a + b == a' + b[1..];
      LocalRunContinues(a', b[1..]);
    }
  }

  lemma ContinueBriefly(o: Option<Record>, p: Piece)
    ensures Continue(o, []) == o
    ensures Continue(o, [Forgotten]) == None
    ensures Continue(o, [Arrives(p)]) == Feed(o, p).0
    ensures Continue(o, [Arrives(p), Forgotten]) == None
  {
    assert [Arrives(p), Forgotten][1..] == [Forgotten];
  }

  function Answer(status: ReassemblyStatus, returned: Returned): Outcome {
    Outcome(status, if returned.Rebuilt? then Some(returned.payload) else None)
  }

  /** One call changes the record of h as its events say, and answers a fragment of h accordingly. */
  lemma StepIsLocal(e: Engine, c: Call, hash: HashFunction, cap: nat, h: Hash)
    requires Consistent(e, cap)
    ensures RecordOf(Step(e, c, hash, cap).0, h) == Continue(RecordOf(e, h), EventsFor(e, c, hash, cap, h))
    ensures IsFragmentFor(c, hash, h) ==>
              var out := Step(e, c, hash, cap).1;
              Answer(out.status, out.returned) == Feed(RecordOf(e, h), c.packet.piece).1
  {
    if c.Process? && c.packet.FragmentOf? {
      EvictedHash(e, hash(c.packet.key), cap);
      ContinueBriefly(RecordOf(e, h), c.packet.piece);
    } else {
      ContinueBriefly(RecordOf(e, h), Piece(true, 0, true, []));
    }
  }

  /**
    Independence: after any interleaving the record of h is the one its own history alone
    produces, where being dropped or removed is the only mark other traffic can leave; and the
    answer to a fragment of h is the one it would get on its own.
   */
  lemma {:induction false} Projection(calls: seq<Call>, hash: HashFunction, cap: nat, h: Hash)
    ensures RecordOf(Run(calls, hash, cap), h) == LocalRun(History(calls, hash, cap, h))
  {
    if calls != [] {
      var before := calls[..|calls| - 1];
      var e := Run(before, hash, cap);
      var c := calls[|calls| - 1];
      Projection(before, hash, cap, h);
      AlwaysConsistent(before, hash, cap);
      StepIsLocal(e, c, hash, cap, h);
      LocalRunContinues(History(before, hash, cap, h), EventsFor(e, c, hash, cap, h));
    }
  }

  lemma {:induction false} AnswerIsLocal(calls: seq<Call>, c: Call, hash: HashFunction, cap: nat, h: Hash)
    requires IsFragmentFor(c, hash, h)
    ensures var out := Step(Run(calls, hash, cap), c, hash, cap).1;
            Answer(out.status, out.returned) == Feed(LocalRun(History(calls, hash, cap, h)), c.packet.piece).1
  {
    Projection(calls, hash, cap, h);
    AlwaysConsistent(calls, hash, cap);
    StepIsLocal(Run(calls, hash, cap), c, hash, cap, h);
  }

  /** Once dropped or removed, h has no record, and its next fragment is treated as the first of a new one. */
  lemma {:induction false} ForgottenStartsAfresh(calls: seq<Call>, c: Call, hash: HashFunction, cap: nat, h: Hash)
    requires var t := History(calls, hash, cap, h); |t| > 0 && t[|t| - 1] == Forgotten
    requires IsFragmentFor(c, hash, h)
    ensures h !in Run(calls, hash, cap).records
    ensures var out := Step(Run(calls, hash, cap), c, hash, cap).1;
            Answer(out.status, out.returned) == Feed(None, c.packet.piece).1
  {
    Projection(calls, hash, cap, h);
    AnswerIsLocal(calls, c, hash, cap, h);
  }

  // ---------- the LRU list of a run ----------

  /** The calls on the LRU list that one call of the interface makes. */
  function ListOps(e: Engine, c: Call, hash: HashFunction, cap: nat): seq<Recency.Op<Hash>> {
    match c
    case Remove(key) => [Recency.Erase(hash(key))]
    case Process(pkt) =>
      if pkt.FragmentOf? then
        var h := hash(pkt.key);
        if ProcessPacket(e, pkt, hash, cap).1.status == Reassembled
        then [Recency.Use(h), Recency.Erase(h)]
        else [Recency.Use(h)]
      else []
  }

  function AllListOps(calls: seq<Call>, hash: HashFunction, cap: nat): seq<Recency.Op<Hash>> {
    if calls == [] then []
    else
      var before := calls[..|calls| - 1];
      AllListOps(before, hash, cap) + ListOps(Run(before, hash, cap), calls[|calls| - 1], hash, cap)
  }

  lemma RunSnoc(ops: seq<Recency.Op<Hash>>, op: Recency.Op<Hash>, cap: nat)
    ensures Recency.Run(ops + [op], cap) == Recency.Apply(Recency.Run(ops, cap), op, cap)
  {
    assert (ops + [op])[..|ops|] == ops;
  }

  lemma RunSnocSnoc(ops: seq<Recency.Op<Hash>>, u: Recency.Op<Hash>, x: Recency.Op<Hash>, cap: nat)
    ensures Recency.Run(ops + [u, x], cap) == Recency.Apply(Recency.Apply(Recency.Run(ops, cap), u, cap), x, cap)
  {
    RunSnoc(ops, u, cap);
    RunSnoc(ops + [u], x, cap);
    assert ops + [u, x] == (ops + [u]) + [x];
  }

  /** What a fragment does to the list. */
  lemma FragmentList(e: Engine, key: PacketKey, p: Piece, hash: HashFunction, cap: nat)
    ensures var (e', out) := Step(e, Process(FragmentOf(key, p)), hash, cap);
            var used := Recency.Put(e.lru, hash(key), cap);
            e'.lru == if out.status == Reassembled then Recency.Without(used, hash(key)) else used
  {
    assert FindOrAdd(e, hash(key), key, cap).0.lru == Recency.Put(e.lru, hash(key), cap);
  }

  lemma FragmentListOps(e: Engine, key: PacketKey, p: Piece, hash: HashFunction, cap: nat, ops: seq<Recency.Op<Hash>>)
    requires e.lru == Recency.Run(ops, cap)
    ensures var c := Process(FragmentOf(key, p));
            Step(e, c, hash, cap).0.lru == Recency.Run(ops + ListOps(e, c, hash, cap), cap)
  {
    var u := Recency.Use(hash(key));
    var x := Recency.Erase(hash(key));
    RunSnoc(ops, u, cap);
    RunSnocSnoc(ops, u, x, cap);
    FragmentList(e, key, p, hash, cap);
  }

  lemma RemoveListOps(e: Engine, key: PacketKey, hash: HashFunction, cap: nat, ops: seq<Recency.Op<Hash>>)
    requires e.lru == Recency.Run(ops, cap) && Consistent(e, cap)
    ensures RemovePacket(e, key, hash).lru == Recency.Run(ops + [Recency.Erase(hash(key))], cap)
  {
    RunSnoc(ops, Recency.Erase(hash(key)), cap);
    if hash(key) !in e.records {
      assert hash(key) !in Recency.Elems(e.lru);
      Recency.WithoutFacts(e.lru, hash(key));
    }
  }

  /** The engine's list is the LRU list after those calls, so its promises apply. */
  lemma {:induction false} ListIsRecencyRun(calls: seq<Call>, hash: HashFunction, cap: nat)
    ensures Run(calls, hash, cap).lru == Recency.Run(AllListOps(calls, hash, cap), cap)
  {
    if calls != [] {
      var before := calls[..|calls| - 1];
      var e := Run(before, hash, cap);
      var c := calls[|calls| - 1];
      ListIsRecencyRun(before, hash, cap);
      AlwaysConsistent(before, hash, cap);
      var ops := AllListOps(before, hash, cap);
      match c {
        case Remove(key) =>
          RemoveListOps(e, key, hash, cap, ops);
        case Process(pkt) =>
          if pkt.FragmentOf? {
            FragmentListOps(e, pkt.key, pkt.piece, hash, cap, ops);
          } else {
            assert ops + [] == ops;
          }
      }
    }
  }

  // ---------- when room is made ----------

  lemma LastOpUnique(ops: seq<Recency.Op<Hash>>, h: Hash, i: int)
    requires -1 <= i < |ops| && (i >= 0 ==> ops[i].elem == h)
    requires forall j :: i < j < |ops| ==> ops[j].elem != h
    ensures Recency.LastOp(ops, h) == i
  {
    var j := Recency.LastOp(ops, h);
    assert j <= i;
    assert i <= j;
  }

  lemma LastOpSnoc(ops: seq<Recency.Op<Hash>>, op: Recency.Op<Hash>, h: Hash)
    requires op.elem != h
    ensures Recency.LastOp(ops + [op], h) == Recency.LastOp(ops, h)
    ensures Recency.Known(ops + [op], h) <==> Recency.Known(ops, h)
  {
    LastOpUnique(ops + [op], h, Recency.LastOp(ops, h));
  }

  /** A new hash drops exactly the one that its `put` takes off the list. */
  lemma VictimLeavesTheList(e: Engine, c: Call, hash: HashFunction, cap: nat, h: Hash)
    requires Consistent(e, cap) && cap > 0
    requires c.Process? && c.packet.FragmentOf? && hash(c.packet.key) != h
    ensures Victim(e, c, hash, cap) == Some(h) <==>
              h in e.records && h !in Recency.Put(e.lru, hash(c.packet.key), cap)
  {
    var x := hash(c.packet.key);
    EvictedHash(e, x, cap);
    Recency.PutCharacterised(e.lru, x, cap);
    assert h in e.lru <==> h in Recency.Elems(e.lru);
    assert x in e.lru <==> x in Recency.Elems(e.lru);
    assert h in Recency.Put(e.lru, x, cap) <==> h in Recency.Elems(Recency.Put(e.lru, x, cap));
  }

  /**
    A fragment of another datagram drops the record of h exactly when with it the capacity is reached by
    hashes that were used after h was and are still listed.
   */
  lemma DropsExactly(calls: seq<Call>, c: Call, hash: HashFunction, cap: nat, h: Hash)
    requires cap > 0 && c.Process? && c.packet.FragmentOf? && hash(c.packet.key) != h
    ensures var ops := AllListOps(calls, hash, cap);
            Victim(Run(calls, hash, cap), c, hash, cap) == Some(h) <==>
              && h in Run(calls, hash, cap).records
              && |Recency.KnownAfter(ops + [Recency.Use(hash(c.packet.key))], Recency.LastOp(ops, h))| >= cap
  {
    var e := Run(calls, hash, cap);
    var ops := AllListOps(calls, hash, cap);
    var op := Recency.Use(hash(c.packet.key));
    AlwaysConsistent(calls, hash, cap);
    ListIsRecencyRun(calls, hash, cap);
    VictimLeavesTheList(e, c, hash, cap, h);
    RunSnoc(ops, op, cap);
    LastOpSnoc(ops, op, h);
    Recency.Retention(ops, h, cap);
    Recency.Retention(ops + [op], h, cap);
    assert (ops + [op])[..|ops|] == ops;
    Recency.NeverCrowdedSnoc(ops + [op], Recency.LastOp(ops, h), cap);
    assert h in e.records <==> h in Recency.Elems(e.lru);
  }

  // ---------- a datagram in traffic ----------

  /** The fragments of h in some calls, in order. */
  function ArrivalsFor(calls: seq<Call>, hash: HashFunction, h: Hash): seq<LocalEvent> {
    if calls == [] then []
    else
      var c := calls[|calls| - 1];
      ArrivalsFor(calls[..|calls| - 1], hash, h) + if IsFragmentFor(c, hash, h) then [Arrives(c.packet.piece)] else []
  }

  /** No call of the stretch makes the engine forget h. */
  ghost predicate Undisturbed(before: seq<Call>, stretch: seq<Call>, hash: HashFunction, cap: nat, h: Hash) {
    stretch == [] ||
    (var s, c := stretch[..|stretch| - 1], stretch[|stretch| - 1];
     Undisturbed(before, s, hash, cap, h) && !Forgets(Run(before + s, hash, cap), c, hash, cap, h))
  }

  lemma StretchNext(before: seq<Call>, s: seq<Call>, c: Call, hash: HashFunction, cap: nat, h: Hash)
    ensures before + (s + [c]) == before + s + [c]
    ensures Run(before + (s + [c]), hash, cap) == Step(Run(before + s, hash, cap), c, hash, cap).0
    ensures Undisturbed(before, s + [c], hash, cap, h) <==>
              Undisturbed(before, s, hash, cap, h) && !Forgets(Run(before + s, hash, cap), c, hash, cap, h)
  {
    var calls := before + s;
    assert before + (s + [c]) == calls + [c];
    assert (calls + [c])[..|calls|] == calls;
    assert (s + [c])[..|s|] == s;
  }

  lemma HistoryNext(calls: seq<Call>, c: Call, hash: HashFunction, cap: nat, h: Hash)
    ensures History(calls + [c], hash, cap, h) ==
            History(calls, hash, cap, h) + EventsFor(Run(calls, hash, cap), c, hash, cap, h)
  {
    assert (calls + [c])[..|calls|] == calls;
  }

  lemma ArrivalsNext(s: seq<Call>, c: Call, hash: HashFunction, h: Hash)
    ensures ArrivalsFor(s + [c], hash, h) == ArrivalsFor(s, hash, h) + ArrivalsFor([c], hash, h)
    ensures ArrivalsFor([c], hash, h) == if IsFragmentFor(c, hash, h) then [Arrives(c.packet.piece)] else []
  {
    assert (s + [c])[..|s|] == s;
    assert ArrivalsFor([c][..0], hash, h) == [];
  }

  /** Then its history is that before the stretch and the fragments in it. */
  lemma {:induction false} UndisturbedHistory(before: seq<Call>, stretch: seq<Call>, hash: HashFunction,
                                              cap: nat, h: Hash)
    requires Undisturbed(before, stretch, hash, cap, h)
    ensures History(before + stretch, hash, cap, h) == History(before, hash, cap, h) + ArrivalsFor(stretch, hash, h)
    decreases |stretch|
  {
    if stretch == [] {
      assert before + stretch == before;
    } else {
      var s, c := stretch[..|stretch| - 1], stretch[|stretch| - 1];
      assert stretch == s + [c];
      StretchNext(before, s, c, hash, cap, h);
      UndisturbedHistory(before, s, hash, cap, h);
      HistoryNext(before + s, c, hash, cap, h);
      ArrivalsNext(s, c, hash, h);
      assert EventsFor(Run(before + s, hash, cap), c, hash, cap, h) == ArrivalsFor([c], hash, h);
      Associative(History(before, hash, cap, h), ArrivalsFor(s, hash, h), ArrivalsFor([c], hash, h));
    }
  }

  lemma LocalRunFromNothing(a: seq<LocalEvent>, b: seq<LocalEvent>)
    requires LocalRun(a) == None
    ensures LocalRun(a + b) == LocalRun(b)
  {
    LocalRunContinues(a, b);
    LocalRunContinues([], b);
    assert [] + b == b;
  }

  /** Where h starts with no record, it then has the one that the fragments in the stretch produce. */
  lemma RecordInTraffic(before: seq<Call>, stretch: seq<Call>, hash: HashFunction, cap: nat, h: Hash)
    requires h !in Run(before, hash, cap).records && Undisturbed(before, stretch, hash, cap, h)
    ensures RecordOf(Run(before + stretch, hash, cap), h) == LocalRun(ArrivalsFor(stretch, hash, h))
    ensures LocalRun(History(before + stretch, hash, cap, h)) == LocalRun(ArrivalsFor(stretch, hash, h))
  {
    UndisturbedHistory(before, stretch, hash, cap, h);
    Projection(before + stretch, hash, cap, h);
    Projection(before, hash, cap, h);
    LocalRunFromNothing(History(before, hash, cap, h), ArrivalsFor(stretch, hash, h));
  }

  lemma LastOfArrivals(s: seq<Call>, c: Call, hash: HashFunction, h: Hash,
                       d: seq<Byte>, cuts: seq<nat>, prior: seq<nat>, i: nat)
    requires IsFragmentFor(c, hash, h) && IsCut(d, cuts) && InRange(prior + [i], |cuts|)
    requires ArrivalsFor(s + [c], hash, h) == Arrivals(d, cuts, prior + [i])
    ensures i < |cuts| && InRange(prior, |cuts|)
    ensures ArrivalsFor(s, hash, h) == Arrivals(d, cuts, prior)
    ensures c.packet.piece == PieceOf(d, cuts, i)
  {
    assert (s + [c])[..|s|] == s;
    assert (prior + [i])[|prior|] == i;
    forall k | 0 <= k < |prior|
      ensures prior[k] < |cuts|
    {
      assert (prior + [i])[k] == prior[k];
    }
    var all := ArrivalsFor(s + [c], hash, h);
    assert all == ArrivalsFor(s, hash, h) + [Arrives(c.packet.piece)];
    assert all == Arrivals(d, cuts, prior) + [Arrives(PieceOf(d, cuts, i))];
    assert all[|all| - 1] == Arrives(c.packet.piece);
    assert all[..|all| - 1] == ArrivalsFor(s, hash, h);
  }

  /**
    A datagram that the engine never forgets. Take any calls `before` after which h has no record, and
    any stretch of calls in which h is never dropped or removed, and that holds, in between anything
    else, fragments of a datagram d in any order, repeated at will, up to the first that completes it.
    Every fragment of d is answered as if d were alone, and the completing one REASSEMBLED with d.
   */
  lemma AnsweredUnlessForgotten(before: seq<Call>, stretch: seq<Call>, hash: HashFunction, cap: nat, h: Hash,
                                d: seq<Byte>, cuts: seq<nat>, arrivals: seq<nat>)
    requires h !in Run(before, hash, cap).records
    requires |stretch| > 0 && IsFragmentFor(stretch[|stretch| - 1], hash, h)
    requires Undisturbed(before, stretch[..|stretch| - 1], hash, cap, h)
    requires IsCut(d, cuts) && |arrivals| > 0 && InRange(arrivals, |cuts|)
    requires !Complete(arrivals[..|arrivals| - 1], |cuts|)
    requires ArrivalsFor(stretch, hash, h) == Arrivals(d, cuts, arrivals)
    ensures var s := before + stretch[..|stretch| - 1];
            var out := Step(Run(s, hash, cap), stretch[|stretch| - 1], hash, cap).1;
            && out.status == ExpectedStatus(Seen(arrivals[..|arrivals| - 1]), arrivals[|arrivals| - 1], |cuts|)
            && (out.status == Reassembled <==> Complete(arrivals, |cuts|))
            && (out.status == Reassembled ==> out.returned == Rebuilt(d))
  {
    var s, c := stretch[..|stretch| - 1], stretch[|stretch| - 1];
    var prior := arrivals[..|arrivals| - 1];
    assert stretch == s + [c];
    assert arrivals == prior + [arrivals[|arrivals| - 1]];
    LastOfArrivals(s, c, hash, h, d, cuts, prior, arrivals[|arrivals| - 1]);
    AnswerIsLocal(before + s, c, hash, cap, h);
    RecordInTraffic(before, s, hash, cap, h);
    LastArrival(d, cuts, arrivals);
  }

  // ---------- traffic that leaves a datagram alone ----------

  ghost predicate NeverRemoved(calls: seq<Call>, hash: HashFunction, h: Hash) {
    forall c :: c in calls ==> !(c.Remove? && hash(c.key) == h)
  }

  ghost function HashOf(c: Call, hash: HashFunction): set<Hash> {
    if c.Process? && c.packet.FragmentOf? then {hash(c.packet.key)} else {}
  }

  /** The other hashes with fragments since the latest fragment of h; none before there is one of h. */
  ghost function Since(calls: seq<Call>, hash: HashFunction, h: Hash): set<Hash> {
    if calls == [] then {}
    else
      var s, c := calls[..|calls| - 1], calls[|calls| - 1];
      if IsFragmentFor(c, hash, h) || ArrivalsFor(s, hash, h) == [] then {} else Since(s, hash, h) + HashOf(c, hash)
  }

  /** Behind each fragment of h fewer than `cap` other hashes come before the next one. */
  ghost predicate Close(calls: seq<Call>, hash: HashFunction, cap: nat, h: Hash) {
    calls == [] || (Close(calls[..|calls| - 1], hash, cap, h) && |Since(calls, hash, h)| < cap)
  }

  /** What a stretch leaves: h is listed only if it had a fragment, and behind no more than the hashes since. */
  ghost predicate KeepsUp(e: Engine, stretch: seq<Call>, hash: HashFunction, h: Hash) {
    h in e.lru ==> ArrivalsFor(stretch, hash, h) != [] && Recency.Ahead(e.lru, h) <= Since(stretch, hash, h)
  }

  lemma OwnFragment(e: Engine, c: Call, hash: HashFunction, cap: nat, h: Hash)
    requires Consistent(e, cap) && cap > 0 && IsFragmentFor(c, hash, h)
    ensures !Forgets(e, c, hash, cap, h)
    ensures h in Step(e, c, hash, cap).0.lru ==> Recency.Ahead(Step(e, c, hash, cap).0.lru, h) == {}
  {
    EvictedHash(e, h, cap);
    FragmentList(e, c.packet.key, c.packet.piece, hash, cap);
    Recency.PutCharacterised(e.lru, h, cap);
    Recency.WithoutFacts(Recency.Put(e.lru, h, cap), h);
  }

  lemma OtherFragment(e: Engine, c: Call, hash: HashFunction, cap: nat, h: Hash)
    requires Consistent(e, cap) && cap > 0
    requires c.Process? && c.packet.FragmentOf? && hash(c.packet.key) != h
    requires h in e.lru ==> |Recency.Ahead(e.lru, h) + {hash(c.packet.key)}| < cap
    ensures !Forgets(e, c, hash, cap, h)
    ensures var l := Step(e, c, hash, cap).0.lru;
            h in l ==> h in e.lru && Recency.Ahead(l, h) <= Recency.Ahead(e.lru, h) + {hash(c.packet.key)}
  {
    var x := hash(c.packet.key);
    var p := Recency.Put(e.lru, x, cap);
    VictimLeavesTheList(e, c, hash, cap, h);
    FragmentList(e, c.packet.key, c.packet.piece, hash, cap);
    Recency.PutFacts(e.lru, x, cap);
    Recency.WithoutFacts(p, x);
    Recency.AheadWithout(p, h, x);
    if h in e.lru {
      Recency.PutAhead(e.lru, h, x, cap);
      Recency.TouchAhead(e.lru, h, x);
    } else {
      assert h !in Recency.Elems(e.lru);
      Recency.WithoutFacts(e.lru, x);
    }
  }

  lemma OtherCall(e: Engine, c: Call, hash: HashFunction, cap: nat, h: Hash)
    requires Consistent(e, cap) && !(c.Process? && c.packet.FragmentOf?) && !(c.Remove? && hash(c.key) == h)
    ensures !Forgets(e, c, hash, cap, h)
    ensures var l := Step(e, c, hash, cap).0.lru;
            h in l ==> h in e.lru && Recency.Ahead(l, h) <= Recency.Ahead(e.lru, h)
  {
    if c.Remove? {
      Recency.WithoutFacts(e.lru, hash(c.key));
      Recency.AheadWithout(e.lru, h, hash(c.key));
    }
  }

  lemma KeepsUpNext(e: Engine, s: seq<Call>, c: Call, hash: HashFunction, cap: nat, h: Hash)
    requires Consistent(e, cap) && KeepsUp(e, s, hash, h) && !(c.Remove? && hash(c.key) == h)
    requires |Since(s + [c], hash, h)| < cap
    ensures !Forgets(e, c, hash, cap, h)
    ensures KeepsUp(Step(e, c, hash, cap).0, s + [c], hash, h)
  {
    assert (s + [c])[..|s|] == s;
    ArrivalsNext(s, c, hash, h);
    if IsFragmentFor(c, hash, h) {
      OwnFragment(e, c, hash, cap, h);
    } else if c.Process? && c.packet.FragmentOf? {
      if h in e.lru {
        Recency.SubsetSize(Recency.Ahead(e.lru, h) + {hash(c.packet.key)}, Since(s + [c], hash, h));
      }
      OtherFragment(e, c, hash, cap, h);
    } else {
      OtherCall(e, c, hash, cap, h);
    }
  }

  /** Such traffic never makes the engine forget h. */
  lemma {:induction false} CloseIsUndisturbed(before: seq<Call>, stretch: seq<Call>, hash: HashFunction,
                                              cap: nat, h: Hash)
    requires h !in Run(before, hash, cap).records
    requires NeverRemoved(stretch, hash, h) && Close(stretch, hash, cap, h)
    ensures Undisturbed(before, stretch, hash, cap, h)
    ensures KeepsUp(Run(before + stretch, hash, cap), stretch, hash, h)
    decreases |stretch|
  {
    if stretch == [] {
      assert before + stretch == before;
      AlwaysConsistent(before, hash, cap);
      assert h !in Recency.Elems(Run(before, hash, cap).lru);
    } else {
      var s, c := stretch[..|stretch| - 1], stretch[|stretch| - 1];
      assert stretch == s + [c];
      assert c in stretch;
      CloseIsUndisturbed(before, s, hash, cap, h);
      AlwaysConsistent(before + s, hash, cap);
      KeepsUpNext(Run(before + s, hash, cap), s, c, hash, cap, h);
      StretchNext(before, s, c, hash, cap, h);
    }
  }

  ghost function HashesIn(calls: seq<Call>, hash: HashFunction): set<Hash> {
    set c | c in calls && c.Process? && c.packet.FragmentOf? :: hash(c.packet.key)
  }

  lemma {:induction false} SinceIsMentioned(calls: seq<Call>, hash: HashFunction, h: Hash)
    ensures Since(calls, hash, h) <= HashesIn(calls, hash) - {h}
    ensures ArrivalsFor(calls, hash, h) != [] ==> h in HashesIn(calls, hash)
  {
    if calls != [] {
      var s, c := calls[..|calls| - 1], calls[|calls| - 1];
      assert calls == s + [c];
      SinceIsMentioned(s, hash, h);
      assert HashesIn(calls, hash) == HashesIn(s, hash) + HashOf(c, hash);
    }
  }

  /** In particular, calls are close when they mention at most `cap` hashes in all. */
  lemma {:induction false} FewHashesAreClose(calls: seq<Call>, hash: HashFunction, cap: nat, h: Hash)
    requires cap > 0 && |HashesIn(calls, hash)| <= cap
    ensures Close(calls, hash, cap, h)
  {
    if calls != [] {
      var s, c := calls[..|calls| - 1], calls[|calls| - 1];
      assert calls == s + [c];
      assert HashesIn(s, hash) <= HashesIn(calls, hash);
      Recency.SubsetSize(HashesIn(s, hash), HashesIn(calls, hash));
      FewHashesAreClose(s, hash, cap, h);
      SinceIsMentioned(calls, hash, h);
      if h in HashesIn(calls, hash) {
        Recency.SubsetSize(Since(calls, hash, h), HashesIn(calls, hash) - {h});
      } else {
        assert Since(calls, hash, h) == {} by {
          ArrivalsNext(s, c, hash, h);
        }
      }
    }
  }

  /**
    Reassembly in traffic. Take any calls `before` after which h has no record, and any stretch of
    calls that removes nothing of h, lets fewer than `cap` other hashes come between one fragment of h
    and the next, and holds fragments of a datagram d in any order, repeated at will, up to the first
    that completes it. Then h is never forgotten, every fragment of d is answered as if d were alone,
    and the completing one is answered REASSEMBLED with d.
   */
  lemma ReassembledInTraffic(before: seq<Call>, stretch: seq<Call>, hash: HashFunction, cap: nat, h: Hash,
                             d: seq<Byte>, cuts: seq<nat>, arrivals: seq<nat>)
    requires h !in Run(before, hash, cap).records
    requires NeverRemoved(stretch, hash, h) && Close(stretch, hash, cap, h)
    requires |stretch| > 0 && IsFragmentFor(stretch[|stretch| - 1], hash, h)
    requires IsCut(d, cuts) && |arrivals| > 0 && InRange(arrivals, |cuts|)
    requires !Complete(arrivals[..|arrivals| - 1], |cuts|)
    requires ArrivalsFor(stretch, hash, h) == Arrivals(d, cuts, arrivals)
    ensures Undisturbed(before, stretch, hash, cap, h)
    ensures var s := before + stretch[..|stretch| - 1];
            var out := Step(Run(s, hash, cap), stretch[|stretch| - 1], hash, cap).1;
            && out.status == ExpectedStatus(Seen(arrivals[..|arrivals| - 1]), arrivals[|arrivals| - 1], |cuts|)
            && (out.status == Reassembled <==> Complete(arrivals, |cuts|))
            && (out.status == Reassembled ==> out.returned == Rebuilt(d))
  {
    CloseIsUndisturbed(before, stretch, hash, cap, h);
    AnsweredUnlessForgotten(before, stretch, hash, cap, h, d, cuts, arrivals);
  }

  /**
    The partially reassembled packet in traffic that never makes the engine forget it: exactly the
    datagram up to its first missing fragment, and no packet while the first fragment is missing.
   */
  lemma CurrentPacketInTraffic(before: seq<Call>, stretch: seq<Call>, hash: HashFunction, cap: nat, key: PacketKey,
                               d: seq<Byte>, cuts: seq<nat>, arrivals: seq<nat>)
    requires hash(key) !in Run(before, hash, cap).records
    requires Undisturbed(before, stretch, hash, cap, hash(key))
    requires IsCut(d, cuts) && InRange(arrivals, |cuts|) && !Complete(arrivals, |cuts|)
    requires ArrivalsFor(stretch, hash, hash(key)) == Arrivals(d, cuts, arrivals)
    ensures var q := Filled(Seen(arrivals), |cuts|);
            && q < |cuts|
            && GetCurrentPacket(Run(before + stretch, hash, cap), key, hash) ==
               if q == 0 then None else Some(d[..cuts[q]])
  {
    RecordInTraffic(before, stretch, hash, cap, hash(key));
    PartialRun(d, cuts, arrivals);
    FilledIsComplete(arrivals, |cuts|);
    if arrivals == [] {
      assert 0 !in Seen(arrivals);
    }
  }
}
