/**
  IPReassembly (IPReassembly.h) as an object: a map of records updated in place and the LRU list
  that bounds it. Every method is proved to change the object's abstract state as module
  Reassembly says, so the theorems of Reassembly and ReassemblyRuns are about this object.
 */
module IPReassembly {
  import opened Wrappers
  import opened Bytes
  import opened Fragments
  import opened Reassembly
  import opened LruList
  import Recency

  /** struct IPFragmentData */
  class FragmentData {
    const packetKey: PacketKey
    var currentOffset: Offset
    var data: Option<seq<Byte>>
    var outOfOrderFragments: seq<IPFragment>

    constructor (packetKey: PacketKey)
      ensures this.packetKey == packetKey && Value() == FRESH
    {
      this.packetKey := packetKey;
      currentOffset, data, outOfOrderFragments := 0, None, [];
    }

    ghost function Value(): Record
      reads this
    {
      Record(currentOffset, data, outOfOrderFragments)
    }

    method AppendData(payload: seq<Byte>)
      modifies this
      ensures Value() == Append(old(Value()), payload)
    {
      data := Some((if data.Some? then data.value else []) + payload);
      currentOffset := (currentOffset + |payload|) % OFFSET_SPAN;
    }

    /** Copies waiting fragments as long as the next one is there; true after the last one. */
    method MatchOutOfOrderFragments() returns (foundLast: bool)
      modifies this
      ensures (Value(), foundLast) == Drain(old(Value()))
    {
      foundLast := false;
      var searching := true;
      while searching && !foundLast
        invariant searching && !foundLast ==> Drain(Value()) == Drain(old(Value()))
        invariant !(searching && !foundLast) ==> (Value(), foundLast) == Drain(old(Value()))
        decreases |outOfOrderFragments|, searching
      {
        var index := 0;
        while index < |outOfOrderFragments| && outOfOrderFragments[index].fragmentOffset != currentOffset
          invariant index <= |outOfOrderFragments|
          invariant forall j :: 0 <= j < index ==> outOfOrderFragments[j].fragmentOffset != currentOffset
        {
          index := index + 1;
        }
        assert index == FirstAt(outOfOrderFragments, currentOffset);
        if index < |outOfOrderFragments| {
          var frag := outOfOrderFragments[index];
          outOfOrderFragments := RemoveAt(outOfOrderFragments, index);
          AppendData(frag.fragmentData);
          foundLast := frag.lastFragment;
        } else {
          searching := false;
        }
      }
    }

    /** The fragment in turn: its data is copied, then what waited for it. */
    method AppendInOrder(p: Piece) returns (gotLast: bool)
      modifies this
      ensures (Value(), gotLast) == AppendAndDrain(old(Value()), p)
    {
      AppendData(p.payload);
      gotLast := p.last;
      if !gotLast {
        gotLast := MatchOutOfOrderFragments();
      }
    }

    method AcceptFragment(p: Piece) returns (status: ReassemblyStatus)
      modifies this
      ensures (Value(), status) == Accept(old(Value()), p)
    {
      status := Fragment;
      if p.first {
        if data.None? {
          var gotLast := AppendInOrder(p);
          status := if gotLast then Reassembled else FirstFragment;
        }
      } else if p.offset == 0 {
        status := MalformedFragment;
      } else if p.offset == currentOffset {
        var gotLast := AppendInOrder(p);
        status := if gotLast then Reassembled else Fragment;
      } else if p.offset > currentOffset {
        outOfOrderFragments := outOfOrderFragments + [IPFragment(p.offset, p.last, p.payload)];
        status := OutOfOrderFragment;
      }
    }
  }

  /** What the caller of processPacket gets. */
  datatype Answer = Answer(status: ReassemblyStatus, packet: Returned)

  function AnswerTo(c: Call, out: Response): Option<Answer> {
    if c.Process? then Some(Answer(out.status, out.returned)) else None
  }

  /** The keys the clean callback gets in a run. */
  function Cleaned(calls: seq<Call>, hash: HashFunction, cap: nat): seq<PacketKey> {
    if calls == [] then []
    else
      var before := calls[..|calls| - 1];
      var out := Step(Run(before, hash, cap), calls[|calls| - 1], hash, cap).1;
      Cleaned(before, hash, cap) + if out.cleaned.Some? then [out.cleaned.value] else []
  }

  /** The answers to the calls of a run. */
  function Answers(calls: seq<Call>, hash: HashFunction, cap: nat): seq<Option<Answer>> {
    if calls == [] then []
    else
      var before, c := calls[..|calls| - 1], calls[|calls| - 1];
      Answers(before, hash, cap) + [AnswerTo(c, Step(Run(before, hash, cap), c, hash, cap).1)]
  }

  lemma RunNext(calls: seq<Call>, c: Call, hash: HashFunction, cap: nat)
    ensures var (e, out) := Step(Run(calls, hash, cap), c, hash, cap);
            && Run(calls + [c], hash, cap) == e
            && Cleaned(calls + [c], hash, cap) ==
               Cleaned(calls, hash, cap) + (if out.cleaned.Some? then [out.cleaned.value] else [])
            && Answers(calls + [c], hash, cap) == Answers(calls, hash, cap) + [AnswerTo(c, out)]
  {
    assert (calls + [c])[..|calls|] == calls;
  }

  lemma ForgetStored(e: Engine, h: Hash, r: Record)
    ensures Forget(StoreRecord(e, h, r), h) == Forget(e, h)
  {
    assert StoreRecord(e, h, r).records - {h} == e.records - {h};
  }

  class Reassembler {
    const hash: HashFunction
    const packetLRU: LruList<Hash>
    var fragmentMap: map<Hash, FragmentData>
    /** The keys the clean callback was called with, in order. */
    var cleanCalls: seq<PacketKey>
    /** The contents of the record map. */
    ghost var records: map<Hash, Entry>
    /** Every record object the map has held. */
    ghost var Repr: set<FragmentData>

    /** Each hash has its own record object, whose key has that hash; `records` says what is in it. */
    ghost predicate Mirrored()
      reads this, Repr
    {
      && records.Keys == fragmentMap.Keys
      && (forall h :: h in fragmentMap ==> fragmentMap[h] in Repr)
      && (forall h :: h in fragmentMap ==>
            records[h] == Entry(fragmentMap[h].packetKey, fragmentMap[h].Value()))
      && (forall h :: h in fragmentMap ==> hash(fragmentMap[h].packetKey) == h)
    }

    ghost function State(): Engine
      reads this, packetLRU
    {
      Engine(packetLRU.contents, records)
    }

    ghost predicate Valid()
      reads this, packetLRU, packetLRU.Repr, Repr
    {
      packetLRU.Valid() && Mirrored() && Consistent(State(), packetLRU.maxSize)
    }

    constructor (hash: HashFunction, maxPacketsToStore: nat)
      ensures Valid() && State() == EMPTY && cleanCalls == []
      ensures this.hash == hash && packetLRU.maxSize == maxPacketsToStore
      ensures fresh(packetLRU) && packetLRU.Repr == {} && Repr == {}
    {
      this.hash := hash;
      packetLRU := new LruList<Hash>(maxPacketsToStore);
      fragmentMap := map[];
      cleanCalls := [];
      records := map[];
      Repr := {};
    }

    /** Puts the record in the map; when that exceeds the capacity, drops the least recently used one. */
    method AddNewFragment(h: Hash, fragData: FragmentData)
      requires packetLRU.Valid() && Mirrored()
      requires h !in fragmentMap && fragData.Value() == FRESH && hash(fragData.packetKey) == h
      modifies this, packetLRU, packetLRU.Repr
      ensures packetLRU.Valid() && Mirrored()
      ensures var (e, cleaned) := Reassembly.AddNewFragment(old(State()), h, fragData.packetKey, packetLRU.maxSize);
              State() == e && cleanCalls == old(cleanCalls) + if cleaned.Some? then [cleaned.value] else []
      ensures h in fragmentMap ==> fragmentMap[h] == fragData
      ensures Repr == old(Repr) + {fragData}
      ensures fresh(packetLRU.Repr - old(packetLRU.Repr))
    {
      Insert(h, fragData);
      PutAndClean(h);
    }

    /** Marks h as just used; an element the list drops takes its record along. */
    method PutAndClean(h: Hash)
      requires packetLRU.Valid() && Mirrored()
      modifies this`fragmentMap, this`records, this`cleanCalls, packetLRU, packetLRU.Repr
      ensures packetLRU.Valid() && Mirrored()
      ensures var evicted := Recency.Evicted(old(packetLRU.contents), h, packetLRU.maxSize);
              && packetLRU.contents == Recency.Put(old(packetLRU.contents), h, packetLRU.maxSize)
              && records == Drop(old(records), evicted)
              && cleanCalls == old(cleanCalls) + if evicted.Some? && evicted.value in old(records)
                                                 then [old(records)[evicted.value].packetKey] else []
      ensures forall g :: g in fragmentMap ==> g in old(fragmentMap) && fragmentMap[g] == old(fragmentMap)[g]
      ensures fresh(packetLRU.Repr - old(packetLRU.Repr))
    {
      var code, packetRemoved := packetLRU.Put(h);
      if code == 1 {
        Clean(packetRemoved.value);
      }
    }

    method Insert(h: Hash, fragData: FragmentData)
      requires Mirrored() && h !in fragmentMap && fragData.Value() == FRESH && hash(fragData.packetKey) == h
      modifies this`fragmentMap, this`records, this`Repr
      ensures Mirrored() && fragmentMap == old(fragmentMap)[h := fragData] && Repr == old(Repr) + {fragData}
      ensures records == old(records)[h := Entry(fragData.packetKey, FRESH)]
    {
      fragmentMap := fragmentMap[h := fragData];
      records := records[h := Entry(fragData.packetKey, FRESH)];
      Repr := Repr + {fragData};
    }

    /** Deletes a dropped record and calls the clean callback with its key. */
    method Clean(removed: Hash)
      requires Mirrored()
      modifies this`fragmentMap, this`records, this`cleanCalls
      ensures Mirrored() && records == old(records) - {removed} && fragmentMap == old(fragmentMap) - {removed}
      ensures cleanCalls == old(cleanCalls) + if removed in old(records) then [old(records)[removed].packetKey] else []
    {
      if removed in fragmentMap {
        cleanCalls := cleanCalls + [fragmentMap[removed].packetKey];
      }
      fragmentMap := fragmentMap - {removed};
      records := records - {removed};
    }

    method MarkUsed(h: Hash)
      requires packetLRU.Valid() && Mirrored()
      modifies packetLRU, packetLRU.Repr
      ensures packetLRU.Valid() && Mirrored()
      ensures packetLRU.contents == Recency.Put(old(packetLRU.contents), h, packetLRU.maxSize)
      ensures fresh(packetLRU.Repr - old(packetLRU.Repr))
    {
      var code, deletedValue := packetLRU.Put(h);
    }

    /** The record of h, created if need be, and marked as just used. */
    method FindOrAdd(h: Hash, key: PacketKey) returns (fragData: FragmentData)
      requires packetLRU.Valid() && Mirrored() && hash(key) == h
      modifies this, packetLRU, packetLRU.Repr
      ensures packetLRU.Valid() && Mirrored()
      ensures var (e, r, cleaned) := Reassembly.FindOrAdd(old(State()), h, key, packetLRU.maxSize);
              && State() == e && fragData.Value() == r
              && cleanCalls == old(cleanCalls) + if cleaned.Some? then [cleaned.value] else []
      ensures fresh(fragData) || fragData in old(Repr)
      ensures hash(fragData.packetKey) == h && (h in fragmentMap ==> fragmentMap[h] == fragData)
      ensures Repr == if h in old(fragmentMap) then old(Repr) else old(Repr) + {fragData}
      ensures fresh(packetLRU.Repr - old(packetLRU.Repr))
    {
      if h in fragmentMap {
        fragData := fragmentMap[h];
        MarkUsed(h);
      } else {
        fragData := new FragmentData(key);
        AddNewFragment(h, fragData);
      }
    }

    /** Takes the record of h out of the map and the list. */
    method Release(h: Hash)
      requires packetLRU.Valid() && Mirrored()
      modifies this, packetLRU, packetLRU.Repr
      ensures packetLRU.Valid() && Mirrored() && State() == Forget(old(State()), h)
      ensures cleanCalls == old(cleanCalls) && Repr == old(Repr)
      ensures packetLRU.Repr == old(packetLRU.Repr)
    {
      packetLRU.EraseElement(h);
      fragmentMap := fragmentMap - {h};
      records := records - {h};
    }

    /** Runs the reassembly logic on a record, which is the one in the map under h, if any is. */
    method Update(h: Hash, fragData: FragmentData, p: Piece) returns (status: ReassemblyStatus)
      requires Mirrored()
      requires hash(fragData.packetKey) == h && (h in fragmentMap ==> fragmentMap[h] == fragData)
      modifies this`records, fragData
      ensures Mirrored() && State() == StoreRecord(old(State()), h, fragData.Value())
      ensures (fragData.Value(), status) == Accept(old(fragData.Value()), p)
    {
      status := fragData.AcceptFragment(p);
      if h in fragmentMap {
        records := records[h := Entry(fragData.packetKey, fragData.Value())];
      }
    }

    /** One fragment of the datagram with hash h. */
    method ProcessFragment(h: Hash, key: PacketKey, p: Piece) returns (status: ReassemblyStatus, result: Returned)
      requires packetLRU.Valid() && Mirrored() && hash(key) == h
      modifies this, packetLRU, packetLRU.Repr, Repr
      ensures packetLRU.Valid() && Mirrored()
      ensures var (e, out) := Reassembly.ProcessFragment(old(State()), h, key, p, packetLRU.maxSize);
              && State() == e && status == out.status && result == out.returned
              && cleanCalls == old(cleanCalls) + if out.cleaned.Some? then [out.cleaned.value] else []
      ensures fresh(packetLRU.Repr - old(packetLRU.Repr))
      ensures fresh(Repr - old(Repr))
    {
      var fragData := FindOrAdd(h, key);
      status, result := Conclude(h, fragData, p);
    }

    /** The reassembly logic on the record that was found. */
    method Conclude(h: Hash, fragData: FragmentData, p: Piece) returns (status: ReassemblyStatus, result: Returned)
      requires packetLRU.Valid() && Mirrored()
      requires hash(fragData.packetKey) == h && (h in fragmentMap ==> fragmentMap[h] == fragData)
      modifies this, packetLRU, packetLRU.Repr, fragData
      ensures packetLRU.Valid() && Mirrored() && cleanCalls == old(cleanCalls)
      ensures (State(), status, result) == Reassembly.Conclude(old(State()), h, old(fragData.Value()), p)
      ensures Repr == old(Repr)
      ensures packetLRU.Repr == old(packetLRU.Repr)
    {
      ForgetStored(State(), h, Accept(fragData.Value(), p).0);
      status := Update(h, fragData, p);
      result := Finish(h, fragData, status);
    }

    /** A completed datagram is returned and its record released. */
    method Finish(h: Hash, fragData: FragmentData, status: ReassemblyStatus) returns (result: Returned)
      requires packetLRU.Valid() && Mirrored()
      modifies this, packetLRU, packetLRU.Repr
      ensures packetLRU.Valid() && Mirrored() && cleanCalls == old(cleanCalls)
      ensures State() == if status == Reassembled then Forget(old(State()), h) else old(State())
      ensures result == if status == Reassembled then Rebuilt(Gathered(old(fragData.Value()))) else Nothing
      ensures Repr == old(Repr)
      ensures packetLRU.Repr == old(packetLRU.Repr)
    {
      result := Nothing;
      if status == Reassembled {
        result := Rebuilt(if fragData.data.Some? then fragData.data.value else []);
        Release(h);
      }
    }

    /**
      The main call. The engine's state, the answer and the clean callbacks are those of
      Reassembly.ProcessPacket.
     */
    method ProcessPacket(pkt: Packet) returns (status: ReassemblyStatus, result: Returned)
      requires Valid()
      modifies this, packetLRU, packetLRU.Repr, Repr
      ensures Valid()
      ensures (status == NonIpPacket <==> pkt.NonIp?) && (status == NonFragment <==> pkt.Whole?)
      ensures !pkt.FragmentOf? ==> result == Same(pkt) && State() == old(State()) && cleanCalls == old(cleanCalls)
      ensures pkt.FragmentOf? && status != Reassembled ==> result == Nothing
      ensures var (e, out) := Reassembly.ProcessPacket(old(State()), pkt, hash, packetLRU.maxSize);
              && State() == e && status == out.status && result == out.returned
              && cleanCalls == old(cleanCalls) + if out.cleaned.Some? then [out.cleaned.value] else []
      ensures fresh(packetLRU.Repr - old(packetLRU.Repr))
      ensures fresh(Repr - old(Repr))
    {
      StepKeepsConsistent(State(), Process(pkt), hash, packetLRU.maxSize);
      AnswerByKind(State(), pkt, hash, packetLRU.maxSize);
      match pkt {
        case NonIp(_) =>
          status, result := NonIpPacket, Same(pkt);
        case Whole(_) =>
          status, result := NonFragment, Same(pkt);
        case FragmentOf(key, p) =>
          status, result := ProcessFragment(hash(key), key, p);
      }
    }

    method RemovePacket(key: PacketKey)
      requires Valid()
      modifies this, packetLRU, packetLRU.Repr
      ensures Valid()
      ensures State() == Reassembly.RemovePacket(old(State()), key, hash)
      ensures cleanCalls == old(cleanCalls)
      ensures fresh(packetLRU.Repr - old(packetLRU.Repr))
      ensures fresh(Repr - old(Repr))
    {
      StepKeepsConsistent(State(), Remove(key), hash, packetLRU.maxSize);
      if hash(key) in fragmentMap {
        Release(hash(key));
      }
    }

    /** Either of the two calls that change the object; a removal answers nothing. */
    method Perform(c: Call) returns (answer: Option<Answer>)
      requires Valid()
      modifies this, packetLRU, packetLRU.Repr, Repr
      ensures Valid()
      ensures var (e, out) := Step(old(State()), c, hash, packetLRU.maxSize);
              && State() == e && answer == AnswerTo(c, out)
              && cleanCalls == old(cleanCalls) + if out.cleaned.Some? then [out.cleaned.value] else []
      ensures fresh(packetLRU.Repr - old(packetLRU.Repr))
      ensures fresh(Repr - old(Repr))
    {
      match c {
        case Process(pkt) =>
          var status, result := ProcessPacket(pkt);
          answer := Some(Answer(status, result));
        case Remove(key) =>
          RemovePacket(key);
          answer := None;
      }
    }

    /** The object has been through these calls, with these answers. */
    ghost predicate HasRun(calls: seq<Call>, answers: seq<Option<Answer>>)
      reads this, packetLRU
    {
      && State() == Run(calls, hash, packetLRU.maxSize)
      && cleanCalls == Cleaned(calls, hash, packetLRU.maxSize)
      && answers == Answers(calls, hash, packetLRU.maxSize)
    }

    /** One more call. */
    method PerformNext(ghost before: seq<Call>, c: Call, answers: seq<Option<Answer>>)
      returns (more: seq<Option<Answer>>)
      requires Valid() && HasRun(before, answers)
      modifies this, packetLRU, packetLRU.Repr, Repr
      ensures Valid() && HasRun(before + [c], more)
      ensures fresh(packetLRU.Repr - old(packetLRU.Repr))
      ensures fresh(Repr - old(Repr))
    {
      RunNext(before, c, hash, packetLRU.maxSize);
      var answer := Perform(c);
      more := answers + [answer];
    }

    /** All these calls on a new object. */
    method PerformAll(calls: seq<Call>) returns (answers: seq<Option<Answer>>)
      requires Valid() && HasRun([], [])
      modifies this, packetLRU, packetLRU.Repr, Repr
      ensures Valid() && HasRun(calls, answers)
      ensures fresh(packetLRU.Repr - old(packetLRU.Repr))
      ensures fresh(Repr - old(Repr))
    {
      answers := [];
      for k := 0 to |calls|
        invariant Valid() && HasRun(calls[..k], answers)
        invariant fresh(packetLRU.Repr - old(packetLRU.Repr))
        invariant fresh(Repr - old(Repr))
      {
        answers := PerformNext(calls[..k], calls[k], answers);
        assert calls[..k + 1] == calls[..k] + [calls[k]];
      }
      assert calls[..|calls|] == calls;
    }

    method GetCurrentPacket(key: PacketKey) returns (data: Option<seq<Byte>>)
      requires Valid()
      ensures data == Reassembly.GetCurrentPacket(State(), key, hash)
    {
      data := if hash(key) in fragmentMap then fragmentMap[hash(key)].data else None;
    }

    method GetCurrentCapacity() returns (n: nat)
      requires Valid()
      ensures n == |State().records| <= packetLRU.maxSize
    {
      assert fragmentMap.Keys == records.Keys;
      Recency.CardinalityOfNoDup(packetLRU.contents);
      n := |fragmentMap|;
    }
  }

  /** Any calls on a new object get the answers of the run they spell out, and leave its state and callbacks. */
  method Replay(calls: seq<Call>, hash: HashFunction, maxPacketsToStore: nat)
    returns (r: Reassembler, answers: seq<Option<Answer>>)
    ensures fresh(r) && r.Valid() && r.hash == hash && r.packetLRU.maxSize == maxPacketsToStore
    ensures r.State() == Run(calls, hash, maxPacketsToStore)
    ensures r.cleanCalls == Cleaned(calls, hash, maxPacketsToStore)
    ensures answers == Answers(calls, hash, maxPacketsToStore)
  {
    r := new Reassembler(hash, maxPacketsToStore);
    answers := r.PerformAll(calls);
  }
}
