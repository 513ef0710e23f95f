/**
  The whole reassembly mechanism (IPReassembly.h) as a value: the record map, the LRU list that
  bounds it, and one step for each call of its interface.
 */
module Reassembly {
  import opened Wrappers
  import opened Bytes
  import opened Fragments
  import Recency

  /** A 4-byte hash of the packet key. */
  type Hash = h: int | 0 <= h < 0x1_0000_0000

  type HashFunction = PacketKey -> Hash

  /** Source, destination and IP ID (IPv4) or fragment ID (IPv6); addresses as numbers. */
  datatype PacketKey =
    | IPv4PacketKey(ipID: nat, srcIP4: nat, dstIP4: nat)
    | IPv6PacketKey(fragmentID: nat, srcIP6: nat, dstIP6: nat)

  datatype Packet =
    | NonIp(content: seq<Byte>)
    | Whole(content: seq<Byte>)
    | FragmentOf(key: PacketKey, piece: Piece)

  /** A map entry: the key of the fragment that created it, and the record. */
  datatype Entry = Entry(packetKey: PacketKey, record: Record)

  datatype Engine = Engine(lru: seq<Hash>, records: map<Hash, Entry>)

  const EMPTY := Engine([], map[])

  /** What processPacket returns: the status, and the packet if there is one. */
  datatype Returned = Nothing | Same(packet: Packet) | Rebuilt(payload: seq<Byte>)

  datatype Response = Response(status: ReassemblyStatus, returned: Returned, cleaned: Option<PacketKey>)

  function Drop(m: map<Hash, Entry>, o: Option<Hash>): map<Hash, Entry> {
    if o.Some? then m - {o.value} else m
  }

  /**
    A new entry goes into the map and the list; the entry of the element the list drops leaves
    the map, and the clean callback gets its key.
   */
  function AddNewFragment(e: Engine, h: Hash, key: PacketKey, cap: nat): (Engine, Option<PacketKey>) {
    var added := e.records[h := Entry(key, FRESH)];
    var evicted := Recency.Evicted(e.lru, h, cap);
    (Engine(Recency.Put(e.lru, h, cap), Drop(added, evicted)),
     if evicted.Some? && evicted.value in added then Some(added[evicted.value].packetKey) else None)
  }

  /** The engine with an entry for h, marked as just used, and the record that is there. */
  function FindOrAdd(e: Engine, h: Hash, key: PacketKey, cap: nat): (Engine, Record, Option<PacketKey>) {
    if h in e.records then
      (e.(lru := Recency.Put(e.lru, h, cap)), e.records[h].record, None)
    else
      var (e', cleaned) := AddNewFragment(e, h, key, cap);
      (e', FRESH, cleaned)
  }

  function Forget(e: Engine, h: Hash): Engine {
    Engine(Recency.Without(e.lru, h), e.records - {h})
  }

  function StoreRecord(e: Engine, h: Hash, r: Record): Engine {
    if h in e.records then e.(records := e.records[h := e.records[h].(record := r)]) else e
  }

  /** The reassembly logic on the record that was found; a completed record is forgotten. */
  function Conclude(found: Engine, h: Hash, r: Record, p: Piece): (Engine, ReassemblyStatus, Returned) {
    var (r', status) := Accept(r, p);
    if status == Reassembled then (Forget(found, h), Reassembled, Rebuilt(Gathered(r')))
    else (StoreRecord(found, h, r'), status, Nothing)
  }

  function ProcessFragment(e: Engine, h: Hash, key: PacketKey, p: Piece, cap: nat): (Engine, Response) {
    var (found, r, cleaned) := FindOrAdd(e, h, key, cap);
    var (e', status, returned) := Conclude(found, h, r, p);
    (e', Response(status, returned, cleaned))
  }

  function ProcessPacket(e: Engine, pkt: Packet, hash: HashFunction, cap: nat): (Engine, Response) {
    match pkt
    case NonIp(_) => (e, Response(NonIpPacket, Same(pkt), None))
    case Whole(_) => (e, Response(NonFragment, Same(pkt), None))
    case FragmentOf(key, p) => ProcessFragment(e, hash(key), key, p, cap)
  }

  function RemovePacket(e: Engine, key: PacketKey, hash: HashFunction): Engine {
    if hash(key) in e.records then Forget(e, hash(key)) else e
  }

  /** The partially reassembled packet, if any data is there. */
  function GetCurrentPacket(e: Engine, key: PacketKey, hash: HashFunction): Option<seq<Byte>> {
    if hash(key) in e.records then e.records[hash(key)].record.data else None
  }

  datatype Call = Process(packet: Packet) | Remove(key: PacketKey)

  function Step(e: Engine, c: Call, hash: HashFunction, cap: nat): (Engine, Response) {
    match c
    case Process(pkt) => ProcessPacket(e, pkt, hash, cap)
    case Remove(key) => (RemovePacket(e, key, hash), Response(NonFragment, Nothing, None))
  }

  function Run(calls: seq<Call>, hash: HashFunction, cap: nat): Engine {
    if calls == [] then EMPTY
    else Step(Run(calls[..|calls| - 1], hash, cap), calls[|calls| - 1], hash, cap).0
  }

  // ---------- what every step keeps ----------

  /** Map and list hold the same hashes, each once, and no more than the capacity. */
  ghost predicate Consistent(e: Engine, cap: nat) {
    && Recency.NoDup(e.lru)
    && Recency.Elems(e.lru) == e.records.Keys
    && |e.lru| <= cap
  }

  /** Only a new hash that meets a full list drops anything, and then it is the last element. */
  lemma EvictedHash(e: Engine, h: Hash, cap: nat)
    requires Consistent(e, cap)
    ensures var ev := Recency.Evicted(e.lru, h, cap);
            && (ev.Some? <==> h !in e.records && |e.lru| == cap)
            && (ev.Some? ==> ev.value == if cap == 0 then h else e.lru[cap - 1])
            && (ev.Some? && cap > 0 ==> ev.value in e.records && ev.value != h)
  {
    assert h in e.lru <==> h in Recency.Elems(e.lru);
    if cap > 0 {
      Recency.PutCharacterised(e.lru, h, cap);
      if |e.lru| == cap {
        assert e.lru[cap - 1] in Recency.Elems(e.lru);
      }
    } else {
      Recency.PutIntoNothing(h);
    }
  }

  lemma AddKeepsConsistent(e: Engine, h: Hash, key: PacketKey, cap: nat)
    requires Consistent(e, cap) && h !in e.records
    ensures Consistent(AddNewFragment(e, h, key, cap).0, cap)
  {
    EvictedHash(e, h, cap);
    Recency.PutFacts(e.lru, h, cap);
    if cap > 0 {
      Recency.PutElems(e.lru, h, cap);
      assert h in e.lru <==> h in Recency.Elems(e.lru);
    } else {
      Recency.PutIntoNothing(h);
    }
  }

  lemma FindOrAddKeepsConsistent(e: Engine, h: Hash, key: PacketKey, cap: nat)
    requires Consistent(e, cap)
    ensures Consistent(FindOrAdd(e, h, key, cap).0, cap)
  {
    if h in e.records {
      assert h in e.lru;
      EvictedHash(e, h, cap);
      Recency.PutFacts(e.lru, h, cap);
      Recency.PutElems(e.lru, h, cap);
    } else {
      AddKeepsConsistent(e, h, key, cap);
    }
  }

  lemma ForgetKeepsConsistent(e: Engine, h: Hash, cap: nat)
    requires Consistent(e, cap)
    ensures Consistent(Forget(e, h), cap)
  {
    Recency.WithoutFacts(e.lru, h);
    Recency.WithoutLength(e.lru, h);
    assert Recency.Elems(Recency.Without(e.lru, h)) == Recency.Elems(e.lru) - {h};
  }

  lemma StepKeepsConsistent(e: Engine, c: Call, hash: HashFunction, cap: nat)
    requires Consistent(e, cap)
    ensures Consistent(Step(e, c, hash, cap).0, cap)
  {
    match c {
      case Remove(key) =>
        ForgetKeepsConsistent(e, hash(key), cap);
      case Process(pkt) =>
        if pkt.FragmentOf? {
          var h := hash(pkt.key);
          FindOrAddKeepsConsistent(e, h, pkt.key, cap);
          var found := FindOrAdd(e, h, pkt.key, cap).0;
          ForgetKeepsConsistent(found, h, cap);
          assert forall r :: StoreRecord(found, h, r).records.Keys == found.records.Keys;
        }
    }
  }

  /** In every reachable state the map's keys are the list's elements, within the capacity. */
  lemma {:induction false} AlwaysConsistent(calls: seq<Call>, hash: HashFunction, cap: nat)
    ensures Consistent(Run(calls, hash, cap), cap)
    ensures |Run(calls, hash, cap).records| <= cap
  {
    if calls != [] {
      var before := calls[..|calls| - 1];
      AlwaysConsistent(before, hash, cap);
      StepKeepsConsistent(Run(before, hash, cap), calls[|calls| - 1], hash, cap);
    }
    Recency.CardinalityOfNoDup(Run(calls, hash, cap).lru);
  }

  /**
    A capacity drop: exactly when a fragment of an unknown datagram meets a full map, the least
    recently used record goes, one callback fires with its key, and every other record stays. With
    a capacity of zero that is the fragment's own record.
   */
  lemma CapacityDrop(e: Engine, pkt: Packet, hash: HashFunction, cap: nat)
    requires Consistent(e, cap)
    ensures var (e', out) := ProcessPacket(e, pkt, hash, cap);
            && (out.cleaned.Some? <==> pkt.FragmentOf? && hash(pkt.key) !in e.records && |e.lru| == cap)
            && (out.cleaned.Some? && cap == 0 ==> out.cleaned == Some(pkt.key) && e'.records == map[])
            && (out.cleaned.Some? && cap > 0 ==>
                  var victim := e.lru[cap - 1];
                  && victim in e.records && out.cleaned == Some(e.records[victim].packetKey)
                  && e'.records.Keys - {hash(pkt.key)} == e.records.Keys - {victim})
            && (forall h :: h in e'.records && h in e.records && (pkt.FragmentOf? ==> h != hash(pkt.key)) ==>
                  e'.records[h] == e.records[h])
  {
    if pkt.FragmentOf? {
      EvictedHash(e, hash(pkt.key), cap);
      if cap == 0 {
        NothingFits(e, hash(pkt.key), pkt.key);
      }
    }
  }

  /** With a capacity of zero a new record is dropped at once. */
  lemma NothingFits(e: Engine, h: Hash, key: PacketKey)
    requires Consistent(e, 0)
    ensures e == EMPTY && FindOrAdd(e, h, key, 0) == (EMPTY, FRESH, Some(key))
  {
    Recency.PutIntoNothing(h);
    assert e.records.Keys == {};
    assert map[h := Entry(key, FRESH)] - {h} == map[];
  }

  /**
    The answers by kind of packet, for every state and capacity: what is no fragment comes back as it is,
    with the status that says which kind it was, and nothing else happens; a fragment gets one of the other
    statuses, and a packet exactly when its datagram is complete.
   */
  lemma AnswerByKind(e: Engine, pkt: Packet, hash: HashFunction, cap: nat)
    ensures var (e', out) := ProcessPacket(e, pkt, hash, cap);
            && (out.status == NonIpPacket <==> pkt.NonIp?)
            && (out.status == NonFragment <==> pkt.Whole?)
            && (!pkt.FragmentOf? ==> out.returned == Same(pkt) && out.cleaned == None && e' == e)
            && (pkt.FragmentOf? ==> (out.returned == Nothing <==> out.status != Reassembled))
            && (pkt.FragmentOf? ==> (out.returned.Rebuilt? <==> out.status == Reassembled))
  {
  }

  /** A record keeps the key of the fragment that created it, and no call creates one for another hash. */
  lemma KeysStay(e: Engine, c: Call, hash: HashFunction, cap: nat, h: Hash)
    requires h in Step(e, c, hash, cap).0.records
    ensures h in e.records || (c.Process? && c.packet.FragmentOf? && hash(c.packet.key) == h)
    ensures Step(e, c, hash, cap).0.records[h].packetKey ==
            if h in e.records then e.records[h].packetKey else c.packet.key
  {
  }

  /** So in every reachable state a record's key, which the clean callback gets, has the record's hash. */
  lemma {:induction false} KeysHash(calls: seq<Call>, hash: HashFunction, cap: nat, h: Hash)
    requires h in Run(calls, hash, cap).records
    ensures hash(Run(calls, hash, cap).records[h].packetKey) == h
  {
    if calls != [] {
      var before := calls[..|calls| - 1];
      KeysStay(Run(before, hash, cap), calls[|calls| - 1], hash, cap, h);
      if h in Run(before, hash, cap).records {
        KeysHash(before, hash, cap, h);
      }
    }
  }

  // ---------- conservation ----------

  datatype Tally = Tally(created: nat, reassembled: nat, dropped: nat, removed: nat)

  function CountCall(t: Tally, e: Engine, c: Call, hash: HashFunction, cap: nat): Tally {
    match c
    case Remove(key) => t.(removed := t.removed + if hash(key) in e.records then 1 else 0)
    case Process(pkt) =>
      if pkt.FragmentOf? then
        var out := ProcessPacket(e, pkt, hash, cap).1;
        Tally(t.created + (if hash(pkt.key) in e.records then 0 else 1),
              t.reassembled + (if out.status == Reassembled then 1 else 0),
              t.dropped + (if out.cleaned.Some? then 1 else 0),
              t.removed)
      else t
  }

  function Count(calls: seq<Call>, hash: HashFunction, cap: nat): Tally {
    if calls == [] then Tally(0, 0, 0, 0)
    else
      CountCall(Count(calls[..|calls| - 1], hash, cap), Run(calls[..|calls| - 1], hash, cap),
                calls[|calls| - 1], hash, cap)
  }

  ghost predicate Balanced(t: Tally, e: Engine) {
    t.created == |e.records| + t.reassembled + t.dropped + t.removed
  }

  lemma SizeMinus(m: map<Hash, Entry>, h: Hash)
    requires h in m
    ensures |m - {h}| == |m| - 1
  {
    assert m.Keys == (m - {h}).Keys + {h};
  }

  lemma SizePlus(m: map<Hash, Entry>, h: Hash, e: Entry)
    ensures |m[h := e]| == if h in m then |m| else |m| + 1
  {
    assert m[h := e].Keys == m.Keys + {h};
  }

  /** The first half of a fragment's step adds its record, and pays for it with a drop when full. */
  lemma FindOrAddSize(e: Engine, h: Hash, key: PacketKey, cap: nat)
    requires Consistent(e, cap) && cap > 0
    ensures var (found, _, cleaned) := FindOrAdd(e, h, key, cap);
            && h in found.records
            && |found.records| + (if cleaned.Some? then 1 else 0) == |e.records| + (if h in e.records then 0 else 1)
  {
    EvictedHash(e, h, cap);
    if h !in e.records {
      var added := e.records[h := Entry(key, FRESH)];
      SizePlus(e.records, h, Entry(key, FRESH));
      var ev := Recency.Evicted(e.lru, h, cap);
      if ev.Some? {
        SizeMinus(added, ev.value);
      }
    }
  }

  lemma FragmentKeepsBalance(t: Tally, e: Engine, key: PacketKey, p: Piece, hash: HashFunction, cap: nat)
    requires Consistent(e, cap) && cap > 0 && Balanced(t, e)
    ensures var c := Process(FragmentOf(key, p));
            Balanced(CountCall(t, e, c, hash, cap), Step(e, c, hash, cap).0)
  {
    var h := hash(key);
    FindOrAddSize(e, h, key, cap);
    var (found, r, _) := FindOrAdd(e, h, key, cap);
    SizeMinus(found.records, h);
    SizePlus(found.records, h, found.records[h].(record := Accept(r, p).0));
  }

  /** A call with a fragment that is a whole datagram. */
  predicate IsLoneFragment(c: Call) {
    c.Process? && c.packet.FragmentOf? && c.packet.piece.first && c.packet.piece.last
  }

  ghost predicate NoLoneFragment(calls: seq<Call>) {
    forall c :: c in calls ==> !IsLoneFragment(c)
  }

  lemma LoneIsCompleted(p: Piece)
    ensures Accept(FRESH, p).1 == Reassembled <==> p.first && p.last
  {
    assert Append(FRESH, p.payload).outOfOrder == [];
  }

  /** With a capacity of zero every record is dropped, and that of a lone fragment is completed as well. */
  lemma {:induction false} NothingIsKept(calls: seq<Call>, hash: HashFunction)
    ensures var t := Count(calls, hash, 0);
            && Run(calls, hash, 0) == EMPTY
            && t.created == t.dropped && t.removed == 0
            && (t.reassembled == 0 <==> NoLoneFragment(calls))
  {
    if calls != [] {
      var before := calls[..|calls| - 1];
      var c := calls[|calls| - 1];
      NothingIsKept(before, hash);
      assert NoLoneFragment(calls) <==> NoLoneFragment(before) && !IsLoneFragment(c) by {
        assert calls == before + [c];
      }
      if c.Process? && c.packet.FragmentOf? {
        NothingFits(EMPTY, hash(c.packet.key), c.packet.key);
        LoneIsCompleted(c.packet.piece);
      }
    }
  }

  /**
    Every record ever created is live, was completed, was dropped with a callback, or removed; unless
    the capacity is zero and some fragment is a whole datagram, for then one is dropped and completed.
   */
  lemma {:induction false} RecordsAreConserved(calls: seq<Call>, hash: HashFunction, cap: nat)
    ensures Balanced(Count(calls, hash, cap), Run(calls, hash, cap)) <==>
              cap > 0 || NoLoneFragment(calls)
  {
    if cap > 0 {
      ConservedWithRoom(calls, hash, cap);
    } else {
      NothingIsKept(calls, hash);
    }
  }

  /** A fragment that is both first and last, met with a capacity of zero. */
  lemma DroppedAndCompleted(key: PacketKey, hash: HashFunction)
    ensures var calls := [Process(FragmentOf(key, Piece(true, 0, true, [7])))];
            Count(calls, hash, 0) == Tally(1, 1, 1, 0) && Run(calls, hash, 0) == EMPTY
  {
    var c := Process(FragmentOf(key, Piece(true, 0, true, [7])));
    assert [c][..0] == [];
    NothingFits(EMPTY, hash(key), key);
  }

  lemma {:induction false} ConservedWithRoom(calls: seq<Call>, hash: HashFunction, cap: nat)
    requires cap > 0
    ensures Balanced(Count(calls, hash, cap), Run(calls, hash, cap))
  {
    if calls != [] {
      var before := calls[..|calls| - 1];
      var e := Run(before, hash, cap);
      ConservedWithRoom(before, hash, cap);
      AlwaysConsistent(before, hash, cap);
      match calls[|calls| - 1] {
        case Remove(key) =>
          if hash(key) in e.records {
            SizeMinus(e.records, hash(key));
          }
        case Process(pkt) =>
          if pkt.FragmentOf? {
            FragmentKeepsBalance(Count(before, hash, cap), e, pkt.key, pkt.piece, hash, cap);
          }
      }
    }
  }
}
