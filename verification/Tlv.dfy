/**
  Type-length-value records in a byte stream (TLVData.h), for the four record kinds that share the
  reader: DHCP options, IPv6 options, IPv4 options and NFLOG fields.
 */
module Tlv {
  import opened Wrappers
  import opened Bytes
  import opened Alignment

  datatype Kind = Dhcp | IPv6Opt | IPv4Opt | Nflog

  /** Record types that are a single octet: PAD and END, Pad0, end-of-list and no-operation. */
  predicate IsSingle(k: Kind, recordType: Byte) {
    match k
    case Dhcp => recordType == 0 || recordType == 255
    case IPv6Opt => recordType == 0
    case IPv4Opt => recordType == 0 || recordType == 1
    case Nflog => false
  }

  /** canAssign: the type octet is there, and the length octet where the type needs one. */
  predicate CanAssign(k: Kind, data: seq<Byte>, pos: nat) {
    if pos >= |data| then false
    else if IsSingle(k, data[pos]) then true
    else pos + 2 <= |data|
  }

  /** A little-endian 16-bit field. */
  function Word16(low: Byte, high: Byte): nat {
    (high as nat) * 256 + low
  }

  /** getTotalSize of the record at `pos`. */
  function TotalSize(k: Kind, data: seq<Byte>, pos: nat): nat
    requires CanAssign(k, data, pos)
  {
    if IsSingle(k, data[pos]) then 1
    else match k
         case Dhcp => 2 + data[pos + 1]
         case IPv6Opt => data[pos + 1] + 2
         case IPv4Opt => data[pos + 1]
         case Nflog => Align(Word16(data[pos], data[pos + 1]), 2)
  }

  /** getFirstTLVRecord, as an offset; None is a null record. */
  function First(k: Kind, data: seq<Byte>): (r: Option<nat>) {
    if !CanAssign(k, data, 0) then None
    else if TotalSize(k, data, 0) > |data| then None
    else if |data| == 0 || TotalSize(k, data, 0) == 0 then None
    else Some(0)
  }

  /** A record the reader hands out: assignable, not empty, inside the stream. */
  predicate IsRecord(k: Kind, data: seq<Byte>, pos: nat) {
    CanAssign(k, data, pos) && 0 < TotalSize(k, data, pos) && pos + TotalSize(k, data, pos) <= |data|
  }

  /** getNextTLVRecord */
  function Next(k: Kind, data: seq<Byte>, pos: nat): (r: Option<nat>)
    requires IsRecord(k, data, pos)
  {
    var next := pos + TotalSize(k, data, pos);
    if !CanAssign(k, data, next) then None
    else if TotalSize(k, data, next) == 0 then None
    else if next + TotalSize(k, data, next) > |data| then None
    else Some(next)
  }

  lemma FirstIsRecord(k: Kind, data: seq<Byte>)
    ensures First(k, data) == if IsRecord(k, data, 0) then Some(0) else None
  {
  }

  lemma NextIsRecord(k: Kind, data: seq<Byte>, pos: nat)
    requires IsRecord(k, data, pos)
    ensures var next := pos + TotalSize(k, data, pos);
            Next(k, data, pos) == if IsRecord(k, data, next) then Some(next) else None
  {
  }

  /** Every record the reader hands out, from `pos` on. It always advances, so it always ends. */
  function WalkFrom(k: Kind, data: seq<Byte>, pos: Option<nat>): seq<nat>
    requires pos.Some? ==> IsRecord(k, data, pos.value)
    decreases if pos.Some? then |data| - pos.value else -1
  {
    if pos.None? then []
    else
      NextIsRecord(k, data, pos.value);
      [pos.value] + WalkFrom(k, data, Next(k, data, pos.value))
  }

  function Walk(k: Kind, data: seq<Byte>): seq<nat> {
    FirstIsRecord(k, data);
    WalkFrom(k, data, First(k, data))
  }

  /**
    The walked records tile a stretch of the stream: each starts where the one before it ends, all lie
    inside, and behind the last there is no further record.
   */
  ghost predicate Tiles(k: Kind, data: seq<Byte>, w: seq<nat>, start: nat) {
    if w == [] then !IsRecord(k, data, start)
    else w[0] == start && IsRecord(k, data, start) && Tiles(k, data, w[1..], start + TotalSize(k, data, start))
  }

  lemma {:induction false} WalkFromTiles(k: Kind, data: seq<Byte>, start: nat, w: seq<nat>)
    ensures Tiles(k, data, w, start) <==>
            w == WalkFrom(k, data, if IsRecord(k, data, start) then Some(start) else None)
    decreases |w|
  {
    if IsRecord(k, data, start) {
      NextIsRecord(k, data, start);
      var all := WalkFrom(k, data, Some(start));
      if w != [] {
        WalkFromTiles(k, data, start + TotalSize(k, data, start), w[1..]);
        assert w == [w[0]] + w[1..];
        assert all == [start] + all[1..];
      }
    }
  }

  /** On arbitrary bytes the walk is the one tiling from offset 0. */
  lemma WalkTiles(k: Kind, data: seq<Byte>, w: seq<nat>)
    ensures Tiles(k, data, w, 0) <==> w == Walk(k, data)
  {
    FirstIsRecord(k, data);
    WalkFromTiles(k, data, 0, w);
  }

  /** Assignable DHCP and IPv6 options, and single octets, are never empty. */
  lemma NeverEmpty(k: Kind, data: seq<Byte>, pos: nat)
    requires CanAssign(k, data, pos)
    ensures TotalSize(k, data, pos) == 0 <==>
              (k == IPv4Opt && !IsSingle(k, data[pos]) && data[pos + 1] == 0) ||
              (k == Nflog && data[pos] == 0 && data[pos + 1] == 0)
  {
    if k == Nflog {
      AlignedToFour(Word16(data[pos], data[pos + 1]));
    }
  }

  lemma NflogStep(data: seq<Byte>, start: nat)
    requires IsRecord(Nflog, data, start) && start % 4 == 0
    ensures (start + TotalSize(Nflog, data, start)) % 4 == 0
  {
    AlignedToFour(Word16(data[start], data[start + 1]));
    MultiplesOfFour(start, TotalSize(Nflog, data, start));
  }

  /** An NFLOG walk stays at multiples of four. */
  lemma {:induction false} NflogStaysAligned(data: seq<Byte>, start: nat, w: seq<nat>, i: nat)
    requires Tiles(Nflog, data, w, start) && start % 4 == 0 && i < |w|
    ensures w[i] % 4 == 0
    decreases i
  {
    if i > 0 {
      NflogStep(data, start);
      NflogStaysAligned(data, start + TotalSize(Nflog, data, start), w[1..], i - 1);
    }
  }

  // ---------- options ----------

  datatype Opt = Single(recordType: Byte) | Full(recordType: Byte, value: seq<Byte>)

  /** What the length octet of a kind counts besides the value. */
  function Overhead(k: Kind): nat {
    if k == IPv4Opt then 2 else 0
  }

  /** An option of a kind: its type decides the form, and its length fits one octet. */
  predicate IsOption(k: Kind, o: Opt) {
    && k != Nflog
    && (o.Single? <==> IsSingle(k, o.recordType))
    && (o.Full? ==> |o.value| + Overhead(k) < 256)
  }

  function Serialize(k: Kind, o: Opt): (s: seq<Byte>)
    requires IsOption(k, o)
    ensures |s| > 0
  {
    match o
    case Single(t) => [t]
    case Full(t, v) => [t, |v| + Overhead(k)] + v
  }

  ghost predicate AreOptions(k: Kind, opts: seq<Opt>) {
    opts == [] || (IsOption(k, opts[0]) && AreOptions(k, opts[1..]))
  }

  function Parts(k: Kind, opts: seq<Opt>): seq<seq<Byte>>
    requires AreOptions(k, opts)
  {
    if opts == [] then [] else [Serialize(k, opts[0])] + Parts(k, opts[1..])
  }

  function SerializeAll(k: Kind, opts: seq<Opt>): seq<Byte>
    requires AreOptions(k, opts)
  {
    Concat(Parts(k, opts))
  }

  /** The option that starts at a record; getDataSize octets after the type and the length are its value. */
  function OptionAt(k: Kind, data: seq<Byte>, pos: nat): Opt
    requires k != Nflog && IsRecord(k, data, pos)
  {
    if IsSingle(k, data[pos]) then Single(data[pos])
    else Full(data[pos], if TotalSize(k, data, pos) < 2 then [] else data[pos + 2..pos + TotalSize(k, data, pos)])
  }

  function Options(k: Kind, data: seq<Byte>, pos: Option<nat>): seq<Opt>
    requires k != Nflog && (pos.Some? ==> IsRecord(k, data, pos.value))
    decreases if pos.Some? then |data| - pos.value else -1
  {
    if pos.None? then []
    else
      NextIsRecord(k, data, pos.value);
      [OptionAt(k, data, pos.value)] + Options(k, data, Next(k, data, pos.value))
  }

  lemma OneOption(k: Kind, data: seq<Byte>, at: nat, o: Opt)
    requires IsOption(k, o) && at + |Serialize(k, o)| <= |data|
    requires data[at..at + |Serialize(k, o)|] == Serialize(k, o)
    ensures IsRecord(k, data, at) && OptionAt(k, data, at) == o
    ensures TotalSize(k, data, at) == |Serialize(k, o)|
  {
    var s := Serialize(k, o);
    assert data[at] == s[0];
    if o.Full? {
      assert data[at + 1] == s[1];
      assert data[at + 2..at + |s|] == data[at..at + |s|][2..] == s[2..] == o.value;
    }
  }

  lemma {:induction false} ReadsWhatIsSpelt(k: Kind, data: seq<Byte>, at: nat, opts: seq<Opt>)
    requires k != Nflog && AreOptions(k, opts) && SpellsOut(data, at, Parts(k, opts))
    ensures Options(k, data, if IsRecord(k, data, at) then Some(at) else None) == opts
    decreases |opts|
  {
    if opts != [] {
      assert Parts(k, opts)[1..] == Parts(k, opts[1..]);
      OneOption(k, data, at, opts[0]);
      NextIsRecord(k, data, at);
      ReadsWhatIsSpelt(k, data, at + |Serialize(k, opts[0])|, opts[1..]);
      assert opts == [opts[0]] + opts[1..];
    }
  }

  /** Reading back what was written: the walk finds exactly the options, in order, and nothing else. */
  lemma RoundTrip(k: Kind, opts: seq<Opt>)
    requires k != Nflog && AreOptions(k, opts)
    ensures Options(k, SerializeAll(k, opts), First(k, SerializeAll(k, opts))) == opts
  {
    var data := SerializeAll(k, opts);
    ConcatSpellsOut(data, 0, Parts(k, opts));
    ReadsWhatIsSpelt(k, data, 0, opts);
    FirstIsRecord(k, data);
  }

  /** getDataSize of an IPv4 option, in size_t arithmetic. */
  function IPv4DataSize(recordType: Byte, recordLen: Byte): nat {
    if IsSingle(IPv4Opt, recordType) then 0 else (recordLen - 2) % 0x1_0000_0000_0000_0000
  }

  /** It is the size of the value exactly when the length counts its own two octets. */
  lemma IPv4DataSizeExact(recordType: Byte, recordLen: Byte)
    requires !IsSingle(IPv4Opt, recordType)
    ensures IPv4DataSize(recordType, recordLen) + 2 == recordLen <==> recordLen >= 2
  {
  }

  /** Among the options the reader hands out it is wrong exactly for a length octet of 1. */
  lemma HandedOutDataSize(data: seq<Byte>, pos: nat)
    requires IsRecord(IPv4Opt, data, pos) && !IsSingle(IPv4Opt, data[pos])
    ensures data[pos + 1] >= 1
    ensures IPv4DataSize(data[pos], data[pos + 1]) + 2 == TotalSize(IPv4Opt, data, pos) <==> data[pos + 1] != 1
    ensures data[pos + 1] == 1 ==> IPv4DataSize(data[pos], data[pos + 1]) == 0xFFFF_FFFF_FFFF_FFFF
  {
    NeverEmpty(IPv4Opt, data, pos);
    IPv4DataSizeExact(data[pos], data[pos + 1]);
  }

  /** A record-route option that is nothing but its type and a length octet of 1. */
  lemma DataSizeWraps()
    ensures First(IPv4Opt, [7, 1]) == Some(0) && IPv4DataSize(7, 1) == 0xFFFF_FFFF_FFFF_FFFF
  {
  }

  // ---------- the reader ----------

  /** The 16-bit type of an NFLOG field lies behind its length; the other kinds begin with the type. */
  function TypeAt(k: Kind, data: seq<Byte>, pos: nat): nat
    requires IsRecord(k, data, pos)
  {
    if k == Nflog then (NflogHasType(data, pos); Word16(data[pos + 2], data[pos + 3])) else data[pos]
  }

  lemma NflogHasType(data: seq<Byte>, pos: nat)
    requires IsRecord(Nflog, data, pos)
    ensures pos + 4 <= |data|
  {
    AlignedToFour(Word16(data[pos], data[pos + 1]));
  }

  /** All these offsets are records, of other types. */
  ghost predicate NoneOfType(k: Kind, data: seq<Byte>, w: seq<nat>, recordType: nat) {
    forall i :: 0 <= i < |w| ==> IsRecord(k, data, w[i]) && TypeAt(k, data, w[i]) != recordType
  }

  lemma {:induction false} TilesAt(k: Kind, data: seq<Byte>, w: seq<nat>, start: nat, i: nat)
    requires Tiles(k, data, w, start) && i < |w|
    ensures w[0] == start && IsRecord(k, data, w[i])
    ensures var next := w[i] + TotalSize(k, data, w[i]);
            if i + 1 < |w| then w[i + 1] == next else !IsRecord(k, data, next)
    decreases i
  {
    if i > 0 {
      TilesAt(k, data, w[1..], start + TotalSize(k, data, start), i - 1);
    }
  }

  /**
    The walk over options, in octets. Record i is there with its type octet, and is a single octet if the type
    is 0 or 255 (DHCP), 0 (IPv6), 0 or 1 (IPv4). Else its second octet is the length: of the value for DHCP
    and IPv6, of the whole for IPv4. The next record begins right behind it.
   */
  lemma OptionsOnTheWire(k: Kind, data: seq<Byte>, i: nat)
    requires k != Nflog && i < |Walk(k, data)|
    ensures var w := Walk(k, data);
            var pos := w[i];
            var singles := match k case Dhcp => {0, 255} case IPv6Opt => {0} case _ => {0, 1};
            && w[0] == 0 && pos < |data|
            && (data[pos] !in singles ==> pos + 2 <= |data|)
            && var more: int := if k == IPv4Opt then 0 else 2;
               var end := pos + if data[pos] in singles then 1 else more + data[pos + 1];
               && pos < end <= |data|
               && (i + 1 < |w| ==> w[i + 1] == end)
               && IsRecord(k, data, pos) && TypeAt(k, data, pos) == data[pos]
               && (data[pos] in singles ==> OptionAt(k, data, pos) == Single(data[pos]))
               && (data[pos] !in singles && end >= pos + 2 ==>
                     OptionAt(k, data, pos) == Full(data[pos], data[pos + 2..end]))
  {
    var w := Walk(k, data);
    WalkTiles(k, data, w);
    TilesAt(k, data, w, 0, i);
  }

  /** Where the walk ends, the octets are used up, or what follows is cut short, empty or too long to be a record. */
  lemma OptionsEnd(k: Kind, data: seq<Byte>)
    requires k != Nflog
    ensures var end := WalkEnd(k, data);
            var singles := match k case Dhcp => {0, 255} case IPv6Opt => {0} case _ => {0, 1};
            var more: int := if k == IPv4Opt then 0 else 2;
            && end <= |data|
            && (end < |data| ==>
                  && data[end] !in singles
                  && (end + 1 == |data| || more + data[end + 1] == 0 || end + more + data[end + 1] > |data|))
  {
    EndIsNoRecord(k, data);
  }

  /** The offset behind the last walked record. */
  function WalkEnd(k: Kind, data: seq<Byte>): nat {
    var w := Walk(k, data);
    if w == [] then 0 else (LastIsRecord(k, data); w[|w| - 1] + TotalSize(k, data, w[|w| - 1]))
  }

  lemma LastIsRecord(k: Kind, data: seq<Byte>)
    requires Walk(k, data) != []
    ensures IsRecord(k, data, Walk(k, data)[|Walk(k, data)| - 1])
  {
    var w := Walk(k, data);
    WalkTiles(k, data, w);
    TilesAt(k, data, w, 0, |w| - 1);
  }

  lemma EndIsNoRecord(k: Kind, data: seq<Byte>)
    ensures WalkEnd(k, data) <= |data| && !IsRecord(k, data, WalkEnd(k, data))
  {
    var w := Walk(k, data);
    WalkTiles(k, data, w);
    if w != [] {
      TilesAt(k, data, w, 0, |w| - 1);
    }
  }

  /** The walk over NFLOG fields, in octets: a length and a type of two octets each, the low one first, and padding. */
  lemma NflogOnTheWire(data: seq<Byte>, i: nat)
    requires i < |Walk(Nflog, data)|
    ensures var w := Walk(Nflog, data);
            var pos := w[i];
            && w[0] == 0 && pos + 4 <= |data|
            && var low: int, high: int := data[pos], data[pos + 1];
               var end := pos + (low + 256 * high + 3) / 4 * 4;
               && pos < end <= |data|
               && (i + 1 < |w| ==> w[i + 1] == end)
               && IsRecord(Nflog, data, pos)
               && TypeAt(Nflog, data, pos) == (data[pos + 2] as int) + 256 * data[pos + 3] as int
  {
    var w := Walk(Nflog, data);
    WalkTiles(Nflog, data, w);
    TilesAt(Nflog, data, w, 0, i);
    NflogHasType(data, w[i]);
    AlignToFour(Word16(data[w[i]], data[w[i] + 1]));
  }

  lemma NflogEnd(data: seq<Byte>)
    ensures var end := WalkEnd(Nflog, data);
            end <= |data| &&
            (end + 2 <= |data| ==>
               var low: int, high: int := data[end], data[end + 1];
               low + 256 * high == 0 || end + (low + 256 * high + 3) / 4 * 4 > |data|)
  {
    EndIsNoRecord(Nflog, data);
    var end := WalkEnd(Nflog, data);
    if end + 2 <= |data| {
      NflogRecord(data, end);
    }
  }

  lemma NflogRecord(data: seq<Byte>, pos: nat)
    requires pos + 2 <= |data|
    ensures var low: int, high: int := data[pos], data[pos + 1];
            var n := low + 256 * high;
            IsRecord(Nflog, data, pos) <==> n != 0 && pos + (n + 3) / 4 * 4 <= |data|
  {
    var n := Word16(data[pos], data[pos + 1]);
    AlignToFour(n);
    RoundUpZero(n);
  }

  lemma RoundUpZero(n: nat)
    ensures (n + 3) / 4 * 4 == 0 <==> n == 0
  {
  }

  class TLVRecordReader {
    const kind: Kind
    /** m_RecordCount; None is the value size_t(-1). */
    var recordCount: Option<int>

    constructor (kind: Kind)
      ensures this.kind == kind && recordCount == None
    {
      this.kind := kind;
      recordCount := None;
    }

    /** The cache agrees with a stream: it is empty, or holds the number of its records. */
    ghost predicate AgreesWith(data: seq<Byte>)
      reads this
    {
      recordCount.Some? ==> recordCount.value == |Walk(kind, data)|
    }

    /** The first record of a type, or None when the walk meets none. */
    method GetTLVRecord(recordType: nat, data: seq<Byte>) returns (r: Option<nat>)
      ensures r.None? ==> NoneOfType(kind, data, Walk(kind, data), recordType)
      ensures r.Some? ==> IsRecord(kind, data, r.value) && TypeAt(kind, data, r.value) == recordType
      ensures r.Some? ==> exists i :: 0 <= i < |Walk(kind, data)| && Walk(kind, data)[i] == r.value
                                      && NoneOfType(kind, data, Walk(kind, data)[..i], recordType)
    {
      FirstIsRecord(kind, data);
      r := First(kind, data);
      ghost var w := Walk(kind, data);
      ghost var i := 0;
      while r.Some?
        invariant i <= |w|
        invariant r.Some? ==> IsRecord(kind, data, r.value)
        invariant w[i..] == WalkFrom(kind, data, r)
        invariant NoneOfType(kind, data, w[..i], recordType)
        decreases |w| - i
      {
        assert w[i..][0] == r.value;
        if TypeAt(kind, data, r.value) == recordType {
          return;
        }
        NextIsRecord(kind, data, r.value);
        r := Next(kind, data, r.value);
        assert w[i + 1..] == w[i..][1..];
        assert w[..i + 1] == w[..i] + [w[i]];
        i := i + 1;
      }
      assert w[..i] == w;
    }

    /** The number of records, counted once and then remembered. */
    method GetTLVRecordCount(data: seq<Byte>) returns (count: int)
      requires AgreesWith(data)
      modifies this
      ensures count == |Walk(kind, data)| && recordCount == Some(count)
    {
      if recordCount.Some? {
        return recordCount.value;
      }
      count := 0;
      FirstIsRecord(kind, data);
      var curRec := First(kind, data);
      while curRec.Some?
        invariant curRec.Some? ==> IsRecord(kind, data, curRec.value)
        invariant count + |WalkFrom(kind, data, curRec)| == |Walk(kind, data)|
        decreases |WalkFrom(kind, data, curRec)|
      {
        count := count + 1;
        NextIsRecord(kind, data, curRec.value);
        curRec := Next(kind, data, curRec.value);
      }
      recordCount := Some(count);
    }

    /** Keeps the cache right across a change of the stream, when told the true difference. */
    method ChangeTLVRecordCount(changedBy: int, ghost before: seq<Byte>, ghost after: seq<Byte>)
      requires AgreesWith(before) && |Walk(kind, after)| == |Walk(kind, before)| + changedBy
      modifies this
      ensures AgreesWith(after) && (recordCount.Some? <==> old(recordCount).Some?)
    {
      if recordCount.Some? {
        recordCount := Some(recordCount.value + changedBy);
      }
    }
  }
}
