/**
  ASN.1 records (Asn1Codec.h) with the identifier and length octets of sections 8.1.2 and 8.1.3 of
  ITU-T X.690: encoding, decoding, and the constructor that copies its sub-records through both.
 */
module Asn1 {
  import opened Wrappers
  import opened Bytes
  import opened Positional

  /** Fields of a record. A tag class is 0 to 3; a tag type below 31 fits the single identifier octet. */
  datatype Record =
    | Primitive(tagClass: int, tagType: int, value: seq<Byte>)
    | Constructed(tagClass: int, tagType: int, subRecords: seq<Record>)

  /** Lengths are kept in a size_t. */
  const SIZE_LIMIT: nat := 0x1_0000_0000_0000_0000

  predicate TagOk(r: Record) {
    0 <= r.tagClass < 4 && 0 <= r.tagType < 31
  }

  ghost predicate AllTagsOk(r: Record)
    decreases r, 1
  {
    TagOk(r) && (r.Constructed? ==> TagsOk(r.subRecords))
  }

  ghost predicate TagsOk(rs: seq<Record>)
    decreases rs, 0
  {
    rs == [] || (AllTagsOk(rs[0]) && TagsOk(rs[1..]))
  }

  // ---------- tag and length ----------

  function EncodeTag(r: Record): Byte
    requires TagOk(r)
  {
    r.tagClass * 64 + (if r.Constructed? then 32 else 0) + r.tagType
  }

  /** n in base 256, most significant octet first. */
  function Octets(n: nat): seq<Byte> {
    if n < 256 then [n] else Octets(n / 256) + [n % 256]
  }

  function FromOctets(s: seq<Byte>): nat {
    if s == [] then 0 else FromOctets(s[..|s| - 1]) * 256 + s[|s| - 1]
  }

  lemma {:induction false} OctetsRoundTrip(n: nat)
    ensures FromOctets(Octets(n)) == n
  {
    var s := Octets(n);
    if n < 256 {
      assert FromOctets([n]) == FromOctets([]) * 256 + n;
    } else {
      OctetsRoundTrip(n / 256);
      assert s[..|s| - 1] == Octets(n / 256);
    }
  }

  lemma {:induction false} OctetsCount(n: nat, k: nat)
    requires k > 0
    ensures |Octets(n)| <= k <==> n < Power(256, k)
    ensures |Octets(n)| > 0
  {
    if n >= 256 && k > 1 {
      OctetsCount(n / 256, k - 1);
      DivBelow(n, Power(256, k - 1));
    } else if n >= 256 {
      OctetsCount(n / 256, 1);
      assert Power(256, 1) == 256 * Power(256, 0);
    } else if k > 1 {
      PowerGrows(k);
    }
  }

  lemma DivBelow(n: nat, p: nat)
    ensures n / 256 < p <==> n < 256 * p
  {
  }

  lemma {:induction false} PowerGrows(k: nat)
    requires k > 0
    ensures Power(256, k) >= 256
  {
    if k > 1 {
      PowerGrows(k - 1);
    } else {
      assert Power(256, 1) == 256 * Power(256, 0);
    }
  }

  /** The octets are the digits of n in base 256, most significant first and the first not zero. */
  lemma {:induction false} OctetsAre(n: nat, i: nat)
    requires i < |Octets(n)|
    ensures Octets(n)[i] == n / Power(256, |Octets(n)| - 1 - i) % 256
    ensures n > 0 ==> Octets(n)[0] != 0
    decreases n
  {
    if n >= 256 {
      var front := Octets(n / 256);
      OctetsAre(n / 256, if i < |front| then i else 0);
      assert Octets(n)[0] == front[0];
      if i < |front| {
        assert Octets(n)[i] == front[i];
        HigherDigit(n, 256, |front| - 1 - i);
      } else {
        OnesDigit(n, 256);
      }
    } else {
      OnesDigit(n, 256);
    }
  }

  /** And so are octets the digits of what is read from them. */
  lemma {:induction false} FromOctetsAre(s: seq<Byte>, i: nat)
    requires i < |s|
    ensures s[i] == FromOctets(s) / Power(256, |s| - 1 - i) % 256
    ensures FromOctets(s) < Power(256, |s|)
    decreases |s|
  {
    var front := s[..|s| - 1];
    var n := FromOctets(s);
    QuotientUnique(n, FromOctets(front), 256);
    if |s| > 1 {
      FromOctetsAre(front, if i < |front| then i else 0);
    } else {
      assert FromOctets(front) == 0 && Power(256, 1) == 256 * Power(256, 0);
    }
    if i < |front| {
      HigherDigit(n, 256, |front| - 1 - i);
    } else {
      OnesDigit(n, 256);
    }
  }

  lemma SizeHasEightOctets(n: nat)
    requires n < SIZE_LIMIT
    ensures |Octets(n)| <= 8
  {
    assert Power(256, 1) == 256;
    assert Power(256, 2) == 256 * Power(256, 1);
    assert Power(256, 3) == 256 * Power(256, 2);
    assert Power(256, 4) == 256 * Power(256, 3);
    assert Power(256, 5) == 256 * Power(256, 4);
    assert Power(256, 6) == 256 * Power(256, 5);
    assert Power(256, 7) == 256 * Power(256, 6);
    assert Power(256, 8) == 256 * Power(256, 7);
    OctetsCount(n, 8);
  }

  /** Short form below 128, else a count of length octets with the high bit set, and the octets. */
  function EncodeLength(n: nat): (s: seq<Byte>)
    requires n < SIZE_LIMIT
    ensures |s| > 0
  {
    if n < 128 then [n]
    else
      SizeHasEightOctets(n);
      [128 + |Octets(n)|] + Octets(n)
  }

  datatype DecodeError = Truncated

  /** The length and the number of octets it took. */
  function DecodeLength(s: seq<Byte>): Result<(nat, nat), DecodeError> {
    if s == [] then Err(Truncated)
    else if s[0] < 128 then Ok((s[0], 1))
    else if |s| < 1 + (s[0] - 128) then Err(Truncated)
    else Ok((FromOctets(s[1..1 + (s[0] - 128)]), 1 + (s[0] - 128)))
  }

  lemma LengthRoundTrip(n: nat, rest: seq<Byte>)
    requires n < SIZE_LIMIT
    ensures DecodeLength(EncodeLength(n) + rest) == Ok((n, |EncodeLength(n)|))
  {
    var s := EncodeLength(n) + rest;
    if n >= 128 {
      SizeHasEightOctets(n);
      OctetsRoundTrip(n);
      assert s[1..1 + |Octets(n)|] == Octets(n);
    }
  }

  /** The length takes at most two octets in all exactly when it is below 256. */
  lemma LengthOfLength(n: nat)
    requires n < SIZE_LIMIT
    ensures |EncodeLength(n)| == (if n < 128 then 1 else 2) <==> n < 256
  {
    OctetsCount(n, 1);
    assert Power(256, 1) == 256 * Power(256, 0);
  }

  // ---------- records ----------

  /** The octets of a record, when every length in it fits a size_t. */
  function Encode(r: Record): Option<seq<Byte>>
    decreases r, 1
  {
    var v := if r.Primitive? then Some(r.value) else EncodeAll(r.subRecords);
    if v.None? || |v.value| >= SIZE_LIMIT || !TagOk(r) then None
    else Some([EncodeTag(r)] + EncodeLength(|v.value|) + v.value)
  }

  function EncodeAll(rs: seq<Record>): Option<seq<Byte>>
    decreases rs, 0
  {
    if rs == [] then Some([])
    else
      var first := Encode(rs[0]);
      var rest := EncodeAll(rs[1..]);
      if first.None? || rest.None? then None else Some(first.value + rest.value)
  }

  /** A decoded record and the number of octets it took. */
  function Decode(s: seq<Byte>): (d: Result<(Record, nat), DecodeError>)
    ensures d.Ok? ==> 2 <= d.value.1 <= |s|
    decreases |s|, 1
  {
    if s == [] then Err(Truncated)
    else
      var len := DecodeLength(s[1..]);
      if len.Err? then Err(Truncated)
      else
        var start := 1 + len.value.1;
        var end := start + len.value.0;
        if end > |s| then Err(Truncated)
        else if (s[0] / 32) % 2 == 0 then Ok((Primitive(s[0] / 64, s[0] % 32, s[start..end]), end))
        else
          var subs := DecodeAll(s[start..end]);
          if subs.Err? then Err(Truncated)
          else Ok((Constructed(s[0] / 64, s[0] % 32, subs.value), end))
  }

  /** Records one after the other until the octets are used up. */
  function DecodeAll(s: seq<Byte>): Result<seq<Record>, DecodeError>
    decreases |s|, 2
  {
    if s == [] then Ok([])
    else
      var first := Decode(s);
      if first.Err? then Err(Truncated)
      else
        var rest := DecodeAll(s[first.value.1..]);
        if rest.Err? then Err(Truncated) else Ok([first.value.0] + rest.value)
  }

  lemma TagRoundTrip(r: Record)
    requires TagOk(r)
    ensures var b := EncodeTag(r);
            b / 64 == r.tagClass && b % 32 == r.tagType && ((b / 32) % 2 == 1 <==> r.Constructed?)
  {
    var b := EncodeTag(r);
    var c := if r.Constructed? then 1 else 0;
    assert b / 32 == r.tagClass * 2 + c;
  }

  function Frame(tag: Byte, v: seq<Byte>): seq<Byte>
    requires |v| < SIZE_LIMIT
  {
    [tag] + EncodeLength(|v|) + v
  }

  lemma DecodeFrame(tag: Byte, v: seq<Byte>, rest: seq<Byte>)
    requires |v| < SIZE_LIMIT
    ensures var s := Frame(tag, v) + rest;
            var n := |EncodeLength(|v|)|;
            && |s| >= 1 + n + |v| == |Frame(tag, v)|
            && s[0] == tag
            && DecodeLength(s[1..]) == Ok((|v|, n))
            && s[1 + n..1 + n + |v|] == v
  {
    var len := EncodeLength(|v|);
    var s := Frame(tag, v) + rest;
    LengthRoundTrip(|v|, v + rest);
    assert s == [tag] + (len + (v + rest));
    assert s[1..] == len + (v + rest);
    assert s == ([tag] + len) + v + rest;
    Slice([tag] + len, v, rest);
  }

  /** What encoding is, as a frame around the value. */
  lemma EncodeIsFrame(r: Record, v: seq<Byte>)
    requires Encode(r).Some?
    requires if r.Primitive? then v == r.value else EncodeAll(r.subRecords) == Some(v)
    ensures TagOk(r) && |v| < SIZE_LIMIT && Encode(r).value == Frame(EncodeTag(r), v)
  {
  }

  /** What decoding does with a frame. */
  lemma DecodeOfFrame(tag: Byte, v: seq<Byte>, rest: seq<Byte>)
    requires |v| < SIZE_LIMIT
    ensures Decode(Frame(tag, v) + rest) ==
            if (tag / 32) % 2 == 0 then Ok((Primitive(tag / 64, tag % 32, v), |Frame(tag, v)|))
            else if DecodeAll(v).Err? then Err(Truncated)
            else Ok((Constructed(tag / 64, tag % 32, DecodeAll(v).value), |Frame(tag, v)|))
  {
    DecodeFrame(tag, v, rest);
  }

  /** Decoding takes back exactly one encoded record, whatever follows it. */
  lemma {:induction false} RoundTrip(r: Record, rest: seq<Byte>)
    requires Encode(r).Some?
    ensures Decode(Encode(r).value + rest) == Ok((r, |Encode(r).value|))
    decreases r, 1
  {
    var v := if r.Primitive? then r.value else EncodeAll(r.subRecords).value;
    EncodeIsFrame(r, v);
    DecodeOfFrame(EncodeTag(r), v, rest);
    TagRoundTrip(r);
    if r.Constructed? {
      RoundTripAll(r.subRecords);
    }
  }

  lemma {:induction false} RoundTripAll(rs: seq<Record>)
    requires EncodeAll(rs).Some?
    ensures DecodeAll(EncodeAll(rs).value) == Ok(rs)
    decreases rs, 0
  {
    if rs != [] {
      var first := Encode(rs[0]).value;
      var rest := EncodeAll(rs[1..]).value;
      RoundTrip(rs[0], rest);
      RoundTripAll(rs[1..]);
      assert (first + rest)[|first|..] == rest;
      assert [rs[0]] + rs[1..] == rs;
    }
  }

  /** The octets of a record's value. */
  function ValueOctets(r: Record): Option<seq<Byte>> {
    if r.Primitive? then Some(r.value) else EncodeAll(r.subRecords)
  }

  lemma LengthOctets(n: nat, i: nat)
    requires 128 <= n < SIZE_LIMIT
    ensures var l := EncodeLength(n);
            var k := |l| - 1;
            && 0 < k <= 8 && l[0] == 128 + k && n < Power(256, k) && l[1] != 0
            && (i < k ==> l[1 + i] == n / Power(256, k - 1 - i) % 256)
  {
    SizeHasEightOctets(n);
    var o := Octets(n);
    OctetsCount(n, |o|);
    OctetsAre(n, if i < |o| then i else 0);
    assert EncodeLength(n)[1] == o[0];
    assert i < |o| ==> EncodeLength(n)[1 + i] == o[i];
  }

  lemma LengthIsRead(s: seq<Byte>, i: nat)
    requires DecodeLength(s).Ok? && s[0] > 128
    ensures var (n, size) := DecodeLength(s).value;
            var k := s[0] - 128;
            && size == 1 + k <= |s| && n < Power(256, k)
            && (i < k ==> s[1 + i] == n / Power(256, k - 1 - i) % 256)
  {
    var o := s[1..1 + (s[0] - 128)];
    FromOctetsAre(o, if i < |o| then i else 0);
  }

  lemma FrameParts(tag: Byte, v: seq<Byte>)
    requires |v| < SIZE_LIMIT
    ensures var e, l := Frame(tag, v), EncodeLength(|v|);
            && |e| == 1 + |l| + |v| && e[0] == tag && e[1 + |l|..] == v
            && forall i :: 0 <= i < |l| ==> l[i] == e[1 + i]
  {
  }

  lemma FrameOctets(tag: Byte, v: seq<Byte>, i: nat)
    requires |v| < SIZE_LIMIT
    ensures var e := Frame(tag, v);
            && |e| >= 2 && e[0] == tag
            && (|v| < 128 ==> e[1] == |v| && e[2..] == v)
            && (|v| >= 128 ==>
                  var k := e[1] - 128;
                  && 0 < k <= 8 && |e| == 2 + k + |v| && e[2 + k..] == v
                  && e[2] != 0 && |v| < Power(256, k)
                  && (i < k ==> e[2 + i] == |v| / Power(256, k - 1 - i) % 256))
  {
    var e, l := Frame(tag, v), EncodeLength(|v|);
    FrameParts(tag, v);
    assert e[1] == l[0];
    if |v| >= 128 {
      LengthOctets(|v|, i);
      assert e[2] == l[1];
      assert i < |l| - 1 ==> e[2 + i] == l[1 + i];
    }
  }

  /**
    The encoded octets: class, form and tag number in the bits of the first; the length in one octet if it
    is below 128, else the count of its octets with the high bit set and then these, most significant
    first and the first not zero (section 8.1.3.5 of ITU-T X.690); then the value.
   */
  lemma {:induction false} EncodedOctets(r: Record, i: nat)
    requires Encode(r).Some?
    ensures ValueOctets(r).Some?
    ensures var e, v := Encode(r).value, ValueOctets(r).value;
            && |e| >= 2
            && e[0] == r.tagClass * 64 + (if r.Constructed? then 32 else 0) + r.tagType
            && (|v| < 128 ==> e[1] == |v| && e[2..] == v)
            && (|v| >= 128 ==>
                  var k := e[1] - 128;
                  && 0 < k <= 8 && |e| == 2 + k + |v| && e[2 + k..] == v
                  && e[2] != 0 && |v| < Power(256, k)
                  && (i < k ==> e[2 + i] == |v| / Power(256, k - 1 - i) % 256))
  {
    var v := ValueOctets(r).value;
    EncodeIsFrame(r, v);
    FrameOctets(EncodeTag(r), v, i);
  }

  lemma {:induction false} DecodeParts(s: seq<Byte>)
    requires Decode(s).Ok?
    ensures |s| >= 2 && DecodeLength(s[1..]).Ok?
    ensures var (r, n) := Decode(s).value;
            var (len, size) := DecodeLength(s[1..]).value;
            && n == 1 + size + len <= |s|
            && r.tagClass == s[0] / 64 && r.tagType == s[0] % 32 && (r.Constructed? <==> s[0] / 32 % 2 == 1)
            && (r.Primitive? ==> r.value == s[1 + size..n])
            && (r.Constructed? ==> DecodeAll(s[1 + size..n]) == Ok(r.subRecords))
  {
  }

  /** What any octets that decode say: the bits of the first, and a length read most significant octet first. */
  lemma {:induction false} DecodedOctets(s: seq<Byte>, i: nat)
    requires Decode(s).Ok?
    ensures var (r, n) := Decode(s).value;
            var k := if s[1] < 128 then 0 else s[1] - 128;
            && 2 + k <= n <= |s|
            && r.tagClass == s[0] / 64 && r.tagType == s[0] % 32 && (r.Constructed? <==> s[0] / 32 % 2 == 1)
            && (s[1] < 128 ==> n == 2 + s[1])
            && (s[1] > 128 ==> n - 2 - k < Power(256, k))
            && (i < k ==> s[2 + i] == (n - 2 - k) / Power(256, k - 1 - i) % 256)
            && (r.Primitive? ==> r.value == s[2 + k..n])
            && (r.Constructed? ==> DecodeAll(s[2 + k..n]) == Ok(r.subRecords))
  {
    DecodeParts(s);
    var t := s[1..];
    assert t[0] == s[1];
    if t[0] > 128 {
      LengthIsRead(t, i);
      assert i < t[0] - 128 ==> t[1 + i] == s[2 + i];
    }
  }

  /** Different records never share an encoding, and no encoding is the beginning of another's. */
  lemma PrefixFree(q: Record, r: Record, rest: seq<Byte>)
    requires Encode(q).Some? && Encode(r).Some? && Encode(q).value == Encode(r).value + rest
    ensures q == r && rest == []
  {
    RoundTrip(q, []);
    RoundTrip(r, rest);
    assert Encode(q).value + [] == Encode(q).value;
  }

  /** Octets that a value length takes; for lengths a size_t can hold, those of EncodeLength. */
  function LengthSize(n: nat): nat {
    if n < 128 then 1 else 1 + |Octets(n)|
  }

  function ValueSize(r: Record): nat
    decreases r, 1
  {
    if r.Primitive? then |r.value| else TotalSize(r.subRecords)
  }

  function TotalSize(rs: seq<Record>): nat
    decreases rs, 0
  {
    if rs == [] then 0 else 1 + LengthSize(ValueSize(rs[0])) + ValueSize(rs[0]) + TotalSize(rs[1..])
  }

  /** A tree can be encoded exactly when its tags are legal and its value's size fits a size_t. */
  lemma {:induction false} EncodableExactly(r: Record)
    ensures Encode(r).Some? <==> AllTagsOk(r) && ValueSize(r) < 0x1_0000_0000_0000_0000
    ensures Encode(r).Some? ==> |Encode(r).value| == 1 + LengthSize(ValueSize(r)) + ValueSize(r)
    decreases r, 1
  {
    if r.Constructed? {
      EncodableAllExactly(r.subRecords);
    }
  }

  lemma {:induction false} EncodableAllExactly(rs: seq<Record>)
    ensures EncodeAll(rs).Some? ==> TagsOk(rs) && |EncodeAll(rs).value| == TotalSize(rs)
    ensures TagsOk(rs) && TotalSize(rs) < SIZE_LIMIT ==> EncodeAll(rs).Some?
    decreases rs, 0
  {
    if rs != [] {
      EncodableExactly(rs[0]);
      EncodableAllExactly(rs[1..]);
    }
  }

  // ---------- the constructor of constructed records ----------

  /** m_TotalLength as the constructor computes it: one tag octet, and one or two for the length. */
  function TotalLength(valueLength: nat): nat {
    valueLength + 1 + if valueLength < 128 then 1 else 2
  }

  /** The length field is right exactly when the value is shorter than 256 octets. */
  lemma TotalLengthIsExact(r: Record)
    requires r.Constructed? && Encode(r).Some?
    ensures var valueLength := |EncodeAll(r.subRecords).value|;
            TotalLength(valueLength) == |Encode(r).value| <==> valueLength < 256
  {
    LengthOfLength(|EncodeAll(r.subRecords).value|);
  }

  /** A sequence that holds one string of 253 zero octets. */
  const LONG_RECORD := Constructed(0, 16, [Primitive(0, 4, seq(253, i => 0))])

  /** Its value takes 256 octets, and the field is one too small. */
  lemma TotalLengthTooSmall()
    ensures Encode(LONG_RECORD).Some? && |EncodeAll(LONG_RECORD.subRecords).value| == 256
    ensures TotalLength(256) == 259 && |Encode(LONG_RECORD).value| == 260
  {
    var p := LONG_RECORD.subRecords[0];
    var content := p.value;
    OctetsCount(253, 1);
    OctetsCount(256, 1);
    OctetsCount(256, 2);
    assert Power(256, 1) == 256 * Power(256, 0);
    assert Encode(p).value == [EncodeTag(p)] + EncodeLength(253) + content;
    assert [p][1..] == [] && EncodeAll([p][1..]) == Some([]);
    assert EncodeAll([p]) == Some(Encode(p).value + []);
    assert |EncodeAll([p]).value| == 256;
    SizeHasEightOctets(256);
    assert |EncodeLength(256)| == 3;
  }

  lemma {:induction false} EncodeAllAppend(rs: seq<Record>, r: Record)
    requires EncodeAll(rs).Some? && Encode(r).Some?
    ensures EncodeAll(rs + [r]) == Some(EncodeAll(rs).value + Encode(r).value)
  {
    if rs == [] {
      assert rs + [r] == [r] && [r][1..] == [] && EncodeAll([r][1..]) == Some([]);
      assert Encode(r).value + [] == [] + Encode(r).value;
    } else {
      EncodeAllAppend(rs[1..], r);
      assert (rs + [r])[1..] == rs[1..] + [r];
      Associative(Encode(rs[0]).value, EncodeAll(rs[1..]).value, Encode(r).value);
    }
  }

  class Asn1ConstructedRecord {
    var tagClass: int
    var tagType: int
    var subRecords: seq<Record>
    var valueLength: nat
    var totalLength: nat

    /**
      Copies every sub-record by encoding and decoding it. The copies are faithful, the value
      length is the size of the encoded sub-records, and the total length is the size of the
      encoded record exactly when the value is shorter than 256 octets.
     */
    constructor (tagClass: int, tagType: int, records: seq<Record>)
      requires 0 <= tagClass < 4 && 0 <= tagType < 256
      requires forall i :: 0 <= i < |records| ==> Encode(records[i]).Some?
      ensures this.tagClass == tagClass && this.tagType == tagType && subRecords == records
      ensures EncodeAll(records).Some? && valueLength == |EncodeAll(records).value|
      ensures totalLength == valueLength + if valueLength < 128 then 2 else 3
      ensures tagType < 31 && valueLength < 0x1_0000_0000_0000_0000 ==>
                var e := Encode(Constructed(tagClass, tagType, records));
                e.Some? && (totalLength == |e.value| <==> valueLength < 256)
    {
      this.tagClass := tagClass;
      this.tagType := tagType;
      subRecords := [];
      new;
      var recordValueLength := 0;
      for i := 0 to |records|
        invariant this.tagClass == tagClass && this.tagType == tagType
        invariant subRecords == records[..i]
        invariant EncodeAll(records[..i]).Some? && recordValueLength == |EncodeAll(records[..i]).value|
      {
        var encodedRecord := Encode(records[i]).value;
        RoundTrip(records[i], []);
        assert encodedRecord + [] == encodedRecord;
        var copyRecord := Decode(encodedRecord).value.0;
        subRecords := subRecords + [copyRecord];
        recordValueLength := recordValueLength + |encodedRecord|;
        EncodeAllAppend(records[..i], records[i]);
        assert records[..i + 1] == records[..i] + [records[i]];
      }
      assert records[..|records|] == records;
      valueLength := recordValueLength;
      totalLength := recordValueLength + 1 + if valueLength < 128 then 1 else 2;
      if tagType < 31 && valueLength < SIZE_LIMIT {
        TotalLengthIsExact(Constructed(tagClass, tagType, records));
      }
    }
  }
}
