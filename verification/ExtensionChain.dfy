/**
  IPv6 extension headers as bytes (IPv6Extensions.h; section 4 of RFC 8200): a chain built by
  next-header fields, and the parser that follows it.
 */
module ExtensionChain {
  import opened Wrappers
  import opened Bytes

  datatype ExtensionType = HopByHop | Routing | Fragmentation | AuthenticationHdr | Destination

  /** sizeof(ip6_hdr), and the place of its next-header field. */
  const HEADER_LEN := 40
  const NEXT_HEADER := 6

  function Code(t: ExtensionType): Byte {
    match t
    case HopByHop => 0
    case Routing => 43
    case Fragmentation => 44
    case AuthenticationHdr => 51
    case Destination => 60
  }

  function TypeOf(code: Byte): Option<ExtensionType> {
    if code == 0 then Some(HopByHop)
    else if code == 43 then Some(Routing)
    else if code == 44 then Some(Fragmentation)
    else if code == 51 then Some(AuthenticationHdr)
    else if code == 60 then Some(Destination)
    else None
  }

  lemma CodeRoundTrip(t: ExtensionType)
    ensures TypeOf(Code(t)) == Some(t)
  {
  }

  /** Length in bytes from the length field: 8-byte units, but 4-byte ones for the authentication header. */
  function ExtensionLen(t: ExtensionType, headerLen: Byte): (n: nat)
    ensures n >= 8
  {
    if t == AuthenticationHdr then 4 * (headerLen + 2) else 8 * (headerLen + 1)
  }

  /** An extension to be added: its type and its bytes, next-header field first, length field second. */
  datatype Extension = Extension(extType: ExtensionType, content: seq<Byte>) {
    predicate WellFormed() {
      |content| >= 2 && |content| == ExtensionLen(extType, content[1])
    }
  }

  ghost predicate AllWellFormed(exts: seq<Extension>) {
    forall i :: 0 <= i < |exts| ==> exts[i].WellFormed()
  }

  /** What the field before these extensions announces; u is the upper-layer protocol. */
  function First(exts: seq<Extension>, u: Byte): Byte {
    if exts == [] then u else Code(exts[0].extType)
  }

  function Chain(exts: seq<Extension>, u: Byte): seq<Byte>
    requires AllWellFormed(exts)
  {
    if exts == [] then [] else exts[0].content[0 := First(exts[1..], u)] + Chain(exts[1..], u)
  }

  function TotalLen(exts: seq<Extension>): nat {
    if exts == [] then 0 else TotalLen(exts[..|exts| - 1]) + |exts[|exts| - 1].content|
  }

  function Layout(header: seq<Byte>, exts: seq<Extension>, u: Byte, payload: seq<Byte>): seq<Byte>
    requires |header| == HEADER_LEN && AllWellFormed(exts)
  {
    header[NEXT_HEADER := First(exts, u)] + Chain(exts, u) + payload
  }

  lemma {:induction false} ChainAppend(exts: seq<Extension>, e: Extension, u: Byte)
    requires AllWellFormed(exts) && e.WellFormed()
    ensures AllWellFormed(exts + [e])
    ensures Chain(exts + [e], u) == Chain(exts, Code(e.extType)) + e.content[0 := u]
    ensures exts != [] ==> First(exts + [e], u) == First(exts, u)
  {
    if exts == [] {
      assert [e][1..] == [];
      assert [] + [e] == [e];
      assert [] + e.content[0 := u] == e.content[0 := u] == e.content[0 := u] + [];
    } else {
      var rest := exts[1..];
      assert (exts + [e])[1..] == rest + [e];
      ChainAppend(rest, e, u);
      var next := First(rest, Code(e.extType));
      assert First(rest + [e], u) == next;
      Associative(exts[0].content[0 := next], Chain(rest, Code(e.extType)), e.content[0 := u]);
    }
  }

  lemma {:induction false} ChainLength(exts: seq<Extension>, u: Byte)
    requires AllWellFormed(exts)
    ensures |Chain(exts, u)| == TotalLen(exts)
  {
    if exts != [] {
      var s := exts[..|exts| - 1];
      var e := exts[|exts| - 1];
      assert exts == s + [e];
      ChainAppend(s, e, u);
      ChainLength(s, Code(e.extType));
    }
  }

  /** The upper-layer protocol of a non-empty chain stands in the last extension's first byte. */
  lemma ChainLastByte(exts: seq<Extension>, u: Byte, v: Byte)
    requires AllWellFormed(exts) && exts != []
    ensures var at := TotalLen(exts[..|exts| - 1]);
            && at < |Chain(exts, u)|
            && Chain(exts, u)[at] == u
            && Chain(exts, v) == Chain(exts, u)[at := v]
  {
    var s := exts[..|exts| - 1];
    var e := exts[|exts| - 1];
    assert exts == s + [e];
    ChainAppend(s, e, u);
    ChainAppend(s, e, v);
    ChainLength(s, Code(e.extType));
    HeadBehind(Chain(s, Code(e.extType)), e.content, u, v);
  }

  lemma HeadBehind(a: seq<Byte>, content: seq<Byte>, u: Byte, v: Byte)
    requires content != []
    ensures (a + content[0 := u])[|a|] == u
    ensures a + content[0 := v] == (a + content[0 := u])[|a| := v]
  {
    UpdateRight(a, content[0 := u], 0, v);
  }

  /** `content` put in at offset `at`: extendLayer, and the copy of the extension. */
  function Inserted(data: seq<Byte>, at: nat, content: seq<Byte>): seq<Byte>
    requires at <= |data|
  {
    data[..at] + content + data[at..]
  }

  lemma InsertedAndWritten(a: seq<Byte>, b: seq<Byte>, content: seq<Byte>, u: Byte, i: nat, v: Byte)
    requires |content| > 0 && i < |a|
    ensures Inserted(a + b, |a|, content)[|a| := u][i := v] == a[i := v] + content[0 := u] + b
  {
    assert (a + b)[..|a|] == a && (a + b)[|a|..] == b;
    UpdateRight(a, content, 0, u);
    UpdateLeft(a + content, b, |a|, u);
    UpdateLeft(a, content[0 := u], i, v);
    UpdateLeft(a + content[0 := u], b, i, v);
  }

  /** The two next-header writes of addExtension, with extensions already there. */
  lemma LinkBehindLast(header: seq<Byte>, exts: seq<Extension>, e: Extension, u: Byte, payload: seq<Byte>)
    requires |header| == HEADER_LEN && AllWellFormed(exts) && e.WellFormed() && exts != []
    ensures var at := HEADER_LEN + TotalLen(exts);
            var last := HEADER_LEN + TotalLen(exts[..|exts| - 1]);
            var data := Layout(header, exts, u, payload);
            && AllWellFormed(exts + [e])
            && last < at <= |data| && data[last] == u
            && Inserted(data, at, e.content)[at := u][last := Code(e.extType)] == Layout(header, exts + [e], u, payload)
  {
    var code := Code(e.extType);
    var last := TotalLen(exts[..|exts| - 1]);
    var h := header[NEXT_HEADER := First(exts, u)];
    var chain := Chain(exts, u);
    ChainLength(exts, u);
    ChainLastByte(exts, u, code);
    ChainAppend(exts, e, u);
    InsertedAndWritten(h + chain, payload, e.content, u, HEADER_LEN + last, code);
    UpdateRight(h, chain, last, code);
    Associative(h, Chain(exts, code), e.content[0 := u]);
  }

  /** The two next-header writes of addExtension on a bare header. */
  lemma LinkFirst(header: seq<Byte>, e: Extension, u: Byte, payload: seq<Byte>)
    requires |header| == HEADER_LEN && e.WellFormed()
    ensures var data := Layout(header, [], u, payload);
            && data[NEXT_HEADER] == u
            && Inserted(data, HEADER_LEN, e.content)[HEADER_LEN := u][NEXT_HEADER := Code(e.extType)]
               == Layout(header, [e], u, payload)
  {
    var h := header[NEXT_HEADER := u];
    assert h + [] == h;
    InsertedAndWritten(h, payload, e.content, u, NEXT_HEADER, Code(e.extType));
    assert Chain([e], u) == e.content[0 := u] + Chain([], u) == e.content[0 := u];
  }

  // ---------- the parser ----------

  datatype Found = Found(extType: ExtensionType, offset: nat, len: nat)

  datatype Parsed = Parsed(extensions: seq<Found>, upper: Byte, end: nat)

  /** Follows next-header bytes from `offset` while they name an extension and its two fixed bytes are there. */
  function Parse(data: seq<Byte>, offset: nat, next: Byte): Parsed
    decreases |data| - offset
  {
    if TypeOf(next).None? || offset + 2 > |data| then Parsed([], next, offset)
    else
      var t := TypeOf(next).value;
      var len := ExtensionLen(t, data[offset + 1]);
      var rest := Parse(data, offset + len, data[offset]);
      rest.(extensions := [Found(t, offset, len)] + rest.extensions)
  }

  /**
    What the parser finds, in octets: the i-th extension lies right behind the one before it, is there with its
    two fixed octets, is of the type that the octet in front of it names, and is as long as its second octet says.
   */
  lemma {:induction false} FoundOnTheWire(data: seq<Byte>, offset: nat, next: Byte, i: nat)
    requires i < |Parse(data, offset, next).extensions|
    ensures var found := Parse(data, offset, next).extensions;
            var at := found[i].offset;
            && at + 2 <= |data|
            && at == (if i == 0 then offset else found[i - 1].offset + found[i - 1].len)
            && (i > 0 ==> found[i - 1].offset < |data|)
            && var name := if i == 0 then next else data[found[i - 1].offset];
               && name == (match found[i].extType
                           case HopByHop => 0
                           case Routing => 43
                           case Fragmentation => 44
                           case AuthenticationHdr => 51
                           case Destination => 60)
               && var units: int := data[at + 1];
                  found[i].len == if name == 51 then 4 * (units + 2) else 8 * (units + 1)
    decreases i
  {
    var found := Parse(data, offset, next).extensions;
    if i > 0 {
      var len := found[0].len;
      assert Parse(data, offset + len, data[offset]).extensions == found[1..];
      FoundOnTheWire(data, offset + len, data[offset], i - 1);
    }
  }

  /** It stops at the end of what it found, where no extension is named or two octets are not there. */
  lemma {:induction false} StopsOnTheWire(data: seq<Byte>, offset: nat, next: Byte)
    ensures var p := Parse(data, offset, next);
            && (p.upper !in [0, 43, 44, 51, 60] || p.end + 2 > |data|)
            && (p.extensions == [] ==> p.end == offset && p.upper == next)
            && (p.extensions != [] ==>
                  var last := p.extensions[|p.extensions| - 1];
                  p.end == last.offset + last.len && last.offset < |data| && p.upper == data[last.offset])
    decreases |data| - offset
  {
    var p := Parse(data, offset, next);
    if p.extensions != [] {
      var len := p.extensions[0].len;
      var rest := Parse(data, offset + len, data[offset]);
      assert p.extensions == [p.extensions[0]] + rest.extensions;
      StopsOnTheWire(data, offset + len, data[offset]);
    }
  }

  /** Where the extensions lie: each begins where the one before it ends. */
  function Tiles(exts: seq<Extension>, offset: nat): seq<Found> {
    if exts == [] then []
    else [Found(exts[0].extType, offset, |exts[0].content|)] + Tiles(exts[1..], offset + |exts[0].content|)
  }

  function Prefixed(found: seq<Found>, p: Parsed): Parsed {
    p.(extensions := found + p.extensions)
  }

  lemma PrefixedTwice(a: seq<Found>, b: seq<Found>, p: Parsed)
    ensures Prefixed(a, Prefixed(b, p)) == Prefixed(a + b, p)
  {
    Associative(a, b, p.extensions);
  }

  /** One step of the parser over one extension. */
  lemma ParseOne(data: seq<Byte>, at: nat, e: Extension, next: Byte)
    requires e.WellFormed() && at + |e.content| <= |data|
    requires data[at..at + |e.content|] == e.content[0 := next]
    ensures Parse(data, at, Code(e.extType)) ==
            Prefixed([Found(e.extType, at, |e.content|)], Parse(data, at + |e.content|, next))
  {
    CodeRoundTrip(e.extType);
    var c := e.content[0 := next];
    assert data[at] == c[0] && data[at + 1] == c[1];
  }

  /** The bytes from `at` on spell out the chain. */
  ghost predicate ChainAt(data: seq<Byte>, at: nat, exts: seq<Extension>, u: Byte)
    decreases |exts|
  {
    exts == [] ||
    var n := |exts[0].content|;
    && 0 < n && at + n <= |data|
    && data[at..at + n] == exts[0].content[0 := First(exts[1..], u)]
    && ChainAt(data, at + n, exts[1..], u)
  }

  lemma {:induction false} ChainIsAt(data: seq<Byte>, at: nat, exts: seq<Extension>, u: Byte)
    requires AllWellFormed(exts) && at + |Chain(exts, u)| <= |data|
    requires data[at..at + |Chain(exts, u)|] == Chain(exts, u)
    ensures ChainAt(data, at, exts, u)
    decreases |exts|
  {
    if exts != [] {
      var c := exts[0].content[0 := First(exts[1..], u)];
      SliceSplit(data, at, c, Chain(exts[1..], u));
      ChainIsAt(data, at + |c|, exts[1..], u);
    }
  }

  lemma {:induction false} ParseChain(data: seq<Byte>, at: nat, exts: seq<Extension>, u: Byte, rest: Parsed)
    requires AllWellFormed(exts) && ChainAt(data, at, exts, u)
    requires rest == Parse(data, at + TotalLen(exts), u)
    ensures Parse(data, at, First(exts, u)) == Prefixed(Tiles(exts, at), rest)
    decreases |exts|
  {
    if exts != [] {
      var e := exts[0];
      var at' := at + |e.content|;
      TotalLenFront(exts);
      ParseChain(data, at', exts[1..], u, rest);
      ParseOne(data, at, e, First(exts[1..], u));
      PrefixedTwice([Found(e.extType, at, |e.content|)], Tiles(exts[1..], at'), rest);
    } else {
      assert [] + rest.extensions == rest.extensions;
    }
  }

  /**
    The parser undoes the builder: from the header's next-header field it finds exactly the added
    extensions, in order, at their places, and then goes on with whatever the upper-layer
    protocol number makes of the payload.
   */
  lemma ParserUndoesBuilder(header: seq<Byte>, exts: seq<Extension>, u: Byte, payload: seq<Byte>)
    requires |header| == HEADER_LEN && AllWellFormed(exts)
    ensures var data := Layout(header, exts, u, payload);
            Parse(data, HEADER_LEN, data[NEXT_HEADER]) ==
            Prefixed(Tiles(exts, HEADER_LEN), Parse(data, HEADER_LEN + TotalLen(exts), u))
  {
    ChainLength(exts, u);
    var data := Layout(header, exts, u, payload);
    Slice(header[NEXT_HEADER := First(exts, u)], Chain(exts, u), payload);
    ChainIsAt(data, HEADER_LEN, exts, u);
    ParseChain(data, HEADER_LEN, exts, u, Parse(data, HEADER_LEN + TotalLen(exts), u));
  }

  /**
    It finds nothing else, and ends at the upper-layer protocol at the end of the extensions, exactly
    when that protocol is not an extension number or the payload is too short for one.
   */
  lemma ExactRecovery(header: seq<Byte>, exts: seq<Extension>, u: Byte, payload: seq<Byte>)
    requires |header| == HEADER_LEN && AllWellFormed(exts)
    ensures var data := Layout(header, exts, u, payload);
            Parse(data, HEADER_LEN, data[NEXT_HEADER]) ==
            Parsed(Tiles(exts, HEADER_LEN), u, HEADER_LEN + TotalLen(exts))
            <==> u !in [0, 43, 44, 51, 60] || |payload| < 2
  {
    ParserUndoesBuilder(header, exts, u, payload);
    ChainLength(exts, u);
    var data := Layout(header, exts, u, payload);
    var rest := Parse(data, HEADER_LEN + TotalLen(exts), u);
    assert |data| == HEADER_LEN + TotalLen(exts) + |payload|;
    if TypeOf(u).Some? && |payload| >= 2 {
      assert |rest.extensions| > 0;
      assert |Tiles(exts, HEADER_LEN) + rest.extensions| > |Tiles(exts, HEADER_LEN)|;
    } else {
      assert Tiles(exts, HEADER_LEN) + [] == Tiles(exts, HEADER_LEN);
    }
  }

  /**
    What is written, in octets: octet 6 of the header, or the first octet of the extension before, holds the
    number of extension k, and the first octet of the last extension holds the upper-layer protocol.
   */
  lemma WrittenOnTheWire(header: seq<Byte>, exts: seq<Extension>, u: Byte, payload: seq<Byte>, k: nat)
    requires |header| == 40 && AllWellFormed(exts) && k <= |exts|
    ensures var data := Layout(header, exts, u, payload);
            var at := if k == 0 then 6 else 40 + TotalLen(exts[..k - 1]);
            && at < |data|
            && data[at] == if k == |exts| then u
                           else match exts[k].extType
                                case HopByHop => 0
                                case Routing => 43
                                case Fragmentation => 44
                                case AuthenticationHdr => 51
                                case Destination => 60
  {
    var data := Layout(header, exts, u, payload);
    if k > 0 {
      ContentPreserved(header, exts, u, payload, k - 1);
      var at := 40 + TotalLen(exts[..k - 1]);
      var n := |exts[k - 1].content|;
      assert data[at] == data[at..at + n][0];
      assert exts[k..] == [] <==> k == |exts|;
    }
  }

  /** Tile k starts after the lengths before it. */
  lemma {:induction false} TileAt(exts: seq<Extension>, offset: nat, k: nat)
    requires k < |exts|
    ensures |Tiles(exts, offset)| == |exts|
    ensures Tiles(exts, offset)[k] == Found(exts[k].extType, offset + TotalLen(exts[..k]), |exts[k].content|)
  {
    var next := offset + |exts[0].content|;
    if |exts| > 1 {
      TileAt(exts[1..], next, if k > 0 then k - 1 else 0);
    }
    if k > 0 {
      TotalLenFront(exts[..k]);
      assert exts[..k][1..] == exts[1..][..k - 1];
    }
  }

  lemma {:induction false} TotalLenFront(exts: seq<Extension>)
    requires exts != []
    ensures TotalLen(exts) == |exts[0].content| + TotalLen(exts[1..])
  {
    if |exts| > 1 {
      var s := exts[..|exts| - 1];
      TotalLenFront(s);
      assert s[1..] == exts[1..][..|exts| - 2];
      assert exts[1..][|exts| - 2] == exts[|exts| - 1];
    } else {
      assert exts[..0] == [] && exts[1..] == [];
    }
  }

  lemma {:induction false} ContentAt(data: seq<Byte>, at: nat, exts: seq<Extension>, u: Byte, k: nat)
    requires ChainAt(data, at, exts, u) && k < |exts|
    ensures var i := at + TotalLen(exts[..k]);
            var n := |exts[k].content|;
            0 < n && i + n <= |data| && data[i..i + n] == exts[k].content[0 := First(exts[k + 1..], u)]
    decreases k
  {
    if k > 0 {
      ContentAt(data, at + |exts[0].content|, exts[1..], u, k - 1);
      TotalLenFront(exts[..k]);
      assert exts[..k][1..] == exts[1..][..k - 1];
      assert exts[1..][k..] == exts[k + 1..];
    }
  }

  /**
    Nothing else is touched: header bytes other than the next-header field, the payload behind the
    extensions, and every byte of every extension other than its next-header field.
   */
  lemma BytesPreserved(header: seq<Byte>, exts: seq<Extension>, u: Byte, payload: seq<Byte>)
    requires |header| == HEADER_LEN && AllWellFormed(exts)
    ensures var data := Layout(header, exts, u, payload);
            && |data| == HEADER_LEN + TotalLen(exts) + |payload|
            && (forall i :: 0 <= i < HEADER_LEN && i != NEXT_HEADER ==> data[i] == header[i])
            && data[HEADER_LEN + TotalLen(exts)..] == payload
  {
    ChainLength(exts, u);
    Slice(header[NEXT_HEADER := First(exts, u)], Chain(exts, u), payload);
  }

  lemma ContentPreserved(header: seq<Byte>, exts: seq<Extension>, u: Byte, payload: seq<Byte>, k: nat)
    requires |header| == HEADER_LEN && AllWellFormed(exts) && k < |exts|
    ensures var data := Layout(header, exts, u, payload);
            var at := HEADER_LEN + TotalLen(exts[..k]);
            var n := |exts[k].content|;
            && 0 < n && at + n <= |data|
            && data[at..at + n] == exts[k].content[0 := First(exts[k + 1..], u)]
  {
    ChainLength(exts, u);
    Slice(header[NEXT_HEADER := First(exts, u)], Chain(exts, u), payload);
    ChainIsAt(Layout(header, exts, u, payload), HEADER_LEN, exts, u);
    ContentAt(Layout(header, exts, u, payload), HEADER_LEN, exts, u, k);
  }
}
