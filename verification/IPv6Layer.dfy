/**
  IPv6Layer (IPv6Layer.h) as an object: the packet bytes, the linked list of extension objects and
  the running length, kept in step by addExtension.
 */
module IPv6Layer {
  import opened Bytes
  import opened ExtensionChain

  /** An extension object: a view of the layer's bytes at its offset, and the next object. */
  class IPv6Extension {
    const extType: ExtensionType
    const offset: nat
    var nextHeader: IPv6Extension?

    constructor (extType: ExtensionType, offset: nat)
      ensures this.extType == extType && this.offset == offset && nextHeader == null
    {
      this.extType := extType;
      this.offset := offset;
      nextHeader := null;
    }
  }

  /** Each object stands for the extension of its position: its type, and the lengths before it. */
  ghost predicate PlacedOf(objects: seq<IPv6Extension>, exts: seq<Extension>) {
    && |objects| == |exts|
    && forall i {:trigger objects[i]} :: 0 <= i < |objects| ==>
         objects[i].extType == exts[i].extType && objects[i].offset == HEADER_LEN + TotalLen(exts[..i])
  }

  /** The first and last object and the links between them spell out `objects`. */
  ghost predicate LinkedOf(objects: seq<IPv6Extension>, first: IPv6Extension?, last: IPv6Extension?)
    reads objects
  {
    && (objects == [] ==> first == null && last == null)
    && (objects != [] ==> first == objects[0] && last == objects[|objects| - 1])
    && (objects != [] ==> objects[|objects| - 1].nextHeader == null)
    && (forall i {:trigger objects[i].nextHeader} :: 0 <= i < |objects| - 1 ==> objects[i].nextHeader == objects[i + 1])
    && (forall i, j :: 0 <= i < j < |objects| ==> objects[i] != objects[j])
  }

  lemma PlacedAppend(objects: seq<IPv6Extension>, exts: seq<Extension>, n: IPv6Extension, e: Extension)
    requires PlacedOf(objects, exts) && n.extType == e.extType && n.offset == HEADER_LEN + TotalLen(exts)
    ensures PlacedOf(objects + [n], exts + [e])
    ensures (exts + [e])[..|exts|] == exts
    ensures TotalLen(exts + [e]) == TotalLen(exts) + |e.content|
  {
    var all := exts + [e];
    assert all[..|exts|] == exts;
    forall i | 0 <= i < |exts|
      ensures all[..i] == exts[..i]
    {
    }
  }

  /**
    The two fields that adding e behind `exts` writes, as octets: octet 6 of the header, or the first octet of
    the extension before, holds the number of e, and the first octet of e the upper-layer protocol.
   */
  ghost predicate NumbersWritten(data: seq<Byte>, exts: seq<Extension>, e: Extension, u: Byte) {
    var at := if exts == [] then 6 else 40 + TotalLen(exts[..|exts| - 1]);
    && at < |data| && 40 + TotalLen(exts) < |data|
    && data[40 + TotalLen(exts)] == u
    && data[at] == match e.extType
                   case HopByHop => 0
                   case Routing => 43
                   case Fragmentation => 44
                   case AuthenticationHdr => 51
                   case Destination => 60
  }

  lemma AddingWrites(header: seq<Byte>, exts: seq<Extension>, e: Extension, u: Byte, payload: seq<Byte>)
    requires |header| == HEADER_LEN && AllWellFormed(exts + [e])
    ensures NumbersWritten(Layout(header, exts + [e], u, payload), exts, e, u)
  {
    var all := exts + [e];
    var n := |exts|;
    assert all[..n] == exts;
    assert n > 0 ==> all[..n - 1] == exts[..n - 1];
    WrittenOnTheWire(header, all, u, payload, n);
    WrittenOnTheWire(header, all, u, payload, n + 1);
  }

  class Layer {
    var data: seq<Byte>
    var firstExtension: IPv6Extension?
    var lastExtension: IPv6Extension?
    var extensionsLen: nat

    /** What the bytes mean: header, extensions in order, upper-layer protocol, and what follows. */
    ghost var header: seq<Byte>
    ghost var exts: seq<Extension>
    ghost var upper: Byte
    ghost var payload: seq<Byte>
    ghost var objects: seq<IPv6Extension>

    ghost predicate Valid()
      reads this, objects
    {
      && |header| == HEADER_LEN && AllWellFormed(exts)
      && data == Layout(header, exts, upper, payload)
      && extensionsLen == TotalLen(exts)
      && LinkedOf(objects, firstExtension, lastExtension) && PlacedOf(objects, exts)
    }

    /** A layer without extensions on some bytes of at least the header's length. */
    constructor (bytes: seq<Byte>)
      requires |bytes| >= HEADER_LEN
      ensures Valid() && data == bytes && exts == [] && objects == []
      ensures header == bytes[..HEADER_LEN] && upper == bytes[NEXT_HEADER] && payload == bytes[HEADER_LEN..]
    {
      data := bytes;
      firstExtension, lastExtension, extensionsLen := null, null, 0;
      header, exts, upper, payload, objects := bytes[..HEADER_LEN], [], bytes[NEXT_HEADER], bytes[HEADER_LEN..], [];
      new;
      assert header[NEXT_HEADER := upper] + [] + payload == bytes;
    }

    method GetHeaderLen() returns (n: nat)
      requires Valid()
      ensures n == 40 + TotalLen(exts) <= |data|
    {
      BytesPreserved(header, exts, upper, payload);
      n := HEADER_LEN + extensionsLen;
    }

    /** Links a new object behind the list. */
    method Link(newHeader: IPv6Extension)
      requires LinkedOf(objects, firstExtension, lastExtension) && newHeader !in objects && newHeader.nextHeader == null
      modifies this`firstExtension, this`lastExtension, this`objects, objects
      ensures LinkedOf(objects, firstExtension, lastExtension) && objects == old(objects) + [newHeader]
    {
      if firstExtension != null {
        lastExtension.nextHeader := newHeader;
        lastExtension := newHeader;
      } else {
        firstExtension := newHeader;
        lastExtension := newHeader;
      }
      objects := objects + [newHeader];
    }

    /** The bytes of addExtension: room is made, the extension is copied in, two fields are rewritten. */
    method Write(extensionHeader: Extension, offsetToAddHeader: nat)
      requires Valid() && extensionHeader.WellFormed() && offsetToAddHeader == HEADER_LEN + extensionsLen
      modifies this`data
      ensures AllWellFormed(exts + [extensionHeader])
      ensures data == Layout(header, exts + [extensionHeader], upper, payload)
    {
      BytesPreserved(header, exts, upper, payload);
      if firstExtension != null {
        assert exts[..|objects| - 1] == exts[..|exts| - 1];
        LinkBehindLast(header, exts, extensionHeader, upper, payload);
        WriteAt(extensionHeader, offsetToAddHeader, lastExtension.offset);
      } else {
        assert exts == [] && exts + [extensionHeader] == [extensionHeader];
        LinkFirst(header, extensionHeader, upper, payload);
        WriteAt(extensionHeader, offsetToAddHeader, NEXT_HEADER);
      }
    }

    /** The copied extension takes over the next-header field in front of it, which then names it. */
    method WriteAt(extensionHeader: Extension, at: nat, field: nat)
      requires extensionHeader.WellFormed() && field < at <= |data|
      modifies this`data
      ensures data == Inserted(old(data), at, extensionHeader.content)
                      [at := old(data)[field]][field := Code(extensionHeader.extType)]
    {
      data := Inserted(data, at, extensionHeader.content);
      data := data[at := data[field]];
      data := data[field := Code(extensionHeader.extType)];
    }

    /** The length field of the extension at an offset, as its object reads it. */
    method GetExtensionLen(e: IPv6Extension, ghost k: nat) returns (n: nat)
      requires |header| == HEADER_LEN && AllWellFormed(exts) && data == Layout(header, exts, upper, payload)
      requires k < |exts| && e.extType == exts[k].extType && e.offset == HEADER_LEN + TotalLen(exts[..k])
      ensures n == |exts[k].content|
    {
      ContentPreserved(header, exts, upper, payload, k);
      ghost var c := exts[k].content[0 := First(exts[k + 1..], upper)];
      assert data[e.offset..e.offset + |c|][1] == c[1];
      n := ExtensionLen(e.extType, data[e.offset + 1]);
    }

    /**
      Adds an extension behind the others. Bytes, object list and length all gain it, everything
      else stays; when the layer cannot be extended nothing changes and null is returned.
     */
    method AddExtension(extensionHeader: Extension, canExtend: bool) returns (newHeader: IPv6Extension?)
      requires Valid() && extensionHeader.WellFormed()
      modifies this, objects
      ensures Valid()
      ensures header == old(header) && upper == old(upper) && payload == old(payload)
      ensures newHeader == null <==> !canExtend
      ensures newHeader == null ==> exts == old(exts) && objects == old(objects) && data == old(data)
      ensures newHeader != null ==> fresh(newHeader)
      ensures newHeader != null ==> exts == old(exts) + [extensionHeader] && objects == old(objects) + [newHeader]
      ensures newHeader != null ==> NumbersWritten(data, old(exts), extensionHeader, old(upper))
    {
      if !canExtend {
        return null;
      }
      newHeader := new IPv6Extension(extensionHeader.extType, HEADER_LEN + extensionsLen);
      Write(extensionHeader, HEADER_LEN + extensionsLen);
      AddingWrites(header, exts, extensionHeader, upper, payload);
      Attach(newHeader, extensionHeader);
    }

    /** The object of an extension whose bytes are written joins the list, and the length grows. */
    method Attach(newHeader: IPv6Extension, ghost e: Extension)
      requires |header| == HEADER_LEN && AllWellFormed(exts + [e])
      requires data == Layout(header, exts + [e], upper, payload) && extensionsLen == TotalLen(exts)
      requires LinkedOf(objects, firstExtension, lastExtension) && PlacedOf(objects, exts)
      requires newHeader !in objects && newHeader.nextHeader == null
      requires newHeader.extType == e.extType && newHeader.offset == HEADER_LEN + extensionsLen
      modifies this`firstExtension, this`lastExtension, this`objects, this`exts, this`extensionsLen, objects
      ensures Valid() && exts == old(exts) + [e] && objects == old(objects) + [newHeader]
    {
      PlacedAppend(objects, exts, newHeader, e);
      Link(newHeader);
      ghost var k := |exts|;
      exts := exts + [e];
      var len := GetExtensionLen(newHeader, k);
      extensionsLen := extensionsLen + len;
    }

    /** The first extension of a type, or null when there is none. */
    method GetExtensionOfType(t: ExtensionType) returns (curExt: IPv6Extension?)
      requires Valid()
      ensures curExt == null ==> forall i :: 0 <= i < |exts| ==> exts[i].extType != t
      ensures curExt != null ==>
                exists i :: 0 <= i < |exts| && curExt == objects[i] && exts[i].extType == t &&
                            forall j :: 0 <= j < i ==> exts[j].extType != t
    {
      curExt := firstExtension;
      ghost var i := 0;
      while curExt != null && curExt.extType != t
        invariant i <= |objects|
        invariant curExt == if i < |objects| then objects[i] else null
        invariant forall j :: 0 <= j < i ==> exts[j].extType != t
        decreases |objects| - i
      {
        curExt := curExt.nextHeader;
        i := i + 1;
      }
    }
  }

  /** Calls of addExtension: the extension, and whether the layer could be extended. */
  datatype Addition = Addition(ext: Extension, canExtend: bool)

  /** The extensions that were really added. */
  function Added(additions: seq<Addition>): seq<Extension> {
    if additions == [] then []
    else
      var a := additions[|additions| - 1];
      Added(additions[..|additions| - 1]) + if a.canExtend then [a.ext] else []
  }

  lemma AddedNext(additions: seq<Addition>, k: nat)
    requires k < |additions|
    ensures Added(additions[..k + 1]) ==
            Added(additions[..k]) + if additions[k].canExtend then [additions[k].ext] else []
  {
    assert additions[..k + 1][..k] == additions[..k];
  }

  /** Any sequence of calls on a new layer leaves it with exactly the successful additions, in order. */
  method AddAll(bytes: seq<Byte>, additions: seq<Addition>) returns (layer: Layer)
    requires |bytes| >= HEADER_LEN
    requires forall i :: 0 <= i < |additions| ==> additions[i].ext.WellFormed()
    ensures fresh(layer) && layer.Valid()
    ensures layer.exts == Added(additions)
    ensures layer.header == bytes[..HEADER_LEN] && layer.upper == bytes[NEXT_HEADER]
    ensures layer.payload == bytes[HEADER_LEN..]
  {
    layer := new Layer(bytes);
    for k := 0 to |additions|
      invariant fresh(layer) && layer.Valid() && fresh(layer.objects)
      invariant layer.exts == Added(additions[..k])
      invariant layer.header == bytes[..HEADER_LEN] && layer.upper == bytes[NEXT_HEADER]
      invariant layer.payload == bytes[HEADER_LEN..]
    {
      AddedNext(additions, k);
      var newHeader := layer.AddExtension(additions[k].ext, additions[k].canExtend);
    }
    assert additions[..|additions|] == additions;
  }

  /**
    Build, then parse: following next-header bytes through the finished layer finds exactly the
    successful additions and ends at the original upper-layer protocol, exactly when that protocol
    is not an extension number or no extension fits behind the header.
   */
  method BuildThenParse(bytes: seq<Byte>, additions: seq<Addition>) returns (data: seq<Byte>)
    requires |bytes| >= HEADER_LEN
    requires forall i :: 0 <= i < |additions| ==> additions[i].ext.WellFormed()
    ensures |data| == |bytes| + TotalLen(Added(additions))
    ensures data[HEADER_LEN + TotalLen(Added(additions))..] == bytes[HEADER_LEN..]
    ensures forall i :: 0 <= i < HEADER_LEN && i != NEXT_HEADER ==> data[i] == bytes[i]
    ensures Parse(data, HEADER_LEN, data[NEXT_HEADER]) ==
            Parsed(Tiles(Added(additions), HEADER_LEN), bytes[NEXT_HEADER], HEADER_LEN + TotalLen(Added(additions)))
            <==> bytes[6] !in [0, 43, 44, 51, 60] || |bytes| < 40 + 2
  {
    var layer := AddAll(bytes, additions);
    data := layer.data;
    BytesPreserved(layer.header, layer.exts, layer.upper, layer.payload);
    ExactRecovery(layer.header, layer.exts, layer.upper, layer.payload);
  }
}
