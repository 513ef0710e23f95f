/**
  The layers of a packet (Layer.h, Packet.h): a doubly linked chain grown by constructNextLayer, and
  the typed searches over it in both directions.
 */
module LayerChain {
  import opened Wrappers

  /** What a dynamic_cast can tell about a layer. */
  type Tag = int

  class Layer {
    const tag: Tag
    var nextLayer: Layer?
    const prevLayer: Layer?

    /** Layer(data, dataLen, prevLayer, packet) */
    constructor (tag: Tag, prevLayer: Layer?)
      ensures this.tag == tag && this.prevLayer == prevLayer && nextLayer == null
    {
      this.tag := tag;
      this.prevLayer := prevLayer;
      nextLayer := null;
    }

    /** Throws, which is None here, when there is a next layer already. */
    method ConstructNextLayer(tag: Tag) returns (newLayer: Option<Layer>)
      modifies this
      ensures newLayer.None? <==> old(nextLayer) != null
      ensures newLayer.None? ==> nextLayer == old(nextLayer)
      ensures newLayer.Some? ==>
                var l := newLayer.value;
                fresh(l) && l.tag == tag && l.prevLayer == this && l.nextLayer == null && nextLayer == l
    {
      if nextLayer != null {
        return None;
      }
      var l := new Layer(tag, this);
      nextLayer := l;
      newLayer := Some(l);
    }

    /** The layer type if its data is valid for it, else the fallback type. */
    method TryConstructNextLayerWithFallback(tag: Tag, isDataValid: bool, fallback: Tag)
      returns (newLayer: Option<Layer>)
      modifies this
      ensures newLayer.None? <==> old(nextLayer) != null
      ensures newLayer.None? ==> nextLayer == old(nextLayer)
      ensures newLayer.Some? ==>
                var l := newLayer.value;
                && fresh(l) && l.tag == (if isDataValid then tag else fallback)
                && l.prevLayer == this && l.nextLayer == null && nextLayer == l
    {
      if isDataValid {
        newLayer := ConstructNextLayer(tag);
      } else {
        newLayer := ConstructNextLayer(fallback);
      }
    }
  }

  // ---------- searches on the sequence of tags ----------

  /** The first position from i on whose tag is of the wanted type, or the length. */
  function NextOf(tags: seq<Tag>, isType: Tag -> bool, i: nat): nat
    requires i <= |tags|
    decreases |tags| - i
  {
    if i == |tags| || isType(tags[i]) then i else NextOf(tags, isType, i + 1)
  }

  /** The last position below i whose tag is of the wanted type, or -1. */
  function PrevOf(tags: seq<Tag>, isType: Tag -> bool, i: nat): int
    requires i <= |tags|
  {
    if i == 0 then -1 else if isType(tags[i - 1]) then i - 1 else PrevOf(tags, isType, i - 1)
  }

  lemma {:induction false} NextOfIsFirst(tags: seq<Tag>, isType: Tag -> bool, i: nat)
    requires i <= |tags|
    ensures var j := NextOf(tags, isType, i);
            && i <= j <= |tags|
            && (j < |tags| ==> isType(tags[j]))
            && (forall k :: i <= k < j ==> !isType(tags[k]))
    decreases |tags| - i
  {
    if i < |tags| && !isType(tags[i]) {
      NextOfIsFirst(tags, isType, i + 1);
    }
  }

  lemma {:induction false} PrevOfIsLast(tags: seq<Tag>, isType: Tag -> bool, i: nat)
    requires i <= |tags|
    ensures var j := PrevOf(tags, isType, i);
            && -1 <= j < i
            && (j >= 0 ==> isType(tags[j]))
            && (forall k :: j < k < i ==> !isType(tags[k]))
  {
    if i > 0 && !isType(tags[i - 1]) {
      PrevOfIsLast(tags, isType, i - 1);
    }
  }

  /** All positions of the wanted type from i on, in order: what the searches should enumerate. */
  function Matching(tags: seq<Tag>, isType: Tag -> bool, i: nat): seq<int>
    requires i <= |tags|
    decreases |tags| - i
  {
    if i == |tags| then []
    else (if isType(tags[i]) then [i] else []) + Matching(tags, isType, i + 1)
  }

  /** Repeated forward search, from the first match at or behind i. */
  function Forward(tags: seq<Tag>, isType: Tag -> bool, i: nat): seq<int>
    requires i <= |tags|
    decreases |tags| - i
  {
    NextOfIsFirst(tags, isType, i);
    var j := NextOf(tags, isType, i);
    if j == |tags| then [] else [j] + Forward(tags, isType, j + 1)
  }

  /** Repeated backward search, from the last match below i. */
  function Backward(tags: seq<Tag>, isType: Tag -> bool, i: nat): seq<int>
    requires i <= |tags|
  {
    PrevOfIsLast(tags, isType, i);
    var j := PrevOf(tags, isType, i);
    if j < 0 then [] else [j] + Backward(tags, isType, j)
  }

  function Reverse(s: seq<int>): seq<int> {
    if s == [] then [] else Reverse(s[1..]) + [s[0]]
  }

  lemma ForwardStep(tags: seq<Tag>, isType: Tag -> bool, i: nat)
    requires i < |tags|
    ensures Forward(tags, isType, i) == (if isType(tags[i]) then [i] else []) + Forward(tags, isType, i + 1)
  {
    if !isType(tags[i]) {
      assert NextOf(tags, isType, i) == NextOf(tags, isType, i + 1);
      assert Forward(tags, isType, i) == Forward(tags, isType, i + 1);
    }
  }

  lemma {:induction false} ForwardEnumerates(tags: seq<Tag>, isType: Tag -> bool, i: nat)
    requires i <= |tags|
    ensures Forward(tags, isType, i) == Matching(tags, isType, i)
    decreases |tags| - i
  {
    if i < |tags| {
      ForwardStep(tags, isType, i);
      ForwardEnumerates(tags, isType, i + 1);
    }
  }

  lemma {:induction false} ReverseAppend(s: seq<int>, x: int)
    ensures Reverse(s + [x]) == [x] + Reverse(s)
  {
    if s == [] {
      assert [] + [x] == [x] && [x][1..] == [];
    } else {
      ReverseAppend(s[1..], x);
      assert (s + [x])[1..] == s[1..] + [x];
    }
  }

  /** The matches below i, which grow at the back. */
  lemma {:induction false} MatchingSplit(tags: seq<Tag>, isType: Tag -> bool, i: nat, from: nat)
    requires from <= i < |tags|
    ensures Matching(tags[..i + 1], isType, from) ==
            Matching(tags[..i], isType, from) + if isType(tags[i]) then [i] else []
    decreases i - from
  {
    var longer, shorter := tags[..i + 1], tags[..i];
    if from < i {
      assert longer[from] == shorter[from];
      MatchingSplit(tags, isType, i, from + 1);
      var here: seq<int> := if isType(tags[from]) then [from] else [];
      assert Matching(longer, isType, from) == here + Matching(longer, isType, from + 1);
      assert Matching(shorter, isType, from) == here + Matching(shorter, isType, from + 1);
    } else {
      assert Matching(longer, isType, i + 1) == [];
      assert Matching(shorter, isType, i) == [];
    }
  }

  /** Backward search enumerates the same layers in the reverse order. */
  lemma {:induction false} BackwardIsReverse(tags: seq<Tag>, isType: Tag -> bool, i: nat)
    requires i <= |tags|
    ensures Backward(tags, isType, i) == Reverse(Matching(tags[..i], isType, 0))
  {
    if i > 0 {
      BackwardIsReverse(tags, isType, i - 1);
      MatchingSplit(tags, isType, i - 1, 0);
      if isType(tags[i - 1]) {
        ReverseAppend(Matching(tags[..i - 1], isType, 0), i - 1);
      } else {
        assert Matching(tags[..i], isType, 0) == Matching(tags[..i - 1], isType, 0);
      }
    }
  }

  /** Both enumerations over a whole packet. */
  lemma {:induction false} EnumerationsAgree(tags: seq<Tag>, isType: Tag -> bool)
    ensures Forward(tags, isType, 0) == Matching(tags, isType, 0)
    ensures Backward(tags, isType, |tags|) == Reverse(Forward(tags, isType, 0))
  {
    ForwardEnumerates(tags, isType, 0);
    BackwardIsReverse(tags, isType, |tags|);
    assert tags[..|tags|] == tags;
  }

  // ---------- the packet ----------

  ghost function Tags(chain: seq<Layer>): (tags: seq<Tag>)
    ensures |tags| == |chain|
    ensures forall i :: 0 <= i < |tags| ==> tags[i] == chain[i].tag
  {
    seq(|chain|, i requires 0 <= i < |chain| => chain[i].tag)
  }

  class Packet {
    var firstLayer: Layer?
    var lastLayer: Layer?
    ghost var chain: seq<Layer>

    ghost predicate Valid()
      reads this, chain
    {
      && (chain == [] ==> firstLayer == null && lastLayer == null)
      && (chain != [] ==> firstLayer == chain[0] && lastLayer == chain[|chain| - 1])
      && (chain != [] ==> chain[0].prevLayer == null && chain[|chain| - 1].nextLayer == null)
      && (forall i {:trigger chain[i].nextLayer} :: 0 <= i < |chain| - 1 ==> chain[i].nextLayer == chain[i + 1])
      && (forall i {:trigger chain[i].prevLayer} :: 0 < i < |chain| ==> chain[i].prevLayer == chain[i - 1])
    }

    constructor (firstTag: Tag)
      ensures Valid() && Tags(chain) == [firstTag] && fresh(chain[0])
    {
      var l := new Layer(firstTag, null);
      firstLayer, lastLayer, chain := l, l, [l];
    }

    /** Parsing goes on at the last layer. */
    method ParseNext(tag: Tag, isDataValid: bool, fallback: Tag)
      requires Valid() && chain != []
      modifies this, chain
      ensures Valid() && |chain| == |old(chain)| + 1 && chain[..|old(chain)|] == old(chain)
      ensures fresh(chain[|old(chain)|]) && chain[|old(chain)|].tag == if isDataValid then tag else fallback
    {
      var l := lastLayer.TryConstructNextLayerWithFallback(tag, isDataValid, fallback);
      lastLayer := l.value;
      chain := chain + [l.value];
    }

    method GetNextLayerOfType(isType: Tag -> bool, layer: Layer?, ghost i: nat) returns (curLayer: Layer?)
      requires Valid() && i <= |chain| && layer == if i < |chain| then chain[i] else null
      ensures i == |chain| ==> curLayer == null
      ensures i < |chain| ==>
                var j := NextOf(Tags(chain), isType, i + 1);
                0 <= j <= |chain| && curLayer == if j < |chain| then chain[j] else null
    {
      if layer == null {
        return null;
      }
      ghost var tags := Tags(chain);
      NextOfIsFirst(tags, isType, i + 1);
      curLayer := layer.nextLayer;
      ghost var k := i + 1;
      while curLayer != null && !isType(curLayer.tag)
        invariant i < k <= |chain|
        invariant curLayer == if k < |chain| then chain[k] else null
        invariant NextOf(tags, isType, k) == NextOf(tags, isType, i + 1)
        decreases |chain| - k
      {
        assert tags[k] == curLayer.tag;
        curLayer := curLayer.nextLayer;
        k := k + 1;
      }
    }

    method GetPrevLayerOfType(isType: Tag -> bool, layer: Layer?, ghost i: int) returns (curLayer: Layer?)
      requires Valid() && -1 <= i < |chain| && layer == if i >= 0 then chain[i] else null
      ensures i < 0 ==> curLayer == null
      ensures i >= 0 ==>
                var j := PrevOf(Tags(chain), isType, i);
                -1 <= j < |chain| && curLayer == if j >= 0 then chain[j] else null
    {
      if layer == null {
        return null;
      }
      ghost var tags := Tags(chain);
      PrevOfIsLast(tags, isType, i);
      curLayer := layer.prevLayer;
      ghost var k := i;
      while curLayer != null && !isType(curLayer.tag)
        invariant 0 <= k <= i
        invariant curLayer == if k > 0 then chain[k - 1] else null
        invariant PrevOf(tags, isType, k) == PrevOf(tags, isType, i)
        decreases k
      {
        assert tags[k - 1] == curLayer.tag;
        curLayer := curLayer.prevLayer;
        k := k - 1;
      }
    }

    /** The first layer of a type, or the last one when searching in reverse order. */
    method GetLayerOfType(isType: Tag -> bool, reverse: bool) returns (r: Layer?)
      requires Valid()
      ensures !reverse ==>
                var j := NextOf(Tags(chain), isType, 0);
                0 <= j <= |chain| && r == if j < |chain| then chain[j] else null
      ensures reverse ==>
                var j := PrevOf(Tags(chain), isType, |chain|);
                -1 <= j < |chain| && r == if j >= 0 then chain[j] else null
    {
      if !reverse {
        if firstLayer != null && isType(firstLayer.tag) {
          return firstLayer;
        }
        r := GetNextLayerOfType(isType, firstLayer, 0);
      } else {
        if lastLayer != null && isType(lastLayer.tag) {
          return lastLayer;
        }
        r := GetPrevLayerOfType(isType, lastLayer, |chain| - 1);
      }
    }
  }

  /** These layers stand at these positions of the chain. */
  ghost predicate StandAt(found: seq<Layer>, chain: seq<Layer>, positions: seq<int>) {
    && |found| == |positions|
    && forall k :: 0 <= k < |found| ==> 0 <= positions[k] < |chain| && found[k] == chain[positions[k]]
  }

  lemma StandAtNext(found: seq<Layer>, chain: seq<Layer>, done: seq<int>, i: int, rest: seq<int>)
    requires StandAt(found, chain, done) && 0 <= i < |chain|
    ensures StandAt(found + [chain[i]], chain, done + [i])
    ensures done + ([i] + rest) == done + [i] + rest
  {
  }

  /** What repeated forward search finds from a match at i on, or from the end. */
  function FoundFrom(tags: seq<Tag>, isType: Tag -> bool, i: nat): seq<int>
    requires i <= |tags|
  {
    if i < |tags| then [i] + Forward(tags, isType, i + 1) else []
  }

  lemma FoundFromNext(tags: seq<Tag>, isType: Tag -> bool, i: nat)
    requires i <= |tags|
    ensures var j := NextOf(tags, isType, i);
            i <= j <= |tags| && Forward(tags, isType, i) == FoundFrom(tags, isType, j)
  {
    NextOfIsFirst(tags, isType, i);
  }

  /** All layers of a type, as a caller collects them from the first match on with getNextLayerOfType. */
  method CollectForward(packet: Packet, isType: Tag -> bool) returns (found: seq<Layer>)
    requires packet.Valid()
    ensures StandAt(found, packet.chain, Matching(Tags(packet.chain), isType, 0))
  {
    ghost var tags := Tags(packet.chain);
    ghost var all := Matching(tags, isType, 0);
    ForwardEnumerates(tags, isType, 0);
    FoundFromNext(tags, isType, 0);
    found := [];
    var layer := packet.GetLayerOfType(isType, false);
    ghost var i: nat := NextOf(tags, isType, 0);
    ghost var done: seq<int> := [];
    while layer != null
      invariant i <= |tags| && layer == if i < |tags| then packet.chain[i] else null
      invariant done + FoundFrom(tags, isType, i) == all && StandAt(found, packet.chain, done)
      decreases |tags| - i
    {
      ghost var next := i + 1;
      StandAtNext(found, packet.chain, done, i, Forward(tags, isType, next));
      FoundFromNext(tags, isType, next);
      found, done := found + [layer], done + [i];
      layer := packet.GetNextLayerOfType(isType, layer, i);
      i := NextOf(tags, isType, next);
    }
    assert done + [] == done;
  }

  lemma BackwardFrom(tags: seq<Tag>, isType: Tag -> bool, i: nat)
    requires i <= |tags|
    ensures var j := PrevOf(tags, isType, i);
            && -1 <= j < i
            && Backward(tags, isType, i) == if j >= 0 then [j] + Backward(tags, isType, j) else []
  {
    PrevOfIsLast(tags, isType, i);
  }

  /** The same from the last match on with getPrevLayerOfType. */
  method CollectBackward(packet: Packet, isType: Tag -> bool) returns (found: seq<Layer>)
    requires packet.Valid()
    ensures StandAt(found, packet.chain, Reverse(Matching(Tags(packet.chain), isType, 0)))
  {
    ghost var tags := Tags(packet.chain);
    ghost var all := Reverse(Matching(tags, isType, 0));
    EnumerationsAgree(tags, isType);
    BackwardFrom(tags, isType, |tags|);
    found := [];
    var layer := packet.GetLayerOfType(isType, true);
    ghost var i := PrevOf(tags, isType, |tags|);
    ghost var done: seq<int> := [];
    ghost var rest := all;
    while layer != null
      invariant -1 <= i < |tags| && layer == if i >= 0 then packet.chain[i] else null
      invariant rest == if i >= 0 then [i] + Backward(tags, isType, i) else []
      invariant done + rest == all && StandAt(found, packet.chain, done)
      decreases i
    {
      rest := Backward(tags, isType, i);
      StandAtNext(found, packet.chain, done, i, rest);
      found, done := found + [layer], done + [i];
      BackwardFrom(tags, isType, i);
      layer := packet.GetPrevLayerOfType(isType, layer, i);
      i := PrevOf(tags, isType, i);
    }
    assert done + [] == done;
  }
}
