/** Octets and the sequence facts that byte layouts need. */
module Bytes {

  type Byte = b: int | 0 <= b < 256

  lemma UpdateLeft<T>(a: seq<T>, b: seq<T>, i: nat, v: T)
    requires i < |a|
    ensures (a + b)[i := v] == a[i := v] + b
  {
  }

  lemma UpdateRight<T>(a: seq<T>, b: seq<T>, i: nat, v: T)
    requires i < |b|
    ensures (a + b)[|a| + i := v] == a + b[i := v]
  {
  }

  lemma Slice<T>(a: seq<T>, b: seq<T>, c: seq<T>)
    ensures (a + b + c)[|a|..|a| + |b|] == b
    ensures (a + b + c)[..|a|] == a
    ensures (a + b + c)[|a| + |b|..] == c
  {
  }

  /** The two halves of a concatenation found inside s. */
  lemma SliceSplit<T>(s: seq<T>, at: nat, a: seq<T>, b: seq<T>)
    requires at + |a| + |b| <= |s| && s[at..at + |a| + |b|] == a + b
    ensures s[at..at + |a|] == a && s[at + |a|..at + |a| + |b|] == b
  {
    var m := s[at..at + |a| + |b|];
    assert s[at..at + |a|] == m[..|a|];
    assert s[at + |a|..at + |a| + |b|] == m[|a|..];
  }

  lemma Associative<T>(a: seq<T>, b: seq<T>, c: seq<T>)
    ensures a + b + c == a + (b + c)
  {
  }

  function Concat(parts: seq<seq<Byte>>): seq<Byte> {
    if parts == [] then [] else parts[0] + Concat(parts[1..])
  }

  /** From `at` to the end, data is these parts. */
  ghost predicate SpellsOut(data: seq<Byte>, at: nat, parts: seq<seq<Byte>>)
    decreases |parts|
  {
    if parts == [] then at == |data|
    else
      && at + |parts[0]| <= |data|
      && data[at..at + |parts[0]|] == parts[0]
      && SpellsOut(data, at + |parts[0]|, parts[1..])
  }

  lemma {:induction false} ConcatSpellsOut(data: seq<Byte>, at: nat, parts: seq<seq<Byte>>)
    requires at <= |data| && data[at..] == Concat(parts)
    ensures SpellsOut(data, at, parts)
    decreases |parts|
  {
    if parts != [] {
      DropSplit(data, at, parts[0], Concat(parts[1..]));
      ConcatSpellsOut(data, at + |parts[0]|, parts[1..]);
    }
  }

  lemma DropSplit(data: seq<Byte>, at: nat, a: seq<Byte>, b: seq<Byte>)
    requires at <= |data| && data[at..] == a + b
    ensures at + |a| <= |data| && data[at..at + |a|] == a && data[at + |a|..] == b
  {
    assert data[at..at + |a|] == data[at..][..|a|];
    assert data[at + |a|..] == data[at..][|a|..];
  }
}
