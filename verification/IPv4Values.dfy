/**
  Decoding the values of IPv4 options (IPv4Layer.h): loops with a one-byte cursor over 4-byte words
  that stop at the first zero word. `mem` is the memory from the first octet of the value on, and a
  read behind its end is an error here.
 */
module IPv4Values {
  import opened Wrappers
  import opened Bytes
  import Tlv

  const IPV4OPT_TIMESTAMP: Byte := 68
  const TIMESTAMP_AND_IP: Byte := 1

  datatype ReadError = ReadsPastMemory

  /** The unsigned 32-bit word that memcpy reads at an offset of the value. */
  function WordAt(mem: seq<Byte>, i: nat): nat
    requires i + 4 <= |mem|
  {
    var b0: nat, b1: nat, b2: nat, b3: nat := mem[i], mem[i + 1], mem[i + 2], mem[i + 3];
    b0 + 256 * b1 + 65536 * b2 + 16777216 * b3
  }

  /** The words at start, start + 4, ... that end by `limit`. */
  function WholeWords(mem: seq<Byte>, start: nat, limit: nat): seq<nat>
    requires limit <= |mem|
    decreases limit - start
  {
    if start + 4 > limit then [] else [WordAt(mem, start)] + WholeWords(mem, start + 4, limit)
  }

  lemma {:induction false} WordCount(mem: seq<Byte>, start: nat, limit: nat)
    requires limit <= |mem|
    ensures |WholeWords(mem, start, limit)| == if start < limit then (limit - start) / 4 else 0
    decreases limit - start
  {
    if start + 4 <= limit {
      WordCount(mem, start + 4, limit);
    }
  }

  /** The longest prefix without a zero. */
  function UpToZero(w: seq<nat>): seq<nat> {
    if w == [] || w[0] == 0 then [] else [w[0]] + UpToZero(w[1..])
  }

  /** That it is the longest such prefix, and the only one. */
  lemma {:induction false} UpToZeroIsLongest(w: seq<nat>, p: seq<nat>)
    ensures p == UpToZero(w) <==>
              p <= w && (forall i :: 0 <= i < |p| ==> p[i] != 0) && (|p| < |w| ==> w[|p|] == 0)
  {
    if w != [] && w[0] != 0 {
      if p != [] {
        UpToZeroIsLongest(w[1..], p[1..]);
        assert p == [p[0]] + p[1..];
        assert p <= w <==> p[0] == w[0] && p[1..] <= w[1..];
        if p <= w && forall i :: 0 <= i < |p| ==> p[i] != 0 {
          assert forall i :: 0 <= i < |p| - 1 ==> p[1..][i] == p[i + 1];
        }
        if forall i :: 0 <= i < |p[1..]| ==> p[1..][i] != 0 {
          assert forall i :: 1 <= i < |p| ==> p[i] == p[1..][i - 1];
        }
      }
    } else {
      assert p <= w && p != [] ==> p[0] == w[0];
    }
  }

  lemma WordsFrom(mem: seq<Byte>, at: nat, limit: nat)
    requires at + 4 <= limit <= |mem|
    ensures var w := WholeWords(mem, at, limit);
            var x, later := WordAt(mem, at), WholeWords(mem, at + 4, limit);
            && w == [x] + later
            && (0 in w <==> x == 0 || 0 in later)
            && UpToZero(w) == if x == 0 then [] else [x] + UpToZero(later)
  {
    var later := WholeWords(mem, at + 4, limit);
    assert ([WordAt(mem, at)] + later)[1..] == later;
  }

  // ---------- the reading loop ----------

  /** What the loop has come to: it ended with these words, it read behind the memory, or it still runs. */
  datatype Scan = Ended(words: seq<nat>) | PastMemory | Running

  function Preceded(done: seq<nat>, rest: Scan): Scan {
    if rest.Ended? then Ended(done + rest.words) else rest
  }

  /** The loop from a cursor on, after at most n words. The cursor is a single octet, the size is not. */
  function Loop(mem: seq<Byte>, cursor: Byte, dataSize: nat, n: nat): Scan
    decreases n
  {
    if cursor >= dataSize then Ended([])
    else if cursor + 4 > |mem| then PastMemory
    else if WordAt(mem, cursor) == 0 then Ended([])
    else if n == 0 then Running
    else Preceded([WordAt(mem, cursor)], Loop(mem, (cursor + 4) % 256, dataSize, n - 1))
  }

  /** One word read, with a cursor that does not wrap. */
  lemma LoopFrom(mem: seq<Byte>, cursor: Byte, dataSize: nat, n: nat)
    requires cursor < dataSize && n > 0 && cursor + 4 <= |mem| && cursor < 252 && WordAt(mem, cursor) != 0
    ensures Loop(mem, cursor, dataSize, n) ==
            Preceded([WordAt(mem, cursor)], Loop(mem, cursor + 4, dataSize, n - 1))
  {
    assert (cursor + 4) % 256 == cursor + 4;
  }

  function ScanOf(r: Result<seq<nat>, ReadError>): Scan {
    if r.Ok? then Ended(r.value) else PastMemory
  }

  /**
    What the loop reads of a value of up to 253 octets that is in memory: its words up to the first
    zero. If none is zero and octets are left over, it goes on to read one word that begins in them.
   */
  function ReadValue(mem: seq<Byte>, start: nat, dataSize: nat): Result<seq<nat>, ReadError>
    requires dataSize <= |mem|
  {
    var w := WholeWords(mem, start, dataSize);
    ReadLeftOver(mem, w, start + 4 * |w|, dataSize)
  }

  /** The same once the whole words are read and `left` is behind them. */
  function ReadLeftOver(mem: seq<Byte>, w: seq<nat>, left: nat, dataSize: nat): Result<seq<nat>, ReadError> {
    if 0 in w || left >= dataSize then Ok(UpToZero(w))
    else if left + 4 > |mem| then Err(ReadsPastMemory)
    else Ok(w + UpToZero([WordAt(mem, left)]))
  }

  lemma LeftOverNext(mem: seq<Byte>, x: nat, w: seq<nat>, left: nat, dataSize: nat)
    requires x != 0
    ensures ScanOf(ReadLeftOver(mem, [x] + w, left, dataSize)) ==
            Preceded([x], ScanOf(ReadLeftOver(mem, w, left, dataSize)))
  {
    assert ([x] + w)[1..] == w;
    assert 0 in [x] + w <==> 0 in w;
    if left + 4 <= |mem| {
      Associative([x], w, UpToZero([WordAt(mem, left)]));
    }
  }

  lemma CursorAdvances(cursor: Byte, dataSize: nat)
    requires cursor < dataSize <= 253 && (cursor % 4 == 1 || cursor % 4 == 2)
    ensures (cursor + 4) % 256 == cursor + 4 <= 254
    ensures (cursor + 4) % 4 == cursor % 4
  {
  }

  /** What is read from a whole nonzero word on. */
  lemma ReadValueNext(mem: seq<Byte>, at: nat, dataSize: nat)
    requires at + 4 <= dataSize <= |mem| && WordAt(mem, at) != 0
    ensures ScanOf(ReadValue(mem, at, dataSize)) ==
            Preceded([WordAt(mem, at)], ScanOf(ReadValue(mem, at + 4, dataSize)))
  {
    WordsFrom(mem, at, dataSize);
    var later := WholeWords(mem, at + 4, dataSize);
    LeftOverNext(mem, WordAt(mem, at), later, at + 4 + 4 * |later|, dataSize);
  }

  /** The one-byte cursor never wraps on such a value, and the loop reads just that. */
  lemma {:induction false} LoopReadsValue(mem: seq<Byte>, cursor: Byte, dataSize: nat, n: nat)
    requires dataSize <= 253 && dataSize <= |mem| && cursor <= 254 && (cursor % 4 == 1 || cursor % 4 == 2)
    requires cursor + 4 * n >= dataSize
    ensures Loop(mem, cursor, dataSize, n) == ScanOf(ReadValue(mem, cursor, dataSize))
    decreases n
  {
    if cursor + 4 <= dataSize {
      CursorAdvances(cursor, dataSize);
      if WordAt(mem, cursor) != 0 {
        LoopReadsValue(mem, cursor + 4, dataSize, n - 1);
        ReadValueNext(mem, cursor, dataSize);
      }
    } else if cursor < dataSize {
      CursorAdvances(cursor, dataSize);
      assert WholeWords(mem, cursor, dataSize) == [];
      if cursor + 4 <= |mem| {
        OneWord(WordAt(mem, cursor));
        assert Loop(mem, cursor + 4, dataSize, n - 1) == Ended([]);
      }
    }
  }

  lemma OneWord(x: nat)
    ensures UpToZero([x]) == if x == 0 then [] else [x]
  {
    assert [x][1..] == [];
  }

  /** When memory ends with the value, that word is missing exactly when octets are left over and no word is zero. */
  lemma LeftOverMissing(value: seq<Byte>, start: nat)
    ensures ReadValue(value, start, |value|).Err? <==>
              start < |value| && (|value| - start) % 4 != 0 && 0 !in WholeWords(value, start, |value|)
  {
    LeftOver(|value|, start);
    WordCount(value, start, |value|);
  }

  lemma LeftOver(size: nat, start: nat)
    ensures start < size ==> (start + 4 * ((size - start) / 4) < size <==> (size - start) % 4 != 0)
    ensures start < size ==> start + 4 * ((size - start) / 4) + 4 > size
  {
  }

  /** A value of whole words is read to its end and never past it, wherever the memory ends. */
  lemma WholeWordsOnly(mem: seq<Byte>, start: nat, dataSize: nat)
    requires start <= dataSize <= |mem| && (dataSize - start) % 4 == 0
    ensures ReadValue(mem, start, dataSize) == Ok(UpToZero(WholeWords(mem[..dataSize], start, dataSize)))
    ensures |WholeWords(mem, start, dataSize)| == (dataSize - start) / 4
  {
    LeftOver(dataSize, start);
    WordCount(mem, start, dataSize);
    SameWords(mem, start, dataSize);
  }

  /** Whenever the value alone is enough for the loop, what lies behind it in memory makes no difference. */
  lemma NothingBehindMatters(mem: seq<Byte>, start: nat, dataSize: nat)
    requires dataSize <= |mem| && ReadValue(mem[..dataSize], start, dataSize).Ok?
    ensures ReadValue(mem, start, dataSize) == ReadValue(mem[..dataSize], start, dataSize)
  {
    SameWords(mem, start, dataSize);
    LeftOver(dataSize, start);
    WordCount(mem, start, dataSize);
  }

  lemma {:induction false} SameWords(mem: seq<Byte>, start: nat, limit: nat)
    requires limit <= |mem|
    ensures WholeWords(mem[..limit], start, limit) == WholeWords(mem, start, limit)
    decreases limit - start
  {
    if start + 4 <= limit {
      SameWords(mem, start + 4, limit);
    }
  }

  // ---------- a length octet below two ----------

  /** The 64 words that a wrapping cursor cycles over, or those of them that are in memory. */
  function CycleWords(mem: seq<Byte>, start: nat): seq<nat> {
    WholeWords(mem, start, CycleEnd(mem, start))
  }

  function CycleEnd(mem: seq<Byte>, start: nat): nat {
    if |mem| <= start + 256 then |mem| else start + 256
  }

  /** With a size no octet reaches, only a zero word or the end of the memory stops the loop. */
  predicate Stopped(mem: seq<Byte>, start: nat) {
    |CycleWords(mem, start)| < 64 || 0 in CycleWords(mem, start)
  }

  function ReadCycle(mem: seq<Byte>, start: nat): Result<seq<nat>, ReadError> {
    if 0 in CycleWords(mem, start) then Ok(UpToZero(CycleWords(mem, start))) else Err(ReadsPastMemory)
  }

  /** The k-th word of the cycle, and the words from it on. */
  lemma {:induction false} CycleAt(mem: seq<Byte>, start: nat, limit: nat, k: nat)
    requires limit <= |mem| && k <= |WholeWords(mem, start, limit)|
    ensures WholeWords(mem, start, limit)[k..] == WholeWords(mem, start + 4 * k, limit)
    ensures k < |WholeWords(mem, start, limit)| ==>
              start + 4 * k + 4 <= limit && WholeWords(mem, start, limit)[k] == WordAt(mem, start + 4 * k)
    decreases k
  {
    if k > 0 {
      CycleAt(mem, start + 4, limit, k - 1);
      assert WholeWords(mem, start, limit)[1..] == WholeWords(mem, start + 4, limit);
      assert WholeWords(mem, start, limit)[k..] == WholeWords(mem, start, limit)[1..][k - 1..];
    }
  }

  /** If all 64 words are there and none is zero, the loop never ends. */
  lemma {:induction false} CycleRuns(mem: seq<Byte>, start: Byte, dataSize: nat, k: nat, n: nat)
    requires start < 4 && dataSize >= 256 && k < 64 && !Stopped(mem, start)
    ensures Loop(mem, start + 4 * k, dataSize, n) == Running
    decreases n
  {
    CycleAt(mem, start, CycleEnd(mem, start), k);
    assert CycleWords(mem, start)[k] != 0;
    if n > 0 {
      NextCursor(start, k);
      CycleRuns(mem, start, dataSize, (k + 1) % 64, n - 1);
    }
  }

  lemma NextCursor(start: Byte, k: nat)
    requires start < 4 && k < 64
    ensures (start + 4 * k + 4) % 256 == start + 4 * ((k + 1) % 64)
  {
    if k == 63 {
      assert (k + 1) % 64 == 0;
    }
  }

  /** Otherwise it ends in the first round; here from a cursor on with n words of the round to go. */
  lemma {:induction false} CycleStops(mem: seq<Byte>, start: Byte, cursor: Byte, dataSize: nat, n: nat)
    requires start < 4 && dataSize >= 256 && n > 0 && cursor + 4 * n == start + 256
    requires CycleEnd(mem, start) < start + 256 || 0 in WholeWords(mem, cursor, CycleEnd(mem, start))
    ensures var w := WholeWords(mem, cursor, CycleEnd(mem, start));
            Loop(mem, cursor, dataSize, n) == if 0 in w then Ended(UpToZero(w)) else PastMemory
    decreases n
  {
    var end := CycleEnd(mem, start);
    if cursor + 4 <= end {
      WordsFrom(mem, cursor, end);
      if WordAt(mem, cursor) != 0 {
        if n > 1 {
          CycleStops(mem, start, cursor + 4, dataSize, n - 1);
          LoopFrom(mem, cursor, dataSize, n);
        }
      }
    } else {
      assert WholeWords(mem, cursor, end) == [];
    }
  }

  /** With a size no octet reaches the loop ends exactly when one of the 64 words is zero or not in memory. */
  lemma EndsExactly(mem: seq<Byte>, start: Byte, dataSize: nat)
    requires start < 4 && dataSize >= 256
    ensures (exists n: nat :: Loop(mem, start, dataSize, n) != Running) <==> Stopped(mem, start)
    ensures Stopped(mem, start) ==> Loop(mem, start, dataSize, 64) == ScanOf(ReadCycle(mem, start))
  {
    WordCount(mem, start, CycleEnd(mem, start));
    if Stopped(mem, start) {
      CycleStops(mem, start, start, dataSize, 64);
    } else {
      forall n: nat
        ensures Loop(mem, start, dataSize, n) == Running
      {
        CycleRuns(mem, start, dataSize, 0, n);
      }
    }
  }

  lemma {:induction false} WordsOfOnes(mem: seq<Byte>, start: nat, limit: nat)
    requires limit <= |mem| && forall i :: 0 <= i < |mem| ==> mem[i] == 1
    ensures 0 !in WholeWords(mem, start, limit)
    decreases limit - start
  {
    if start + 4 <= limit {
      WordsOfOnes(mem, start + 4, limit);
    }
  }

  /** An option with length octet 1, which the reader hands out, followed by 257 octets of value one. */
  lemma NeverEnds(n: nat)
    ensures var data: seq<Byte> := [7, 1] + seq(257, i => 1);
            && Tlv.First(Tlv.IPv4Opt, data) == Some(0)
            && Loop(data[2..], 1, Tlv.IPv4DataSize(data[0], data[1]), n) == Running
  {
    var mem: seq<Byte> := seq(257, i => 1);
    var data: seq<Byte> := [7, 1] + mem;
    assert data[2..] == mem;
    WordsOfOnes(mem, 1, 257);
    WordCount(mem, 1, 257);
    CycleRuns(mem, 1, Tlv.IPv4DataSize(7, 1), 0, n);
  }

  // ---------- the two methods ----------

  /** The value is in memory; if the length octet is below two, so that the size is huge, something stops the loop. */
  predicate Readable(mem: seq<Byte>, start: nat, dataSize: nat) {
    if dataSize <= 253 then dataSize <= |mem| else Stopped(mem, start)
  }

  function ReadWords(mem: seq<Byte>, start: nat, dataSize: nat): Result<seq<nat>, ReadError>
    requires Readable(mem, start, dataSize)
  {
    if dataSize <= 253 then ReadValue(mem, start, dataSize) else ReadCycle(mem, start)
  }

  lemma LoopReads(mem: seq<Byte>, start: Byte, recordType: Byte, recordLen: Byte)
    requires start == 1 || start == 2
    requires Readable(mem, start, Tlv.IPv4DataSize(recordType, recordLen))
    ensures var dataSize := Tlv.IPv4DataSize(recordType, recordLen);
            Loop(mem, start, dataSize, 64) == ScanOf(ReadWords(mem, start, dataSize))
  {
    var dataSize := Tlv.IPv4DataSize(recordType, recordLen);
    if dataSize <= 253 {
      LoopReadsValue(mem, start, dataSize, 64);
    } else {
      EndsExactly(mem, start, dataSize);
    }
  }

  /** The octets that an option's length octet leaves for its value. */
  function ValueSize(recordType: Byte, recordLen: Byte): nat {
    if Tlv.IsSingle(Tlv.IPv4Opt, recordType) || recordLen < 2 then 0 else recordLen - 2
  }

  /**
    For every option, the loop reads past its value exactly when its length octet is below 2, or octets
    are left over behind the words and none of the words is zero. (One octet types have no length octet.)
   */
  lemma {:induction false} ReadsPastTheValue(recordType: Byte, recordLen: Byte, value: seq<Byte>, start: Byte)
    requires |value| == ValueSize(recordType, recordLen) && (start == 1 || start == 2)
    ensures Loop(value, start, Tlv.IPv4DataSize(recordType, recordLen), 64) == PastMemory <==>
              !Tlv.IsSingle(Tlv.IPv4Opt, recordType) &&
              (recordLen < 2 ||
               (start < |value| && (|value| - start) % 4 != 0 && 0 !in WholeWords(value, start, |value|)))
  {
    var dataSize := Tlv.IPv4DataSize(recordType, recordLen);
    if Tlv.IsSingle(Tlv.IPv4Opt, recordType) || recordLen >= 2 {
      assert dataSize == |value| <= 253;
      PastMemoryIsErr(value, start);
      LeftOverMissing(value, start);
    } else {
      NothingToRead(start, dataSize);
    }
  }

  lemma PastMemoryIsErr(value: seq<Byte>, start: Byte)
    requires |value| <= 253 && (start == 1 || start == 2)
    ensures Loop(value, start, |value|, 64) == PastMemory <==> ReadValue(value, start, |value|).Err?
  {
    LoopReadsValue(value, start, |value|, 64);
  }

  lemma NothingToRead(start: Byte, dataSize: nat)
    requires start < dataSize
    ensures Loop([], start, dataSize, 64) == PastMemory
  {
  }

  /** Two options that the reader hands out: half a word behind the pointer octet, and no value at all. */
  lemma PastTheValue()
    ensures Tlv.First(Tlv.IPv4Opt, [7, 5, 4, 10, 0]) == Some(0)
    ensures Loop([4, 10, 0], 1, Tlv.IPv4DataSize(7, 5), 64) == PastMemory
    ensures Tlv.First(Tlv.IPv4Opt, [7, 1]) == Some(0)
    ensures Loop([], 1, Tlv.IPv4DataSize(7, 1), 64) == PastMemory
  {
    assert WholeWords([4, 10, 0], 1, 3) == [];
    ReadsPastTheValue(7, 5, [4, 10, 0], 1);
    ReadsPastTheValue(7, 1, [], 1);
  }

  lemma PrecededNext(done: seq<nat>, x: nat, rest: Scan)
    ensures Preceded(done, Preceded([x], rest)) == Preceded(done + [x], rest)
  {
    if rest.Ended? {
      assert done + ([x] + rest.words) == done + [x] + rest.words;
    }
  }

  // ---------- the results in octets ----------

  /** The 32-bit number that four octets spell, least significant first, as on a little-endian machine. */
  predicate Spelt(w: nat, mem: seq<Byte>, at: nat) {
    && at + 4 <= |mem|
    && w < 0x1_0000_0000
    && w % 256 == mem[at]
    && w / 256 % 256 == mem[at + 1]
    && w / 65536 % 256 == mem[at + 2]
    && w / 16777216 == mem[at + 3]
  }

  predicate Blank(mem: seq<Byte>, at: nat) {
    at + 4 <= |mem| && mem[at] == 0 && mem[at + 1] == 0 && mem[at + 2] == 0 && mem[at + 3] == 0
  }

  lemma WordIsSpelt(mem: seq<Byte>, at: nat)
    requires at + 4 <= |mem|
    ensures Spelt(WordAt(mem, at), mem, at)
    ensures WordAt(mem, at) == 0 <==> Blank(mem, at)
  {
    var b0: nat, b1: nat, b2: nat, b3: nat := mem[at], mem[at + 1], mem[at + 2], mem[at + 3];
    LowOctet(b2, b3);
    LowOctet(b1, b2 + 256 * b3);
    LowOctet(b0, b1 + 256 * (b2 + 256 * b3));
    ShiftTwice(WordAt(mem, at));
  }

  lemma LowOctet(low: nat, high: nat)
    requires low < 256
    ensures (low + 256 * high) % 256 == low && (low + 256 * high) / 256 == high
  {
  }

  lemma ShiftTwice(w: nat)
    ensures w / 65536 == w / 256 / 256 && w / 16777216 == w / 256 / 256 / 256
  {
  }

  /** The words stand one behind the other from start on, none is blank, and behind them is the end or a blank one. */
  ghost predicate ListedAt(words: seq<nat>, mem: seq<Byte>, start: nat, dataSize: nat) {
    && (forall k :: 0 <= k < |words| ==> Spelt(words[k], mem, start + 4 * k) && words[k] != 0)
    && (start + 4 * |words| >= dataSize || Blank(mem, start + 4 * |words|))
  }

  lemma UpToZeroListed(mem: seq<Byte>, start: nat, limit: nat)
    requires limit <= |mem|
    ensures var w := WholeWords(mem, start, limit);
            var p := UpToZero(w);
            && |p| <= |w| && (|p| < |w| ==> Blank(mem, start + 4 * |p|)) && (0 in w <==> |p| < |w|)
            && forall k :: 0 <= k < |p| ==> Spelt(p[k], mem, start + 4 * k) && p[k] != 0
  {
    var w := WholeWords(mem, start, limit);
    var p := UpToZero(w);
    UpToZeroIsLongest(w, p);
    forall k | 0 <= k < |w|
      ensures start + 4 * k + 4 <= |mem| && w[k] == WordAt(mem, start + 4 * k)
      ensures Spelt(w[k], mem, start + 4 * k) && (w[k] == 0 <==> Blank(mem, start + 4 * k))
    {
      CycleAt(mem, start, limit, k);
      WordIsSpelt(mem, start + 4 * k);
    }
    assert forall k :: 0 <= k < |p| ==> p[k] == w[k];
    assert |p| == |w| ==> p == w;
  }

  lemma ValueListed(mem: seq<Byte>, start: nat, dataSize: nat)
    requires dataSize <= |mem| && ReadValue(mem, start, dataSize).Ok?
    ensures ListedAt(ReadValue(mem, start, dataSize).value, mem, start, dataSize)
  {
    var w := WholeWords(mem, start, dataSize);
    UpToZeroListed(mem, start, dataSize);
    if 0 !in w && start + 4 * |w| < dataSize {
      UpToZeroIsLongest(w, w);
      LeftOverListed(mem, start, dataSize, w);
    }
  }

  /** What the loops read, in octets. */
  lemma WordsListed(mem: seq<Byte>, start: nat, dataSize: nat)
    requires Readable(mem, start, dataSize) && ReadWords(mem, start, dataSize).Ok?
    ensures ListedAt(ReadWords(mem, start, dataSize).value, mem, start, dataSize)
  {
    if dataSize <= 253 {
      ValueListed(mem, start, dataSize);
    } else {
      UpToZeroListed(mem, start, CycleEnd(mem, start));
    }
  }

  /** With the word that begins in left-over octets. */
  lemma LeftOverListed(mem: seq<Byte>, start: nat, dataSize: nat, w: seq<nat>)
    requires dataSize <= |mem| && w == WholeWords(mem, start, dataSize)
    requires start + 4 * |w| < dataSize && start + 4 * |w| + 4 <= |mem|
    requires forall k :: 0 <= k < |w| ==> Spelt(w[k], mem, start + 4 * k) && w[k] != 0
    ensures ListedAt(w + UpToZero([WordAt(mem, start + 4 * |w|)]), mem, start, dataSize)
  {
    var left := start + 4 * |w|;
    var x := WordAt(mem, left);
    WordIsSpelt(mem, left);
    OneWord(x);
    WordCount(mem, start, dataSize);
    LeftOver(dataSize, start);
    if x == 0 {
      assert w + [] == w;
    } else {
      var all := w + [x];
      assert start + 4 * |all| >= dataSize;
      assert all[|w|] == x;
    }
  }

  /** Which word each entry of the two lists is. */
  lemma {:induction false} DealtAt(w: seq<nat>, k: nat)
    ensures |Evens(w)| == (|w| + 1) / 2 && |Odds(w)| == |w| / 2
    ensures k < |Evens(w)| ==> Evens(w)[k] == w[2 * k]
    ensures k < |Odds(w)| ==> Odds(w)[k] == w[2 * k + 1]
    decreases |w|
  {
    if |w| > 1 {
      var rest := w[2..];
      assert w[1..][1..] == rest;
      DealtAt(rest, if k > 0 then k - 1 else 0);
      assert Evens(w) == [w[0]] + Evens(rest) && Odds(w) == [w[1]] + Odds(rest);
    } else if |w| == 1 {
      assert w[1..] == [];
    }
  }

  /** The lists of a timestamp option in octets: for type 1 addresses and timestamps in turn, else only timestamps. */
  ghost predicate DealtFrom(res: TimestampOptionValue, mem: seq<Byte>, dataSize: nat) {
    var step := if res.timestampType == 1 then 8 else 4;
    var n := |res.ipAddresses| + |res.timestamps|;
    && (if res.timestampType == 1 then |res.timestamps| <= |res.ipAddresses| <= |res.timestamps| + 1
        else res.ipAddresses == [])
    && (forall k :: 0 <= k < |res.ipAddresses| ==> Spelt(res.ipAddresses[k], mem, 2 + 8 * k) && res.ipAddresses[k] != 0)
    && (forall k :: 0 <= k < |res.timestamps| ==>
          Spelt(res.timestamps[k], mem, (if res.timestampType == 1 then 6 else 2) + step * k) && res.timestamps[k] != 0)
    && (2 + 4 * n >= dataSize || Blank(mem, 2 + 4 * n))
  }

  lemma TimestampsListed(res: TimestampOptionValue, w: seq<nat>, mem: seq<Byte>, dataSize: nat)
    requires Sorted(res, w) && ListedAt(w, mem, 2, dataSize)
    ensures DealtFrom(res, mem, dataSize)
  {
    DealtAt(w, 0);
    if res.timestampType == 1 {
      forall k | 0 <= k < |res.ipAddresses|
        ensures Spelt(res.ipAddresses[k], mem, 2 + 8 * k) && res.ipAddresses[k] != 0
      {
        DealtAt(w, k);
        assert Spelt(w[2 * k], mem, 2 + 4 * (2 * k));
      }
      forall k | 0 <= k < |res.timestamps|
        ensures Spelt(res.timestamps[k], mem, 6 + 8 * k) && res.timestamps[k] != 0
      {
        DealtAt(w, k);
        assert Spelt(w[2 * k + 1], mem, 2 + 4 * (2 * k + 1));
      }
    }
  }

  /** The address list starts behind the pointer octet. */
  method GetValueAsIpList(recordType: Byte, recordLen: Byte, mem: seq<Byte>)
    returns (res: Result<seq<nat>, ReadError>)
    requires Readable(mem, 1, Tlv.IPv4DataSize(recordType, recordLen))
    ensures var dataSize := Tlv.IPv4DataSize(recordType, recordLen);
            && (res == if dataSize < 2 then Ok([]) else ReadWords(mem, 1, dataSize))
            && (res.Ok? && dataSize >= 2 ==> ListedAt(res.value, mem, 1, dataSize))
  {
    var dataSize := Tlv.IPv4DataSize(recordType, recordLen);
    if dataSize < 2 {
      return Ok([]);
    }
    LoopReads(mem, 1, recordType, recordLen);
    var words := [];
    var valueOffset: Byte := 1;
    ghost var n: nat := 64;
    while valueOffset < dataSize
      invariant Preceded(words, Loop(mem, valueOffset, dataSize, n)) == ScanOf(ReadWords(mem, 1, dataSize))
      decreases n
    {
      if valueOffset + 4 > |mem| {
        return Err(ReadsPastMemory);
      }
      var curValue := WordAt(mem, valueOffset);
      if curValue == 0 {
        break;
      }
      PrecededNext(words, curValue, Loop(mem, (valueOffset + 4) % 256, dataSize, n - 1));
      words := words + [curValue];
      valueOffset := (valueOffset + 4) % 256;
      n := n - 1;
    }
    assert words + [] == words;
    res := Ok(words);
    WordsListed(mem, 1, dataSize);
  }

  datatype TimestampOptionValue = TimestampOptionValue(timestampType: Byte, timestamps: seq<nat>, ipAddresses: seq<nat>)

  /** IPv4TimestampOptionValue::Unknown */
  const UNKNOWN := TimestampOptionValue(3, [], [])

  /** The words at even and odd positions. */
  function Evens(w: seq<nat>): seq<nat> {
    if w == [] then [] else [w[0]] + Odds(w[1..])
  }

  function Odds(w: seq<nat>): seq<nat> {
    if w == [] then [] else Evens(w[1..])
  }

  /** a[0], b[0], a[1], b[1], ... */
  function Interleave(a: seq<nat>, b: seq<nat>): seq<nat>
    decreases |a| + |b|
  {
    if a == [] then b else [a[0]] + Interleave(b, a[1..])
  }

  /** The two lists rebuild the words, addresses first, and differ in size by at most one. */
  lemma {:induction false} InterleaveRebuilds(w: seq<nat>)
    ensures Interleave(Evens(w), Odds(w)) == w
    ensures |Odds(w)| <= |Evens(w)| <= |Odds(w)| + 1
  {
    if w != [] {
      InterleaveRebuilds(w[1..]);
      assert Evens(w)[1..] == Odds(w[1..]);
    }
  }

  lemma {:induction false} EvensAppend(w: seq<nat>, x: nat)
    ensures Evens(w + [x]) == if |w| % 2 == 0 then Evens(w) + [x] else Evens(w)
    ensures Odds(w + [x]) == if |w| % 2 == 0 then Odds(w) else Odds(w) + [x]
  {
    if w == [] {
      assert [x][1..] == [];
    } else {
      EvensAppend(w[1..], x);
      assert (w + [x])[1..] == w[1..] + [x];
    }
  }

  /** Which of the words go into which list. */
  ghost predicate Sorted(res: TimestampOptionValue, w: seq<nat>) {
    if res.timestampType == TIMESTAMP_AND_IP
    then res.ipAddresses == Evens(w) && res.timestamps == Odds(w)
    else res.ipAddresses == [] && res.timestamps == w
  }

  lemma SortedAppend(res: TimestampOptionValue, w: seq<nat>, x: nat)
    requires Sorted(res, w)
    ensures res.timestampType == TIMESTAMP_AND_IP && |w| % 2 == 0 ==>
              Sorted(res.(ipAddresses := res.ipAddresses + [x]), w + [x])
    ensures !(res.timestampType == TIMESTAMP_AND_IP && |w| % 2 == 0) ==>
              Sorted(res.(timestamps := res.timestamps + [x]), w + [x])
    ensures |w + [x]| % 2 == 0 <==> |w| % 2 != 0
  {
    EvensAppend(w, x);
  }

  /** The second octet of the value is the type; words follow from the third on. */
  method GetTimestampOptionValue(recordType: Byte, recordLen: Byte, mem: seq<Byte>)
    returns (res: Result<TimestampOptionValue, ReadError>)
    requires Readable(mem, 2, Tlv.IPv4DataSize(recordType, recordLen))
    ensures var dataSize := Tlv.IPv4DataSize(recordType, recordLen);
            if recordType != 68 || dataSize < 2 then res == Ok(TimestampOptionValue(3, [], []))
            else
              var words := ReadWords(mem, 2, dataSize);
              && (res.Err? <==> words.Err?)
              && (res.Ok? ==> |mem| >= 2 && res.value.timestampType == mem[1] && Sorted(res.value, words.value))
              && (res.Ok? ==> DealtFrom(res.value, mem, dataSize))
  {
    if recordType != IPV4OPT_TIMESTAMP {
      return Ok(UNKNOWN);
    }
    var dataSize := Tlv.IPv4DataSize(recordType, recordLen);
    if dataSize < 2 {
      return Ok(UNKNOWN);
    }
    if |mem| < 2 {
      return Err(ReadsPastMemory);
    }
    LoopReads(mem, 2, recordType, recordLen);
    var value := TimestampOptionValue(mem[1], [], []);
    var valueOffset: Byte := 2;
    var readIPAddr := value.timestampType == TIMESTAMP_AND_IP;
    ghost var n: nat, done: seq<nat> := 64, [];
    while valueOffset < dataSize
      invariant value.timestampType == mem[1] && Sorted(value, done)
      invariant readIPAddr <==> value.timestampType == TIMESTAMP_AND_IP && |done| % 2 == 0
      invariant Preceded(done, Loop(mem, valueOffset, dataSize, n)) == ScanOf(ReadWords(mem, 2, dataSize))
      decreases n
    {
      if valueOffset + 4 > |mem| {
        return Err(ReadsPastMemory);
      }
      var curValue := WordAt(mem, valueOffset);
      if curValue == 0 {
        break;
      }
      PrecededNext(done, curValue, Loop(mem, (valueOffset + 4) % 256, dataSize, n - 1));
      SortedAppend(value, done, curValue);
      if readIPAddr {
        value := value.(ipAddresses := value.ipAddresses + [curValue]);
      } else {
        value := value.(timestamps := value.timestamps + [curValue]);
      }
      if value.timestampType == TIMESTAMP_AND_IP {
        readIPAddr := !readIPAddr;
      }
      done := done + [curValue];
      valueOffset := (valueOffset + 4) % 256;
      n := n - 1;
    }
    assert done + [] == done;
    res := Ok(value);
    WordsListed(mem, 2, dataSize);
    TimestampsListed(value, done, mem, dataSize);
  }

  /** For timestamps with addresses, interleaving the two lists gives back the words up to the first zero. */
  lemma TimestampsRebuild(res: TimestampOptionValue, w: seq<nat>)
    requires res.timestampType == TIMESTAMP_AND_IP && Sorted(res, w)
    ensures Interleave(res.ipAddresses, res.timestamps) == w
    ensures |res.timestamps| <= |res.ipAddresses| <= |res.timestamps| + 1
  {
    InterleaveRebuilds(w);
  }
}
