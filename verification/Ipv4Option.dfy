// Decoding and building IPv4 options (lesson2/PcapPlPl_snifer/lib/header/IPv4Layer.h and
// lib/src/IPv4Layer.cpp; RFC 791, section 3.1). The decoding loops keep their position
// in 8 bits and their limit in 64.

module Ipv4Option {
  import opened Basics

  const END_OF_OPTIONS: byte := 0
  const NOP: byte := 1
  const TIMESTAMP: byte := 68
  const TIMESTAMP_AND_IP: byte := 1
  const PRESPECIFIED: byte := 2
  const UNKNOWN: byte := 3

  // The bytes from the start of the option value on; what lies behind the value
  // is memory too, as far as an 8-bit position can reach.
  type Memory = seq<byte>

  const REACH: nat := 260

  datatype IPv4Option = Null | Record(recordType: byte, recordLen: byte, memory: Memory)

  // memcpy into a 32-bit integer, on a little-endian machine.
  type Word = nat

  datatype TimestampValue = TimestampValue(kind: byte, timestamps: seq<Word>, ipAddresses: seq<Word>)

  predicate Mapped(o: IPv4Option) { o.Record? ==> |o.memory| >= REACH }

  // An unsigned subtraction: a length below 2 wraps around.
  function GetDataSize(o: IPv4Option): nat {
    if o.Null? || o.recordType == END_OF_OPTIONS || o.recordType == NOP then 0
    else (o.recordLen - 2) % 0x1_0000_0000_0000_0000
  }

  // There is a value to decode except for the two types without one, and unless the
  // length field says that one byte or none is left behind type and length.
  lemma HoldsValueIff(o: IPv4Option)
    ensures GetDataSize(o) >= 2 <==> o.Record? && o.recordType > 1 && o.recordLen != 2 && o.recordLen != 3
  {}

  function LittleEndian(a: int, b: int, c: int, d: int): Word
    requires 0 <= a && 0 <= b && 0 <= c && 0 <= d
  {
    a + 0x100 * b + 0x1_0000 * c + 0x100_0000 * d
  }

  // The k-th word of a list that begins at `first`.
  function WordAt(mem: Memory, first: nat, k: nat): Word {
    var at := first + 4 * k;
    if at + 4 <= |mem|
    then LittleEndian(mem[at], mem[at + 1], mem[at + 2], mem[at + 3])
    else 0
  }

  predicate ZeroAt(mem: Memory, first: nat, k: nat) { WordAt(mem, first, k) == 0 }

  // ---------- when the loop ends at all ----------

  datatype Cursor = At(offset: nat) | Ended

  // One turn of the loop, in 8-bit arithmetic.
  function Advance(mem: Memory, size: nat, c: Cursor): Cursor {
    match c
    case Ended => Ended
    case At(o) => if o >= size || ZeroAt(mem, o, 0) then Ended else At((o + 4) % 256)
  }

  function CursorAfter(mem: Memory, size: nat, first: nat, n: nat): Cursor {
    if n == 0 then At(first) else Advance(mem, size, CursorAfter(mem, size, first, n - 1))
  }

  ghost predicate EverEnds(mem: Memory, size: nat, first: nat) {
    exists n: nat :: CursorAfter(mem, size, first, n).Ended?
  }

  lemma EndsNext(mem: Memory, size: nat, first: nat, n: nat)
    requires n > 0 && Advance(mem, size, CursorAfter(mem, size, first, n - 1)).Ended?
    ensures EverEnds(mem, size, first)
  {
    assert CursorAfter(mem, size, first, n).Ended?;
  }

  predicate ZeroAhead(mem: Memory, first: nat) { exists k: nat :: k < 64 && ZeroAt(mem, first, k) }

  predicate Stops(mem: Memory, size: nat, first: nat) { size <= 253 || ZeroAhead(mem, first) }

  lemma SameWord(mem: Memory, first: nat, k: nat, at: nat)
    requires at == first + 4 * k
    ensures WordAt(mem, at, 0) == WordAt(mem, first, k)
    ensures ZeroAt(mem, at, 0) == ZeroAt(mem, first, k)
  {}

  lemma Around(n: nat, first: nat)
    requires n > 0 && first < 4
    ensures (first + 4 * ((n - 1) % 64) + 4) % 256 == first + 4 * (n % 64)
  {}

  lemma {:induction false} StillGoing(mem: Memory, size: nat, first: nat, n: nat)
    requires first < 4 && size >= 256 && !ZeroAhead(mem, first)
    ensures CursorAfter(mem, size, first, n) == At(first + 4 * (n % 64))
  {
    if n > 0 {
      StillGoing(mem, size, first, n - 1);
      SameWord(mem, first, (n - 1) % 64, first + 4 * ((n - 1) % 64));
      assert !ZeroAt(mem, first, (n - 1) % 64);
      Around(n, first);
    }
  }

  lemma AdvanceOne(mem: Memory, size: nat, first: nat, k: nat)
    requires first < 4 && k < 63
    ensures var c := Advance(mem, size, At(first + 4 * k));
            c == Ended || (c == At(first + 4 * (k + 1)) && !ZeroAt(mem, first, k))
  {}

  // As long as it goes on, the position has not wrapped and no word was zero.
  lemma {:induction false} Progress(mem: Memory, size: nat, first: nat, n: nat)
    requires first < 4 && n < 64
    ensures var c := CursorAfter(mem, size, first, n);
            c == Ended || (c == At(first + 4 * n) && forall k: nat :: k < n ==> !ZeroAt(mem, first, k))
  {
    if n > 0 {
      Progress(mem, size, first, n - 1);
      AdvanceOne(mem, size, first, n - 1);
    }
  }

  // For every option with a length of at least 2 the loop ends; with a shorter
  // one it ends exactly when some word in reach of the 8-bit position is zero.
  lemma StopsIff(mem: Memory, size: nat, first: nat)
    requires 1 <= first <= 2 && (size <= 253 || size >= 256)
    ensures EverEnds(mem, size, first) <==> Stops(mem, size, first)
  {
    if Stops(mem, size, first) {
      Progress(mem, size, first, 63);
      SameWord(mem, first, 63, first + 4 * 63);
      EndsNext(mem, size, first, 64);
    } else {
      forall n: nat ensures !CursorAfter(mem, size, first, n).Ended? {
        StillGoing(mem, size, first, n);
      }
    }
  }

  // In terms of the option: a length field of at least 2 is always enough.
  lemma DecodingEndsIff(o: IPv4Option, first: nat)
    requires o.Record? && o.recordType > 1 && 1 <= first <= 2
    ensures EverEnds(o.memory, GetDataSize(o), first) <==> o.recordLen >= 2 || ZeroAhead(o.memory, first)
  {
    StopsIff(o.memory, GetDataSize(o), first);
  }

  // ---------- what it reads ----------

  predicate StartsInside(size: nat, first: nat, k: nat) { first + 4 * k < size }

  predicate LiesInside(size: nat, first: nat, k: nat) { first + 4 * k + 4 <= size }

  // The words from the k-th on, up to the first zero word or the end of the value.
  function WordsFrom(mem: Memory, size: nat, first: nat, k: nat): seq<Word>
    decreases |mem| + 64 - k
  {
    if k >= 64 || !StartsInside(size, first, k) || ZeroAt(mem, first, k) then []
    else [WordAt(mem, first, k)] + WordsFrom(mem, size, first, k + 1)
  }

  // Every word is the next 4 bytes, none is zero, and the list goes as far as it can.
  lemma {:induction false} WordsMaximal(mem: Memory, size: nat, first: nat, k: nat)
    ensures var r := WordsFrom(mem, size, first, k);
            && (forall j :: k <= j < k + |r| ==>
                  j < 64 && StartsInside(size, first, j) && r[j - k] == WordAt(mem, first, j) && !ZeroAt(mem, first, j))
            && (k + |r| >= 64 || !StartsInside(size, first, k + |r|) || ZeroAt(mem, first, k + |r|))
    decreases 64 - k
  {
    if k < 64 && StartsInside(size, first, k) && !ZeroAt(mem, first, k) {
      WordsMaximal(mem, size, first, k + 1);
      var r, rest := WordsFrom(mem, size, first, k), WordsFrom(mem, size, first, k + 1);
      forall j | k <= j < k + |r|
        ensures j < 64 && StartsInside(size, first, j) && r[j - k] == WordAt(mem, first, j) && !ZeroAt(mem, first, j)
      {
        if j > k { assert r[j - k] == rest[j - (k + 1)]; }
      }
    }
  }

  // The loop reads the words of the list and, if it starts inside the value, the
  // word behind them.
  ghost predicate ReadsInside(mem: Memory, size: nat, first: nat) {
    ReadsUpTo(size, first, |WordsFrom(mem, size, first, 0)|)
  }

  ghost predicate ReadsUpTo(size: nat, first: nat, n: nat) {
    forall k: nat :: k <= n && StartsInside(size, first, k) ==> LiesInside(size, first, k)
  }

  ghost predicate ZeroInside(mem: Memory, size: nat, first: nat) {
    exists k: nat :: LiesInside(size, first, k) && ZeroAt(mem, first, k)
  }

  // No read reaches past the value exactly when the value is made of whole words
  // behind its header, or a zero word inside it stops the loop in time.
  lemma ReadsInsideIff(mem: Memory, size: nat, first: nat)
    requires 1 <= first <= 2 && first <= size <= 253
    ensures ReadsInside(mem, size, first) <==> size % 4 == first % 4 || ZeroInside(mem, size, first)
  {
    var n := |WordsFrom(mem, size, first, 0)|;
    WordsMaximal(mem, size, first, 0);
    assert !StartsInside(size, first, 63);
    assert n < 64;
    if StartsInside(size, first, n) {
      StoppedByZero(mem, size, first, n);
    } else {
      StoppedByEnd(mem, size, first, n);
    }
  }

  lemma StoppedByZero(mem: Memory, size: nat, first: nat, n: nat)
    requires forall j :: 0 <= j < n ==> !ZeroAt(mem, first, j)
    requires StartsInside(size, first, n) && ZeroAt(mem, first, n)
    ensures ReadsUpTo(size, first, n) <==> size % 4 == first % 4 || ZeroInside(mem, size, first)
  {}

  lemma StoppedByEnd(mem: Memory, size: nat, first: nat, n: nat)
    requires first <= size
    requires forall j :: 0 <= j < n ==> !ZeroAt(mem, first, j) && StartsInside(size, first, j)
    requires !StartsInside(size, first, n)
    ensures ReadsUpTo(size, first, n) <==> size % 4 == first % 4 || ZeroInside(mem, size, first)
  {
    NoneBefore(mem, size, first, n);
    if size % 4 != first % 4 {
      assert n > 0 && StartsInside(size, first, n - 1) && !LiesInside(size, first, n - 1);
    } else {
      Whole(size, first);
    }
  }

  lemma Whole(size: nat, first: nat)
    requires size % 4 == first % 4
    ensures forall k: nat :: StartsInside(size, first, k) ==> LiesInside(size, first, k)
  {}

  // If all words before the n-th are non-zero and the n-th is not inside, none
  // inside is zero.
  lemma NoneBefore(mem: Memory, size: nat, first: nat, n: nat)
    requires forall j :: 0 <= j < n ==> !ZeroAt(mem, first, j)
    requires !LiesInside(size, first, n)
    ensures !ZeroInside(mem, size, first)
  {}

  method GetValueAsIpList(o: IPv4Option) returns (res: seq<Word>)
    requires Mapped(o)
    requires o.Record? && GetDataSize(o) >= 2 ==> Stops(o.memory, GetDataSize(o), 1)
    ensures res == if GetDataSize(o) < 2 then [] else WordsFrom(o.memory, GetDataSize(o), 1, 0)
  {
    res := [];
    if o.Null? { return; }
    var dataSize := GetDataSize(o);
    if dataSize < 2 { return; }
    var valueOffset: nat := 1;
    ghost var n := 0;
    while valueOffset < dataSize
      invariant ReadSoFar(o.memory, dataSize, 1, n, valueOffset, res)
      decreases 64 - n
    {
      var curValue := WordAt(o.memory, valueOffset, 0);
      ReadOne(o.memory, dataSize, 1, n, valueOffset, res);
      if curValue == 0 { break; }
      res := res + [curValue];
      valueOffset := (valueOffset + 4) % 256;
      n := n + 1;
    }
    if valueOffset >= dataSize { ReadAll(o.memory, dataSize, 1, n, valueOffset, res); }
  }

  // After n turns: the position has not wrapped, and `res` is what has been read.
  ghost predicate ReadSoFar(mem: Memory, size: nat, first: nat, n: nat, offset: nat, res: seq<Word>) {
    && offset == first + 4 * n && n < 64
    && WordsFrom(mem, size, first, 0) == res + WordsFrom(mem, size, first, n)
    && (forall k: nat :: k < n ==> !ZeroAt(mem, first, k))
  }

  lemma ReadOne(mem: Memory, size: nat, first: nat, n: nat, offset: nat, res: seq<Word>)
    requires 1 <= first <= 2 && Stops(mem, size, first) && ReadSoFar(mem, size, first, n, offset, res) && offset < size
    ensures var w := WordAt(mem, offset, 0);
            if w == 0 then WordsFrom(mem, size, first, 0) == res
            else ReadSoFar(mem, size, first, n + 1, (offset + 4) % 256, res + [w])
  {
    SameWord(mem, first, n, offset);
    if ZeroAt(mem, first, n) {
      NoMore(mem, size, first, n, res);
    } else {
      ReadWord(mem, size, first, n, offset, res, WordAt(mem, offset, 0));
    }
  }

  lemma ReadWord(mem: Memory, size: nat, first: nat, n: nat, offset: nat, res: seq<Word>, w: Word)
    requires 1 <= first <= 2 && Stops(mem, size, first) && ReadSoFar(mem, size, first, n, offset, res) && offset < size
    requires w == WordAt(mem, first, n) != 0
    ensures ReadSoFar(mem, size, first, n + 1, (offset + 4) % 256, res + [w])
  {
    forall k: nat | k < n + 1 ensures !ZeroAt(mem, first, k) {
      if k == n { assert WordAt(mem, first, k) == w; }
    }
    NotLast(mem, size, first, n);
    OneMore(mem, size, first, n, res);
  }

  lemma NoMore(mem: Memory, size: nat, first: nat, n: nat, res: seq<Word>)
    requires ZeroAt(mem, first, n) || !StartsInside(size, first, n)
    ensures res + WordsFrom(mem, size, first, n) == res
  {}

  lemma ReadAll(mem: Memory, size: nat, first: nat, n: nat, offset: nat, res: seq<Word>)
    requires ReadSoFar(mem, size, first, n, offset, res) && offset >= size
    ensures WordsFrom(mem, size, first, 0) == res
  {}

  lemma OneMore(mem: Memory, size: nat, first: nat, n: nat, res: seq<Word>)
    requires n < 64 && StartsInside(size, first, n) && !ZeroAt(mem, first, n)
    ensures res + WordsFrom(mem, size, first, n)
            == res + [WordAt(mem, first, n)] + WordsFrom(mem, size, first, n + 1)
  {}

  // A loop that stops never gets far enough to wrap its 8-bit position.
  lemma NotLast(mem: Memory, size: nat, first: nat, n: nat)
    requires 1 <= first <= 2 && Stops(mem, size, first) && n < 64
    requires StartsInside(size, first, n) && forall k: nat :: k <= n ==> !ZeroAt(mem, first, k)
    ensures n + 1 < 64 && first + 4 * n + 4 < 256
  {}

  // ---------- the timestamp option ----------

  // The value announces addresses and timestamps by turns, addresses first.
  predicate Alternates(o: IPv4Option)
    requires o.Record? && Mapped(o)
  {
    o.memory[1] == 1
  }

  // The words of the value go to the two lists by turns, or all to the timestamps.
  ghost predicate DealtOut(o: IPv4Option, res: TimestampValue)
    requires o.Record? && Mapped(o)
  {
    var words := WordsFrom(o.memory, GetDataSize(o), 2, 0);
    && res.kind == o.memory[1]
    && if Alternates(o)
       then Interleave(res.ipAddresses, res.timestamps) == words
            && (|res.ipAddresses| == |res.timestamps| || |res.ipAddresses| == |res.timestamps| + 1)
       else res.timestamps == words && res.ipAddresses == []
  }

  // Words by turns, the first of `a` first.
  function Interleave(a: seq<Word>, b: seq<Word>): seq<Word>
    decreases |a| + |b|
  {
    if a == [] then b else [a[0]] + Interleave(b, a[1..])
  }

  lemma {:induction false} InterleaveSnoc(a: seq<Word>, b: seq<Word>, w: Word)
    requires |a| == |b| || |a| == |b| + 1
    ensures |a| == |b| ==> Interleave(a + [w], b) == Interleave(a, b) + [w]
    ensures |a| == |b| + 1 ==> Interleave(a, b + [w]) == Interleave(a, b) + [w]
    decreases |a| + |b|
  {
    if a == [] {
      assert a + [w] == [w] && b == [];
      assert Interleave([], [w][1..]) == [];
    } else {
      InterleaveSnoc(b, a[1..], w);
      assert (a + [w])[1..] == a[1..] + [w];
    }
  }

  method GetTimestampOptionValue(o: IPv4Option) returns (res: TimestampValue)
    requires Mapped(o)
    requires o.Record? && o.recordType == TIMESTAMP && GetDataSize(o) >= 2 ==> Stops(o.memory, GetDataSize(o), 2)
    ensures o.Null? || o.recordType != 68 || GetDataSize(o) < 2 ==> res == TimestampValue(3, [], [])
    ensures o.Record? && o.recordType == 68 && GetDataSize(o) >= 2 ==> DealtOut(o, res)
  {
    res := TimestampValue(UNKNOWN, [], []);
    if o.Null? || o.recordType != TIMESTAMP { return; }
    var dataSize := GetDataSize(o);
    if dataSize < 2 { return; }
    res := res.(kind := o.memory[1]);
    var valueOffset: nat := 2;
    var readIPAddr := res.kind == TIMESTAMP_AND_IP;
    ghost var n, words := 0, [];
    while valueOffset < dataSize
      invariant ReadSoFar(o.memory, dataSize, 2, n, valueOffset, words)
      invariant res.kind == o.memory[1] && Sorted(res, words, readIPAddr)
      decreases 64 - n
    {
      var curValue := WordAt(o.memory, valueOffset, 0);
      ReadOne(o.memory, dataSize, 2, n, valueOffset, words);
      if curValue == 0 { break; }
      SortOne(res, words, readIPAddr, curValue);
      if readIPAddr {
        res := res.(ipAddresses := res.ipAddresses + [curValue]);
      } else {
        res := res.(timestamps := res.timestamps + [curValue]);
      }
      if res.kind == TIMESTAMP_AND_IP {
        readIPAddr := !readIPAddr;
      }
      words := words + [curValue];
      valueOffset := (valueOffset + 4) % 256;
      n := n + 1;
    }
    if valueOffset >= dataSize { ReadAll(o.memory, dataSize, 2, n, valueOffset, words); }
  }

  // The words read so far, dealt out to the two lists.
  ghost predicate Sorted(res: TimestampValue, words: seq<Word>, readIPAddr: bool) {
    if res.kind == TIMESTAMP_AND_IP
    then Interleave(res.ipAddresses, res.timestamps) == words
         && |res.ipAddresses| == |res.timestamps| + if readIPAddr then 0 else 1
    else res.timestamps == words && res.ipAddresses == [] && !readIPAddr
  }

  lemma SortOne(res: TimestampValue, words: seq<Word>, readIPAddr: bool, w: Word)
    requires Sorted(res, words, readIPAddr)
    ensures var next := if readIPAddr then res.(ipAddresses := res.ipAddresses + [w])
                        else res.(timestamps := res.timestamps + [w]);
            Sorted(next, words + [w], if res.kind == TIMESTAMP_AND_IP then !readIPAddr else readIPAddr)
  {
    if res.kind == TIMESTAMP_AND_IP {
      InterleaveSnoc(res.ipAddresses, res.timestamps, w);
    }
  }

  // ---------- building an option, and reading it back ----------

  // memcpy of a 32-bit integer, on a little-endian machine.
  function WordBytes(w: Word): seq<byte> {
    [w % 256, w / 256 % 256, w / 65536 % 256, w / 16777216 % 256]
  }

  function ListBytes(ws: seq<Word>): (r: seq<byte>)
    ensures |r| == 4 * |ws|
  {
    if ws == [] then [] else WordBytes(ws[0]) + ListBytes(ws[1..])
  }

  predicate FitAll(ws: seq<Word>) { forall i :: 0 <= i < |ws| ==> ws[i] < 0x1_0000_0000 }

  function UpToZero(ws: seq<Word>): (r: seq<Word>)
    ensures r <= ws && (forall i :: 0 <= i < |r| ==> r[i] != 0) && (|r| < |ws| ==> ws[|r|] == 0)
  {
    if ws == [] || ws[0] == 0 then [] else [ws[0]] + UpToZero(ws[1..])
  }

  lemma {:induction false} ListBytesSnoc(ws: seq<Word>, w: Word)
    ensures ListBytes(ws + [w]) == ListBytes(ws) + WordBytes(w)
  {
    if ws == [] {
      assert ([] + [w])[1..] == [];
    } else {
      ListBytesSnoc(ws[1..], w);
      assert (ws + [w])[1..] == ws[1..] + [w];
    }
  }

  lemma WordRead(w: Word)
    requires w < 0x1_0000_0000
    ensures LittleEndian(w % 256, w / 256 % 256, w / 65536 % 256, w / 16777216 % 256) == w
  {
    assert w / 65536 == w / 256 / 256 && w / 16777216 == w / 65536 / 256;
  }

  // The words of a list lie in memory, one behind the other.
  ghost predicate HoldsWord(mem: Memory, at: nat, w: Word) {
    && at + 4 <= |mem| && mem[at] == w % 256 && mem[at + 1] == w / 256 % 256
    && mem[at + 2] == w / 65536 % 256 && mem[at + 3] == w / 16777216 % 256
  }

  ghost predicate HoldsAt(mem: Memory, first: nat, ws: seq<Word>, k: nat)
    requires k < |ws|
  {
    HoldsWord(mem, first + 4 * k, ws[k])
  }

  ghost predicate Holds(mem: Memory, first: nat, ws: seq<Word>) {
    first + 4 * |ws| <= |mem| && forall k :: 0 <= k < |ws| ==> HoldsAt(mem, first, ws, k)
  }

  lemma {:induction false} ListBytesHold(before: seq<byte>, ws: seq<Word>, behind: seq<byte>)
    ensures Holds(before + ListBytes(ws) + behind, |before|, ws)
    decreases |ws|
  {
    if ws != [] {
      var mem, word := before + ListBytes(ws) + behind, WordBytes(ws[0]);
      ListBytesHold(before + word, ws[1..], behind);
      assert before + word + ListBytes(ws[1..]) + behind == mem;
      assert forall i :: 0 <= i < 4 ==> mem[|before| + i] == word[i];
      forall k | 0 <= k < |ws| ensures HoldsAt(mem, |before|, ws, k) {
        if k > 0 { assert HoldsAt(mem, |before + word|, ws[1..], k - 1); }
      }
    }
  }

  lemma ListRead(mem: Memory, first: nat, k: nat, w: Word)
    requires w < 0x1_0000_0000 && HoldsWord(mem, first + 4 * k, w)
    ensures WordAt(mem, first, k) == w
  {
    WordRead(w);
  }

  ghost predicate ReadsAs(mem: Memory, first: nat, ws: seq<Word>) {
    forall k {:trigger WordAt(mem, first, k)} :: 0 <= k < |ws| ==> WordAt(mem, first, k) == ws[k]
  }

  lemma HeldIsRead(mem: Memory, first: nat, ws: seq<Word>)
    requires FitAll(ws) && Holds(mem, first, ws)
    ensures ReadsAs(mem, first, ws)
  {
    forall k | 0 <= k < |ws| ensures WordAt(mem, first, k) == ws[k] {
      assert HoldsAt(mem, first, ws, k);
      ListRead(mem, first, k, ws[k]);
    }
  }

  // The reading loop gives back the words up to the first zero.
  lemma {:induction false} ListReadAll(mem: Memory, first: nat, ws: seq<Word>, k: nat)
    requires k <= |ws| <= 63 && ReadsAs(mem, first, ws)
    ensures WordsFrom(mem, first + 4 * |ws|, first, k) == UpToZero(ws[k..])
    decreases |ws| - k
  {
    if k < |ws| {
      assert WordAt(mem, first, k) == ws[k];
      ListReadAll(mem, first, ws, k + 1);
      assert ws[k..][1..] == ws[k + 1..];
    }
  }

  // The pointer field: behind the first zero address, or behind the last one.
  function PointerOf(ips: seq<Word>): byte {
    var n := |UpToZero(ips)|;
    4 * (if n < |ips| then n + 1 else n) % 256
  }

  // The record: type, length, pointer, addresses. Types without a value have no such
  // record. The length is cut to 8 bits.
  function IpListRecord(optionType: byte, ips: seq<Word>): Option<seq<byte>> {
    if optionType == END_OF_OPTIONS || optionType == NOP then None
    else Some([optionType, (4 * |ips| + 3) % 256, PointerOf(ips)] + ListBytes(ips))
  }

  // It is the place of the last address of the record's own count, counting bytes
  // from the pointer on: the first zero one, or the last of all.
  lemma PointsBehind(ips: seq<Word>, z: nat)
    requires z <= |ips| && (forall i :: 0 <= i < z ==> ips[i] != 0) && (z < |ips| ==> ips[z] == 0)
    ensures PointerOf(ips) == if z < |ips| then (4 * z + 4) % 256 else 4 * z % 256
  {
    FirstZeroAt(ips, z);
  }

  lemma FirstZeroAt(ws: seq<Word>, z: nat)
    requires z <= |ws| && (forall i :: 0 <= i < z ==> ws[i] != 0) && (z < |ws| ==> ws[z] == 0)
    ensures |UpToZero(ws)| == z
  {}

  method BuildIpList(optionType: byte, ips: seq<Word>) returns (record: Option<seq<byte>>)
    ensures record == IpListRecord(optionType, ips)
    ensures record.None? <==> optionType == 0 || optionType == 1
  {
    var value := new byte[4 * |ips| + 1];
    value[0] := 0;
    var curOffset, firstZero := 1, false;
    for i := 0 to |ips|
      invariant curOffset == 4 * i + 1 && BuiltSoFar(value[..], ips, i, firstZero)
    {
      ghost var before := value[..];
      if !firstZero { value[0] := (value[0] as int + 4) % 256; }
      CopyWord(value, curOffset, WordBytes(ips[i]));
      BuiltNext(before, value[..], ips, i, firstZero);
      if !firstZero && ips[i] == 0 { firstZero := true; }
      curOffset := curOffset + 4;
    }
    if optionType == END_OF_OPTIONS || optionType == NOP { return None; }
    record := Some([optionType, (value.Length + 2) % 256] + value[..]);
    assert ips[..|ips|] == ips;
    RecordIs(optionType, ips, value[..], record.value);
  }

  lemma RecordIs(optionType: byte, ips: seq<Word>, value: seq<byte>, record: seq<byte>)
    requires |value| == 4 * |ips| + 1 && value[0] == PointerOf(ips) && value[1..] == ListBytes(ips)
    requires record == [optionType, (|value| + 2) % 256] + value
    ensures record == [optionType, (4 * |ips| + 3) % 256, PointerOf(ips)] + ListBytes(ips)
  {
    assert value == [value[0]] + value[1..];
  }

  // The pointer and the first i addresses are in place.
  ghost predicate BuiltSoFar(value: seq<byte>, ips: seq<Word>, i: nat, firstZero: bool) {
    var n := |UpToZero(ips)|;
    && i <= |ips| && |value| == 4 * |ips| + 1 && (firstZero <==> n < i)
    && value[0] == 4 * (if firstZero then n + 1 else i) % 256
    && value[1..4 * i + 1] == ListBytes(ips[..i])
  }

  lemma BuiltNext(before: seq<byte>, after: seq<byte>, ips: seq<Word>, i: nat, firstZero: bool)
    requires i < |ips| && BuiltSoFar(before, ips, i, firstZero) && |after| == |before|
    requires after[0] == if firstZero then before[0] else (before[0] as int + 4) % 256
    requires after[1..4 * i + 5] == before[1..4 * i + 1] + WordBytes(ips[i])
    ensures BuiltSoFar(after, ips, i + 1, firstZero || ips[i] == 0)
  {
    ListBytesSnoc(ips[..i], ips[i]);
    assert ips[..i + 1] == ips[..i] + [ips[i]];
    PointerNext(4 * i);
  }

  lemma PointerNext(n: nat)
    ensures (n % 256 + 4) % 256 == (n + 4) % 256
  {}

  method CopyWord(value: array<byte>, at: nat, bytes: seq<byte>)
    requires 1 <= at && at + 4 <= value.Length && |bytes| == 4
    modifies value
    ensures value[0] == old(value[0]) && value[..][1..at + 4] == old(value[..][1..at]) + bytes
  {
    value[at], value[at + 1], value[at + 2], value[at + 3] := bytes[0], bytes[1], bytes[2], bytes[3];
  }

  // The record as it lies in a packet, in front of other memory.
  function InPacket(record: seq<byte>, behind: Memory): IPv4Option
    requires |record| >= 2
  {
    Record(record[0], record[1], record[2..] + behind)
  }

  // What getValueAsIpList gives.
  function IpListOf(o: IPv4Option): seq<Word>
    requires o.Record?
  {
    IpListSized(o.memory, GetDataSize(o))
  }

  function IpListSized(mem: Memory, size: nat): seq<Word> { if size < 2 then [] else WordsFrom(mem, size, 1, 0) }

  lemma CutLength(n: nat)
    ensures (4 * n + 3) % 256 == 4 * (n % 64) + 3
  {
    assert 4 * n + 3 == 256 * (n / 64) + (4 * (n % 64) + 3);
  }

  lemma RecordInPacket(optionType: byte, ips: seq<Word>, behind: Memory)
    requires optionType != END_OF_OPTIONS && optionType != NOP
    ensures IpListRecord(optionType, ips).Some? && |IpListRecord(optionType, ips).value| >= 2
    ensures InPacket(IpListRecord(optionType, ips).value, behind)
            == Record(optionType, 4 * (|ips| % 64) + 3, [PointerOf(ips)] + ListBytes(ips) + behind)
  {
    CutLength(|ips|);
    assert IpListRecord(optionType, ips).value[2..] == [PointerOf(ips)] + ListBytes(ips);
  }

  lemma DataSizeIs(optionType: byte, len: byte, mem: Memory)
    requires optionType != END_OF_OPTIONS && optionType != NOP && len >= 2
    ensures GetDataSize(Record(optionType, len, mem)) == len - 2
  {}

  lemma ReadBackIn(mem: Memory, first: nat, ws: seq<Word>, size: nat)
    requires |ws| < 64 && ReadsAs(mem, first, ws) && size == first + 4 * |ws|
    ensures WordsFrom(mem, size, first, 0) == UpToZero(ws)
  {
    ListReadAll(mem, first, ws, 0);
    assert ws[0..] == ws;
  }

  lemma SizedReadBack(mem: Memory, ws: seq<Word>)
    requires |ws| < 64 && ReadsAs(mem, 1, ws)
    ensures IpListSized(mem, 4 * |ws| + 1) == UpToZero(ws)
  {
    ReadBackIn(mem, 1, ws, 4 * |ws| + 1);
  }

  lemma ValueReads(pointer: byte, ips: seq<Word>, behind: Memory, m: nat)
    requires FitAll(ips) && m <= |ips|
    ensures ReadsAs([pointer] + ListBytes(ips) + behind, 1, ips[..m])
  {
    ListBytesHold([pointer], ips, behind);
    HeldIsRead([pointer] + ListBytes(ips) + behind, 1, ips);
  }

  lemma RecordReads(optionType: byte, ips: seq<Word>, behind: Memory)
    requires optionType != END_OF_OPTIONS && optionType != NOP && FitAll(ips)
    ensures IpListRecord(optionType, ips).Some? && |IpListRecord(optionType, ips).value| >= 2
    ensures var o, cut := InPacket(IpListRecord(optionType, ips).value, behind), ips[..|ips| % 64];
            o.Record? && GetDataSize(o) == 4 * |cut| + 1 && ReadsAs(o.memory, 1, cut)
  {
    RecordInPacket(optionType, ips, behind);
    DataSizeIs(optionType, 4 * (|ips| % 64) + 3, [PointerOf(ips)] + ListBytes(ips) + behind);
    ValueReads(PointerOf(ips), ips, behind, |ips| % 64);
  }

  // A list of addresses is read back up to its first zero address, after its length
  // has been cut to a remainder of 64; the loop always ends.
  lemma IpListReadBack(optionType: byte, ips: seq<Word>, behind: Memory)
    requires optionType != END_OF_OPTIONS && optionType != NOP && FitAll(ips)
    ensures IpListRecord(optionType, ips).Some? && |IpListRecord(optionType, ips).value| >= 2
    ensures var o := InPacket(IpListRecord(optionType, ips).value, behind);
            IpListOf(o) == UpToZero(ips[..|ips| % 64]) && Stops(o.memory, GetDataSize(o), 1)
  {
    RecordReads(optionType, ips, behind);
    SizedReadBack(InPacket(IpListRecord(optionType, ips).value, behind).memory, ips[..|ips| % 64]);
  }

  // So it comes back as it was given exactly if there are fewer than 64 addresses,
  // none of them zero.
  lemma IpListRoundTripIff(optionType: byte, ips: seq<Word>, behind: Memory)
    requires optionType > 1 && FitAll(ips)
    ensures IpListRecord(optionType, ips).Some? && |IpListRecord(optionType, ips).value| >= 2
    ensures IpListOf(InPacket(IpListRecord(optionType, ips).value, behind)) == ips
            <==> |ips| < 64 && forall i :: 0 <= i < |ips| ==> ips[i] != 0
  {
    IpListReadBack(optionType, ips, behind);
    PrefixIsAllIff(ips);
  }

  lemma PrefixIsAllIff(ips: seq<Word>)
    ensures UpToZero(ips[..|ips| % 64]) == ips <==> |ips| < 64 && forall i :: 0 <= i < |ips| ==> ips[i] != 0
  {
    var cut := ips[..|ips| % 64];
    if |ips| < 64 {
      assert cut == ips;
    } else {
      assert |UpToZero(cut)| <= |cut| < |ips|;
    }
  }

  // ---------- the timestamp option, built and read back ----------

  // htobe32, on a little-endian machine.
  function Swap(w: Word): Word {
    LittleEndian(w / 16777216 % 256, w / 65536 % 256, w / 256 % 256, w % 256)
  }

  function Swapped(ws: seq<Word>): (r: seq<Word>)
    ensures |r| == |ws|
  {
    seq(|ws|, i requires 0 <= i < |ws| => Swap(ws[i]))
  }

  // The words of the value, given the timestamps in network order: each behind its
  // address, if there are addresses.
  function Written(kind: byte, stamps: seq<Word>, ips: seq<Word>): seq<Word> {
    if kind == TIMESTAMP_AND_IP then Interleave(ips, stamps) else stamps
  }

  // The pointer field: 1, or the place of the first zero timestamp.
  function StampPointer(kind: byte, stamps: seq<Word>): byte {
    var z := |UpToZero(stamps)|;
    if z == |stamps| then 1 else (5 + 4 * z + if kind == TIMESTAMP_AND_IP then 4 * z else 0) % 256
  }

  // Counting the record's bytes from 1, it is where the slot of that timestamp begins:
  // behind four bytes, slots of 8 bytes with an address, of 4 without.
  lemma PointsAtSlot(kind: byte, stamps: seq<Word>, z: nat)
    requires z <= |stamps| && (forall i :: 0 <= i < z ==> stamps[i] != 0) && (z < |stamps| ==> stamps[z] == 0)
    ensures StampPointer(kind, stamps)
            == if z == |stamps| then 1 else if kind == 1 then (8 * z + 5) % 256 else (4 * z + 5) % 256
  {
    FirstZeroAt(stamps, z);
  }

  predicate Buildable(kind: byte, stamps: seq<Word>, ips: seq<Word>) {
    kind != UNKNOWN && kind != PRESPECIFIED && (kind == TIMESTAMP_AND_IP ==> |stamps| == |ips|)
  }

  function StampValue(pointer: byte, kind: byte, words: seq<Word>): seq<byte> { [pointer, kind] + ListBytes(words) }

  function OptionRecord(optionType: byte, value: seq<byte>): seq<byte> {
    [optionType, (|value| + 2) % 256] + value
  }

  function TimestampRecord(kind: byte, stamps: seq<Word>, ips: seq<Word>): Option<seq<byte>> {
    if !Buildable(kind, stamps, ips) then None
    else Some(OptionRecord(TIMESTAMP, StampValue(StampPointer(kind, stamps), kind, Written(kind, stamps, ips))))
  }

  lemma {:induction false} InterleaveLength(a: seq<Word>, b: seq<Word>)
    ensures |Interleave(a, b)| == |a| + |b|
    decreases |a| + |b|
  {
    if a != [] { InterleaveLength(b, a[1..]); }
  }

  lemma {:induction false} InterleaveFits(a: seq<Word>, b: seq<Word>)
    requires FitAll(a) && FitAll(b)
    ensures FitAll(Interleave(a, b))
    decreases |a| + |b|
  {
    if a != [] { InterleaveFits(b, a[1..]); }
  }

  // How the words were dealt out can be told from their order.
  lemma {:induction false} InterleaveUnique(a: seq<Word>, b: seq<Word>, c: seq<Word>, d: seq<Word>)
    requires Interleave(a, b) == Interleave(c, d)
    requires (|a| == |b| || |a| == |b| + 1) && (|c| == |d| || |c| == |d| + 1)
    ensures a == c && b == d
    decreases |a| + |b|
  {
    InterleaveLength(a, b);
    InterleaveLength(c, d);
    if a != [] {
      assert Interleave(b, a[1..]) == Interleave(a, b)[1..] == Interleave(c, d)[1..] == Interleave(d, c[1..]);
      InterleaveUnique(b, a[1..], d, c[1..]);
      assert a == [a[0]] + a[1..] && c == [c[0]] + c[1..];
    }
  }

  lemma InterleavePair(a: seq<Word>, b: seq<Word>, x: Word, y: Word)
    requires |a| == |b|
    ensures Interleave(a + [x], b + [y]) == Interleave(a, b) + [x] + [y]
  {
    InterleaveSnoc(a, b, x);
    InterleaveSnoc(a + [x], b, y);
  }

  lemma WrittenSnoc(kind: byte, stamps: seq<Word>, ips: seq<Word>, i: nat)
    requires i < |stamps| && (kind == TIMESTAMP_AND_IP ==> |stamps| == |ips|)
    ensures kind == TIMESTAMP_AND_IP ==>
              Written(kind, stamps[..i + 1], ips[..i + 1])
              == Written(kind, stamps[..i], ips[..i]) + [ips[i]] + [stamps[i]]
    ensures kind != TIMESTAMP_AND_IP ==>
              Written(kind, stamps[..i + 1], []) == Written(kind, stamps[..i], []) + [stamps[i]]
  {
    assert stamps[..i + 1] == stamps[..i] + [stamps[i]];
    if kind == TIMESTAMP_AND_IP {
      assert ips[..i + 1] == ips[..i] + [ips[i]];
      InterleavePair(ips[..i], stamps[..i], ips[i], stamps[i]);
    }
  }

  // The words of the first i timestamps.
  function WrittenSoFar(kind: byte, stamps: seq<Word>, ips: seq<Word>, i: nat): seq<Word>
    requires i <= |stamps| && (kind == TIMESTAMP_AND_IP ==> |stamps| == |ips|)
  {
    Written(kind, stamps[..i], if kind == TIMESTAMP_AND_IP then ips[..i] else [])
  }

  lemma WrittenSize(kind: byte, stamps: seq<Word>, ips: seq<Word>, i: nat)
    requires i <= |stamps| && (kind == TIMESTAMP_AND_IP ==> |stamps| == |ips|)
    ensures |WrittenSoFar(kind, stamps, ips, i)| == if kind == TIMESTAMP_AND_IP then 2 * i else i
    ensures WrittenSoFar(kind, stamps, ips, |stamps|) == Written(kind, stamps, ips)
    ensures WrittenSoFar(kind, stamps, ips, 0) == []
  {
    assert stamps[..|stamps|] == stamps;
    if kind == TIMESTAMP_AND_IP {
      assert ips[..|ips|] == ips;
      InterleaveLength(ips[..i], stamps[..i]);
      InterleaveLength(ips[..0], stamps[..0]);
    }
  }

  // Behind the pointer: the kind, and the words of the first i timestamps.
  ghost predicate StampedSoFar(value: seq<byte>, kind: byte, stamps: seq<Word>, ips: seq<Word>, i: nat, at: nat) {
    && i <= |stamps| && (kind == TIMESTAMP_AND_IP ==> |stamps| == |ips|)
    && at == 2 + 4 * |WrittenSoFar(kind, stamps, ips, i)| <= |value|
    && value[1..at] == [kind] + ListBytes(WrittenSoFar(kind, stamps, ips, i))
  }

  lemma StampedNone(value: seq<byte>, kind: byte, stamps: seq<Word>, ips: seq<Word>)
    requires |value| >= 2 && value[1] == kind && (kind == TIMESTAMP_AND_IP ==> |stamps| == |ips|)
    ensures StampedSoFar(value, kind, stamps, ips, 0, 2)
  {
    WrittenSize(kind, stamps, ips, 0);
  }

  // The first zero among the first i words, or -1.
  function FirstZero(ws: seq<Word>, i: nat): int {
    if |UpToZero(ws)| < i then |UpToZero(ws)| else -1
  }

  lemma FirstZeroNext(ws: seq<Word>, i: nat)
    requires i < |ws|
    ensures FirstZero(ws, i + 1) == if ws[i] == 0 && FirstZero(ws, i) == -1 then i else FirstZero(ws, i)
  {}

  lemma StampedAll(before: seq<byte>, value: seq<byte>, kind: byte, stamps: seq<Word>, ips: seq<Word>, at: nat)
    requires StampedSoFar(before, kind, stamps, ips, |stamps|, at) && |before| == at == |value|
    requires value[1..] == before[1..]
    requires var z := FirstZero(stamps, |stamps|);
             value[0] == if z > -1 then (5 + 4 * z + if kind == TIMESTAMP_AND_IP then 4 * z else 0) % 256 else 1
    ensures value == StampValue(StampPointer(kind, stamps), kind, Written(kind, stamps, ips))
  {
    WrittenSize(kind, stamps, ips, |stamps|);
    assert value == [value[0]] + before[1..at];
  }

  method BuildTimestamp(kind: byte, timestamps: seq<Word>, ips: seq<Word>) returns (record: Option<seq<byte>>)
    ensures record == TimestampRecord(kind, Swapped(timestamps), ips)
    ensures record.None? <==> kind == 2 || kind == 3 || (kind == 1 && |timestamps| != |ips|)
    ensures record.Some? ==> record.value[0] == 68
  {
    if kind == UNKNOWN || kind == PRESPECIFIED { return None; }
    if kind == TIMESTAMP_AND_IP && |timestamps| != |ips| { return None; }
    ghost var stamps := Swapped(timestamps);
    var value := new byte[2 + 4 * |timestamps| + if kind == TIMESTAMP_AND_IP then 4 * |timestamps| else 0];
    value[0], value[1] := 1, kind;
    var curOffset, firstZero := 2, -1;
    StampedNone(value[..], kind, stamps, ips);
    for i := 0 to |timestamps|
      invariant value[0] == 1 && StampedSoFar(value[..], kind, stamps, ips, i, curOffset)
      invariant curOffset == 2 + 4 * i + if kind == TIMESTAMP_AND_IP then 4 * i else 0
      invariant firstZero == FirstZero(stamps, i)
    {
      var timestamp := Swap(timestamps[i]);
      var ip := if kind == TIMESTAMP_AND_IP then ips[i] else 0;
      FirstZeroNext(stamps, i);
      if timestamp == 0 && firstZero == -1 { firstZero := i; }
      curOffset := PutStamp(value, curOffset, kind, timestamp, ip, stamps, ips, i);
    }
    ghost var before := value[..];
    if firstZero > -1 {
      value[0] := (5 + 4 * firstZero + if kind == TIMESTAMP_AND_IP then 4 * firstZero else 0) % 256;
    }
    assert value[..][1..] == before[1..];
    StampedAll(before, value[..], kind, stamps, ips, curOffset);
    record := Some(OptionRecord(TIMESTAMP, value[..]));
  }

  // One turn of the loop: the address, if there is one, and the timestamp.
  method PutStamp(value: array<byte>, at: nat, kind: byte, stamp: Word, ip: Word,
                  ghost stamps: seq<Word>, ghost ips: seq<Word>, ghost i: nat)
    returns (end: nat)
    requires i < |stamps| && stamps[i] == stamp && (kind == TIMESTAMP_AND_IP ==> |stamps| == |ips| && ips[i] == ip)
    requires 2 <= at && at + (if kind == TIMESTAMP_AND_IP then 8 else 4) <= value.Length
    requires StampedSoFar(value[..], kind, stamps, ips, i, at)
    modifies value
    ensures end == at + (if kind == TIMESTAMP_AND_IP then 8 else 4) && value[0] == old(value[0])
    ensures StampedSoFar(value[..], kind, stamps, ips, i + 1, end)
  {
    ghost var before := value[..];
    end := at;
    if kind == TIMESTAMP_AND_IP {
      CopyWord(value, end, WordBytes(ip));
      end := end + 4;
    }
    CopyWord(value, end, WordBytes(stamp));
    end := end + 4;
    StampedNext(before, value[..], kind, stamps, ips, i, at, end);
  }

  lemma StampedNext(before: seq<byte>, after: seq<byte>, kind: byte, stamps: seq<Word>, ips: seq<Word>,
                    i: nat, at: nat, end: nat)
    requires i < |stamps| && StampedSoFar(before, kind, stamps, ips, i, at) && |after| == |before|
    requires end == at + (if kind == TIMESTAMP_AND_IP then 8 else 4) <= |after|
    requires after[1..end] == if kind == TIMESTAMP_AND_IP then before[1..at] + WordBytes(ips[i]) + WordBytes(stamps[i])
                              else before[1..at] + WordBytes(stamps[i])
    ensures StampedSoFar(after, kind, stamps, ips, i + 1, end)
  {
    var words := WrittenSoFar(kind, stamps, ips, i);
    WrittenSnoc(kind, stamps, ips, i);
    if kind == TIMESTAMP_AND_IP {
      ListBytesSnoc(words, ips[i]);
      ListBytesSnoc(words + [ips[i]], stamps[i]);
    } else {
      ListBytesSnoc(words, stamps[i]);
    }
  }

  function StampOption(pointer: byte, kind: byte, words: seq<Word>, behind: Memory): IPv4Option {
    Record(TIMESTAMP, (4 * |words| + 4) % 256, StampValue(pointer, kind, words) + behind)
  }

  lemma RecordBehind(optionType: byte, value: seq<byte>, behind: Memory)
    ensures InPacket(OptionRecord(optionType, value), behind) == Record(optionType, (|value| + 2) % 256, value + behind)
  {
    assert OptionRecord(optionType, value)[2..] == value;
  }

  lemma StampHolds(pointer: byte, kind: byte, words: seq<Word>, behind: Memory)
    requires FitAll(words)
    ensures var mem := StampValue(pointer, kind, words) + behind; mem[1] == kind && ReadsAs(mem, 2, words)
  {
    ListBytesHold([pointer, kind], words, behind);
    HeldIsRead(StampValue(pointer, kind, words) + behind, 2, words);
  }

  lemma WordsReadBack(mem: Memory, words: seq<Word>, size: nat)
    requires ReadsAs(mem, 2, words) && |words| < 64 && size == 4 * |words| + 2
    requires forall i :: 0 <= i < |words| ==> words[i] != 0
    ensures WordsFrom(mem, size, 2, 0) == words
  {
    ReadBackIn(mem, 2, words, size);
    NoZero(words);
  }

  lemma StampReads(pointer: byte, kind: byte, words: seq<Word>, behind: Memory)
    requires FitAll(words) && 4 * |words| + 4 <= 255 && forall i :: 0 <= i < |words| ==> words[i] != 0
    ensures var o := StampOption(pointer, kind, words, behind);
            && o.memory[1] == kind && GetDataSize(o) == 4 * |words| + 2
            && WordsFrom(o.memory, GetDataSize(o), 2, 0) == words
  {
    var mem := StampValue(pointer, kind, words) + behind;
    DataSizeIs(TIMESTAMP, 4 * |words| + 4, mem);
    StampHolds(pointer, kind, words, behind);
    WordsReadBack(mem, words, 4 * |words| + 2);
  }

  lemma NoZero(ws: seq<Word>)
    requires forall i :: 0 <= i < |ws| ==> ws[i] != 0
    ensures UpToZero(ws) == ws
  {}

  // A record whose length fits its byte and that holds no zero word is read back with
  // the type and the addresses as given, and the timestamps as they lie there, in
  // network order: nothing turns them round again.
  lemma TimestampReadBack(kind: byte, stamps: seq<Word>, ips: seq<Word>, behind: Memory, res: TimestampValue)
    requires Buildable(kind, stamps, ips) && FitAll(stamps) && FitAll(ips)
    requires var words := Written(kind, stamps, ips);
             4 * |words| + 4 <= 255 && forall i :: 0 <= i < |words| ==> words[i] != 0
    requires var o := InPacket(TimestampRecord(kind, stamps, ips).value, behind); Mapped(o) && DealtOut(o, res)
    ensures res == TimestampValue(kind, stamps, if kind == TIMESTAMP_AND_IP then ips else [])
  {
    var words, pointer := Written(kind, stamps, ips), StampPointer(kind, stamps);
    if kind == TIMESTAMP_AND_IP { InterleaveFits(ips, stamps); }
    RecordBehind(TIMESTAMP, StampValue(pointer, kind, words), behind);
    StampReads(pointer, kind, words, behind);
    if kind == TIMESTAMP_AND_IP {
      InterleaveUnique(res.ipAddresses, res.timestamps, ips, stamps);
    }
  }

  // So timestamps come back as they were given exactly if each reads the same in
  // either byte order.
  lemma TimestampRoundTripIff(timestamps: seq<Word>)
    ensures FitAll(Swapped(timestamps))
    ensures Swapped(timestamps) == timestamps
            <==> forall i :: 0 <= i < |timestamps| ==> ReadsEitherWay(timestamps[i])
  {
    forall i | 0 <= i < |timestamps|
      ensures Swapped(timestamps)[i] < 0x1_0000_0000
      ensures Swapped(timestamps)[i] == timestamps[i] <==> ReadsEitherWay(timestamps[i])
    {
      SwapSameIff(timestamps[i]);
    }
  }

  predicate ReadsEitherWay(w: Word) {
    w < 0x1_0000_0000 && w % 256 == w / 16777216 % 256 && w / 256 % 256 == w / 65536 % 256
  }

  lemma SwapSameIff(w: Word)
    ensures Swap(w) < 0x1_0000_0000 && (Swap(w) == w <==> ReadsEitherWay(w))
  {
    if w < 0x1_0000_0000 { WordRead(w); }
  }
}
