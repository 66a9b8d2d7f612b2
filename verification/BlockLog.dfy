/** libraries/chain/block_log.cpp: appending to the log and its index, and rebuilding the index by a
    buffered backward scan of the log and a buffered backward writer. */
module BlockLogClass {
  import opened Basics
  import opened LogFormat

  // ---------------------------------------------------------------- scanning the log backwards

  class ReverseIterator {
    const file: Bytes
    const buffer: array<int>
    var version: nat
    var firstNum: nat
    var lastNum: nat
    var found: nat
    var expected: nat
    var current: int
    var startOfBuffer: nat
    var endOfBuffer: nat

    constructor (log: Bytes, bufLen: nat)
      ensures file == log && fresh(buffer) && buffer.Length == bufLen
    {
      file, buffer := log, new int[bufLen];
    }

    /** The buffer holds the stretch of the file that its positions say. */
    ghost predicate Loaded()
      reads this, buffer
    {
      && startOfBuffer <= endOfBuffer <= |file| && endOfBuffer - startOfBuffer <= buffer.Length
      && current + 8 <= endOfBuffer
      && forall i | 0 <= i < endOfBuffer - startOfBuffer :: buffer[i] == file[startOfBuffer + i]
    }

    /** `left` blocks of the log with positions ps have not been returned yet. */
    ghost predicate Ready(ps: seq<int>, left: nat)
      reads this, buffer
    {
      && Format(file, version, firstNum, ps) && 8 <= buffer.Length && Loaded()
      && left <= |ps| && found == |ps| - left && expected == |ps|
      && current == EntryEnd(file, ps, left - 1) - 8
    }

    method UpdateBuffer()
      requires 0 <= current && current + 8 <= |file| && 8 <= buffer.Length
      modifies this`startOfBuffer, this`endOfBuffer, buffer
      ensures Loaded() && startOfBuffer <= current && endOfBuffer == current + 8
    {
      endOfBuffer := current + 8;
      startOfBuffer := if endOfBuffer < buffer.Length then 0 else endOfBuffer - buffer.Length;
      forall i | 0 <= i < endOfBuffer - startOfBuffer {
        buffer[i] := file[startOfBuffer + i];
      }
    }

    /** Reads version, first number and last block number; the result is the number of blocks. */
    method Open(ghost ps: seq<int>, ghost v: nat, ghost first: nat) returns (blocks: nat)
      requires Format(file, v, first, ps) && 8 <= buffer.Length
      modifies this, buffer
      ensures blocks == |ps| && version == v && firstNum == first
      ensures blocks > 0 ==> Ready(ps, |ps|)
    {
      hide Word, Be32, Entry, Header;
      OpenFacts(file, v, first, ps);
      version := Word(file, 0, 4);
      firstNum := if version == 1 then 1 else Word(file, 4, 4);
      current := |file| - 8;
      UpdateBuffer();
      found := 0;
      BufferWord(current - startOfBuffer);
      var blockPos := Word(buffer[..], current - startOfBuffer, 8);
      if blockPos == NPOS {
        return 0;
      }
      var previousNum;
      if blockPos >= startOfBuffer {
        BufferNum(blockPos - startOfBuffer + BLKNUM_OFFSET);
        previousNum := Be32(buffer[..], blockPos - startOfBuffer + BLKNUM_OFFSET);
      } else {
        previousNum := Be32(file, blockPos + BLKNUM_OFFSET);
      }
      lastNum := (previousNum + 1) % TWO32;
      expected := (lastNum - firstNum + 1) % TWO32;
      return expected;
    }

    /** The position of the last block not yet returned, or NPOS. Neither the check against too few
        blocks nor the check against forward links can fail. */
    method Previous(ghost ps: seq<int>, ghost left: nat) returns (pos: int)
      requires Ready(ps, left) && ps != []
      modifies this`current, this`found, this`startOfBuffer, this`endOfBuffer, buffer
      ensures if left == 0 then pos == NPOS else pos == ps[left-1] && Ready(ps, left - 1)
    {
      hide Word, Be32, Header;
      EndFacts(file, version, firstNum, ps, left);
      if version == 1 && found == expected {
        current := NPOS;
        return NPOS;
      }
      if startOfBuffer > current {
        UpdateBuffer();
      }
      BufferWord(current - startOfBuffer);
      pos := Word(buffer[..], current - startOfBuffer, 8);
      found := found + 1;
      if pos == NPOS {
        current := pos;
        assert found != expected;
      } else {
        var previous := current;
        current := pos - 8;
        assert 0 <= current < previous;
      }
    }

    lemma BufferWord(at: nat)
      requires Loaded() && startOfBuffer + at + 8 <= endOfBuffer
      ensures Word(buffer[..], at, 8) == Word(file, startOfBuffer + at, 8)
    {
      hide Word;
      var loaded, q := buffer[..], startOfBuffer + at;
      forall j | at <= j < at + 8 ensures loaded[j] == file[j - at + q] {
        assert loaded[j] == buffer[j] == file[startOfBuffer + j];
      }
      WordSame(loaded, at, file, q, 8);
    }

    lemma BufferNum(at: nat)
      requires Loaded() && startOfBuffer + at + 4 <= endOfBuffer
      ensures Be32(buffer[..], at) == Be32(file, startOfBuffer + at)
    {
      forall i | at <= i < at + 4 ensures buffer[..][i] == file[startOfBuffer + i] {
        assert buffer[i] == file[startOfBuffer + i];
      }
    }
  }

  lemma OpenFacts(file: Bytes, version: nat, first: nat, ps: seq<int>)
    requires Format(file, version, first, ps)
    ensures 8 <= |file| && Word(file, 0, 4) == version && (version == 1 ==> first == 1)
    ensures version != 1 ==> Word(file, 4, 4) == first
    ensures if ps == [] then Word(file, |file| - 8, 8) == NPOS
            else var last := ps[|ps|-1];
                 && 0 <= last && last + MIN_PACKED + 8 <= |file| && Word(file, |file| - 8, 8) == last
                 && Be32(file, last + BLKNUM_OFFSET) + 1 == first + |ps| - 1
  {
    hide Word, Be32;
    if ps != [] {
      assert Entry(file, first, ps, |ps| - 1);
      Ascending(file, version, first, ps, 0);
    }
  }

  lemma EndFacts(file: Bytes, version: nat, first: nat, ps: seq<int>, left: nat)
    requires Format(file, version, first, ps) && ps != [] && left <= |ps|
    ensures left == 0 && version != 1 ==> 8 <= ps[0] <= |file| && Word(file, ps[0] - 8, 8) == NPOS
    ensures left > 0 ==> Entry(file, first, ps, left - 1) && 8 <= ps[left-1]
  {
    hide Word, Be32;
    Ascending(file, version, first, ps, 0);
    if left > 0 { Ascending(file, version, first, ps, left - 1); }
  }

  lemma {:induction false} Ascending(file: Bytes, version: nat, first: nat, ps: seq<int>, i: nat)
    requires Format(file, version, first, ps) && i < |ps|
    ensures 8 <= ps[0] <= ps[i] < |file|
  {
    hide Word, Be32;
    assert Entry(file, first, ps, i);
    if i > 0 {
      assert Entry(file, first, ps, i - 1);
      Ascending(file, version, first, ps, i - 1);
    }
  }

  // ---------------------------------------------------------------- writing the index backwards

  const TWO29 := 0x2000_0000

  /** buffer_location_to_file_location: a shift in 32 bits. */
  function FileLocation(slot: int): nat { (slot % TWO32 * 8) % TWO32 }

  /** The slot that the first write goes to. */
  function FirstSlot(blocks: nat): nat { (FileLocation(blocks) / 8 - 1) % TWO32 }

  lemma FirstSlotExact(blocks: nat)
    requires 0 < blocks < TWO32
    ensures FirstSlot(blocks) == blocks - 1 <==> blocks < TWO29
  {
  }

  lemma SmallLocation(slot: int)
    requires 0 <= slot < TWO29
    ensures FileLocation(slot) == 8 * slot
  {
  }

  /** Overwrites from slot `at` on, filling a gap with zeros as a seek past the end does. */
  function WriteAt(out: seq<int>, at: nat, data: seq<int>): (r: seq<int>)
    ensures |r| == if at + |data| <= |out| then |out| else at + |data|
  {
    var padded := if |out| < at then out + seq(at - |out|, i => 0) else out;
    padded[..at] + data + (if at + |data| < |padded| then padded[at + |data|..] else [])
  }

  lemma WriteAtContents(out: seq<int>, at: nat, data: seq<int>, j: nat)
    requires at <= j < |WriteAt(out, at, data)|
    ensures WriteAt(out, at, data)[j] == if j < at + |data| then data[j - at] else out[j]
  {
  }

  class IndexWriter {
    const buffer: array<int>
    const expected: nat
    var isOpen: bool
    var out: seq<int>         // the index file, in slots of eight bytes
    var current: int
    var startOfBuffer: int
    var endOfBuffer: int

    constructor (blocks: nat, slots: nat)
      ensures expected == blocks && fresh(buffer) && buffer.Length == slots && !isOpen && out == []
    {
      expected, buffer, isOpen, out := blocks, new int[slots], false, [];
      current, startOfBuffer, endOfBuffer := 0, 0, 0;
    }

    ghost predicate Placed()
      reads this
    {
      && 1 <= buffer.Length < TWO29 && -1 <= current && 0 < endOfBuffer
      && startOfBuffer == (if endOfBuffer < buffer.Length then 0 else endOfBuffer - buffer.Length)
      && startOfBuffer - 1 <= current < endOfBuffer
    }

    /** Everything above `current` has been written: to the buffer, or already to the file. */
    ghost predicate Filled(ps: seq<int>)
      reads this, buffer
    {
      isOpen && expected < TWO29 ==>
        && |ps| == expected && endOfBuffer <= |ps|
        && Written(buffer[..], out, current, startOfBuffer, endOfBuffer, ps)
    }

    method UpdateBufferPosition()
      requires -1 <= current
      modifies this`startOfBuffer, this`endOfBuffer
      ensures endOfBuffer == current + 1
      ensures startOfBuffer == if endOfBuffer < buffer.Length then 0 else endOfBuffer - buffer.Length
    {
      endOfBuffer := current + 1;
      startOfBuffer := if endOfBuffer < buffer.Length then 0 else endOfBuffer - buffer.Length;
    }

    method ShiftBuffer(ghost ps: seq<int>) returns (shifted: bool)
      requires Placed() && isOpen && Filled(ps)
      modifies this`out, this`startOfBuffer, this`endOfBuffer
      ensures shifted == (current < old(startOfBuffer)) && Filled(ps)
      ensures startOfBuffer == (if endOfBuffer < buffer.Length then 0 else endOfBuffer - buffer.Length)
      ensures shifted ==> endOfBuffer == current + 1
      ensures !shifted ==> unchanged(this)
    {
      hide FileLocation, WriteAt, Written;
      if current >= startOfBuffer {
        return false;
      }
      ghost var buf, was, start, end := buffer[..], out, startOfBuffer, endOfBuffer;
      assert current == start - 1 && start < end;
      SmallLocation(end - start);
      var location := FileLocation(startOfBuffer);
      var size := FileLocation(endOfBuffer - startOfBuffer);
      var data := buffer[..size / 8];
      assert data == buf[..end - start];
      out := WriteAt(out, location / 8, data);
      UpdateBufferPosition();
      if expected < TWO29 {
        SmallLocation(start);
        FlushWritten(buf, was, start, end, startOfBuffer, ps);
        assert buffer[..] == buf;
      }
      return true;
    }

    /** Stores one position; false stands for an access outside the buffer. */
    method Write(pos: int, ghost ps: seq<int>) returns (ok: bool)
      requires 1 <= buffer.Length < TWO29 && (isOpen ==> Placed()) && Filled(ps) && 0 < expected < TWO32
      requires expected < TWO29 ==>
                 var next := if isOpen then current else |ps| - 1; |ps| == expected && 0 <= next < |ps| && pos == ps[next]
      requires !isOpen ==> out == []
      modifies this`isOpen, this`out, this`current, this`startOfBuffer, this`endOfBuffer, buffer
      ensures isOpen && (ok ==> Placed()) && Filled(ps) && (expected < TWO29 ==> ok)
      ensures ok ==> current == (if old(isOpen) then old(current) else FirstSlot(expected)) - 1
    {
      hide Written, FirstSlot;
      FirstSlotExact(expected);
      if !isOpen {
        isOpen := true;
        current := FirstSlot(expected);
        UpdateBufferPosition();
        StartWritten(buffer[..], startOfBuffer, endOfBuffer, ps);
      }
      var shifted := ShiftBuffer(ps);
      ok := 0 <= current - startOfBuffer < buffer.Length;
      if !ok { return; }
      if expected < TWO29 {
        StoreWritten(buffer[..], out, current, startOfBuffer, endOfBuffer, ps, pos);
      }
      ghost var was := buffer[..];
      buffer[current - startOfBuffer] := pos;
      assert buffer[..] == was[current - startOfBuffer := pos];
      current := current - 1;
    }

    /** The last flush. */
    method Complete(ghost ps: seq<int>) returns (ok: bool)
      requires Placed() && isOpen && Filled(ps) && expected > 0
      modifies this`out, this`startOfBuffer, this`endOfBuffer
      ensures ok == (current == -1)
      ensures ok && expected < TWO29 ==> out == ps
    {
      hide Written;
      var shifted := ShiftBuffer(ps);
      if shifted && current == -1 && expected < TWO29 { AllWritten(buffer[..], out, ps); }
      return shifted && current == -1;
    }
  }

  /** Slots above `current` hold their positions: those below `end` in the buffer, which starts at
      `start`, the others in the file, which is empty before the first flush. */
  ghost predicate Written(buf: seq<int>, out: seq<int>, current: int, start: int, end: int, ps: seq<int>) {
    && 0 <= start <= end <= |ps| && end - start <= |buf| && start - 1 <= current
    && (forall i | current - start < i < end - start :: buf[i] == ps[start + i])
    && (if end == |ps| then out == [] else |out| == |ps| && forall j | end <= j < |ps| :: out[j] == ps[j])
  }

  lemma StartWritten(buf: seq<int>, start: int, end: int, ps: seq<int>)
    ensures 0 <= start <= end == |ps| && end - start <= |buf| ==> Written(buf, [], end - 1, start, end, ps)
  {
  }

  lemma StoreWritten(buf: seq<int>, out: seq<int>, current: int, start: int, end: int, ps: seq<int>, pos: int)
    requires Written(buf, out, current, start, end, ps) && start <= current < end && pos == ps[current]
    ensures Written(buf[current - start := pos], out, current - 1, start, end, ps)
  {
  }

  lemma FlushWritten(buf: seq<int>, out: seq<int>, start: int, end: int, start': int, ps: seq<int>)
    requires Written(buf, out, start - 1, start, end, ps) && start < end
    requires 0 <= start' <= start && start - start' <= |buf|
    ensures Written(buf, WriteAt(out, start, buf[..end - start]), start - 1, start', start, ps)
  {
    hide WriteAt;
    var data := buf[..end - start];
    forall j | start <= j < |ps| ensures WriteAt(out, start, data)[j] == ps[j] {
      WriteAtContents(out, start, data, j);
    }
  }

  lemma AllWritten(buf: seq<int>, out: seq<int>, ps: seq<int>)
    requires Written(buf, out, -1, 0, 0, ps) && ps != []
    ensures out == ps
  {
  }

  lemma PositionsBelow(file: Bytes, version: nat, first: nat, ps: seq<int>)
    requires Format(file, version, first, ps)
    ensures forall i | 0 <= i < |ps| :: ps[i] < NPOS
  {
    forall i | 0 <= i < |ps| ensures ps[i] < NPOS { Ascending(file, version, first, ps, i); }
  }

  datatype Rebuilt = Index(positions: seq<int>) | Failed

  /** construct_index. For every well-formed log and all buffer sizes the rebuilt index is the
      sequence of positions, if and only if there are fewer than 2^29 blocks. */
  method ConstructIndex(file: Bytes, bufLen: nat, slots: nat, ghost ps: seq<int>, ghost v: nat, ghost first: nat)
    returns (r: Rebuilt)
    requires Format(file, v, first, ps) && 8 <= bufLen && 1 <= slots < TWO29
    ensures r == if |ps| < TWO29 then Index(ps) else Failed
  {
    hide Word, Be32, Entry, Header, FirstSlot, FileLocation;
    var scan := new ReverseIterator(file, bufLen);
    var blocks := scan.Open(ps, v, first);
    if blocks == 0 { return Index([]); }
    FirstSlotExact(blocks);
    var index := new IndexWriter(blocks, slots);
    PositionsBelow(file, v, first, ps);
    ghost var left: int := blocks;
    var position := scan.Previous(ps, left);
    while position != NPOS
      invariant 0 <= left <= |ps| && fresh(scan) && fresh(index) && fresh(scan.buffer) && fresh(index.buffer)
      invariant if left == 0 then position == NPOS else position == ps[left-1] && scan.Ready(ps, left - 1)
      invariant index.Filled(ps) && (index.isOpen <==> left < |ps|) && (!index.isOpen ==> index.out == [])
      invariant index.isOpen ==> index.Placed() && index.current == FirstSlot(blocks) - (|ps| - left)
      decreases left
    {
      var ok := index.Write(position, ps);
      if !ok { return Failed; }
      left := left - 1;
      position := scan.Previous(ps, left);
    }
    var ok := index.Complete(ps);
    return if ok then Index(index.out) else Failed;
  }

  // ---------------------------------------------------------------- the log and its index

  datatype AppendResult = At(pos: int) | WrongPosition

  class BlockLog {
    var version: nat
    var firstNum: nat
    var headNum: nat       // number of the last block, 0 without one
    var file: Bytes
    var index: seq<int>    // the index file, in slots of eight bytes

    /** The index lists where the blocks of the log file start. */
    ghost predicate Valid()
      reads this
    {
      && Format(file, version, firstNum, index)
      && headNum == if index == [] then 0 else firstNum + |index| - 1
    }

    constructor (first: nat, context: Bytes)
      requires 1 <= first < TWO32 && |context| + 16 < NPOS
      ensures Valid() && firstNum == first && index == [] && file == NewHeader(first, context)
    {
      version, firstNum, headNum, index := MAX_VERSION, first, 0, [];
      file := NewHeader(first, context);
      new;
      FormatNew(first, context);
    }

    /** Succeeds exactly for the next block number. */
    method Append(data: Bytes, num: nat) returns (r: AppendResult)
      requires Valid() && Packed(data, num) && 1 <= num < TWO32 && |file| + |data| + 8 < NPOS
      modifies this`file, this`index, this`headNum
      ensures Valid()
      ensures if num == firstNum + |old(index)|
              then r == At(|old(file)|) && index == old(index) + [|old(file)|]
                   && file == old(file) + data + Le(|old(file)|, 8)
              else r == WrongPosition && unchanged(this)
    {
      hide Word, Be32, Entry, Header, Le;
      var pos := |file|;
      if 8 * |index| != 8 * ((num - firstNum) % TWO32) {
        return WrongPosition;
      }
      FormatAppend(file, version, firstNum, index, data);
      file := file + data + Le(pos, 8);
      index := index + [pos];
      headNum := num;
      return At(pos);
    }

    /** Finds every block of the log, and nothing else. */
    method GetBlockPos(num: nat) returns (pos: int)
      requires Valid()
      ensures pos == NPOS <==> !(firstNum <= num < firstNum + |index|)
      ensures pos != NPOS ==> 0 <= pos && pos + MIN_PACKED <= |file| && Be32(file, pos + BLKNUM_OFFSET) + 1 == num
    {
      if !(headNum != 0 && num <= headNum && num >= firstNum) {
        return NPOS;
      }
      hide Word, Be32;
      PositionsBelow(file, version, firstNum, index);
      assert Entry(file, firstNum, index, num - firstNum);
      return index[num - firstNum];
    }

    /** Throws the index away and rebuilds it from the log file. */
    method RebuildIndex(bufLen: nat, slots: nat) returns (r: Rebuilt)
      requires Valid() && 8 <= bufLen && 1 <= slots < TWO29
      modifies this`index
      ensures r.Index? <==> |old(index)| < TWO29
      ensures r.Index? ==> index == old(index) && Valid()
    {
      hide Format;
      ghost var was := index;
      index := [];
      r := ConstructIndex(file, bufLen, slots, was, version, firstNum);
      if r.Index? { index := r.positions; }
    }
  }
}
