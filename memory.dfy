/** The Memory component of memory.cpp: 256 lazily allocated 16 KiB segments
    with ROM flags, a global breakpoint table of 64 K entries and one
    breakpoint table of 16 K entries per segment. Each breakpoint table is
    mirrored by a ghost `BreakPoints.Table` value, and every breakpoint method
    is proved to act on that value as `BreakPoints.Set` does; loadSegment is
    proved against the stream arithmetic of `SegmentLoad`. */
module Ep128Memory {
  import opened Encoding
  import opened BreakPoints
  import opened SegmentLoad
  import BreakPointList

  type SegmentIndex = k: int | 0 <= k < 256

  /** Array `a` and counter `count` hold table `t` of `size` entries: the
      array is allocated exactly when the table is, with the table's bytes. */
  ghost predicate Holds(a: array?<Entry>, count: nat, t: Table, size: nat)
    reads a
  {
    && (a == null <==> t.entries.None?)
    && (a != null ==> a.Length == size && a[..] == t.entries.value)
    && count == t.count
  }

  /** The segment table has 256 entries, every buffer is 16 KiB, and no two
      segments share a buffer. */
  ghost predicate SegmentsShaped(st: array<array?<byte>>)
    reads st
  {
    && st.Length == 256
    && (forall k :: 0 <= k < 256 && st[k] != null ==> st[k].Length == 16384)
    && (forall j, k :: 0 <= j < 256 && 0 <= k < 256 && j != k && st[j] != null ==> st[j] != st[k])
  }

  ghost function BuffersOf(st: array<array?<byte>>): set<array?<byte>>
    reads st
  {
    set k | 0 <= k < st.Length && st[k] != null :: st[k]
  }

  /** The bytes of every allocated buffer (the empty sequence for the others). */
  ghost function ContentsOf(st: array<array?<byte>>): seq<seq<byte>>
    reads st, BuffersOf(st)
  {
    seq(st.Length, k requires 0 <= k < st.Length reads st, BuffersOf(st) =>
          if st[k] == null then [] else st[k][..])
  }

  /** The pointers and ROM flags after a load into segment `s` has claimed
      the segments of blocks 0 .. t / 16384, starting from pointers `buf0`
      and flags `rom0`: a buffer that existed is kept, a claimed segment is
      allocated and has the load's ROM flag, and any other segment is as it
      was. */
  ghost predicate Claimed(st: array<array?<byte>>, rom: array<bool>, s: int, isROM: bool, t: nat,
                          buf0: seq<array?<byte>>, rom0: seq<bool>)
    reads st, rom
  {
    && SegmentsShaped(st) && rom.Length == 256 && |buf0| == 256 && |rom0| == 256
    && (forall k :: 0 <= k < 256 ==>
          && (buf0[k] != null ==> st[k] == buf0[k])
          && (Touched(s, t, k) ==> st[k] != null && rom[k] == isROM)
          && (!Touched(s, t, k) ==> st[k] == buf0[k] && rom[k] == rom0[k]))
  }

  /** The bytes after a load into segment `s` has written stream positions
      0 .. i - 1, starting from buffers `buf0` with contents `con0`: every
      byte holds the stream byte of the last position so far that lands on
      it, or its old value if none does. */
  ghost predicate Written(st: array<array?<byte>>, s: int, data: Option<seq<byte>>, dataSize: nat,
                          i: nat, buf0: seq<array?<byte>>, con0: seq<seq<byte>>)
    requires Fits(data, dataSize)
    reads st, BuffersOf(st)
  {
    && SegmentsShaped(st) && |buf0| == 256 && |con0| == 256
    && (forall k :: 0 <= k < 256 && buf0[k] != null ==> |con0[k]| == 16384 && st[k] == buf0[k])
    && (forall k, o :: 0 <= k < 256 && 0 <= o < 16384 ==>
          && (LastWrite(s, k, o, i) >= 0 ==>
                st[k] != null && st[k][o] == Image(data, dataSize, LastWrite(s, k, o, i)))
          && (LastWrite(s, k, o, i) < 0 && buf0[k] != null ==> st[k][o] == con0[k][o]))
  }

  /** `segmentTable[segment][i & 0x3FFF] = v` for the stream byte `v` of
      position `i` (memory.cpp:226, 237): it advances `Written` by one
      position. */
  method StoreByte(st: array<array?<byte>>, s: SegmentIndex, data: Option<seq<byte>>, dataSize: nat,
                   i: nat, cur: int, v: byte, ghost buf0: seq<array?<byte>>, ghost con0: seq<seq<byte>>)
    requires Fits(data, dataSize)
    requires Written(st, s, data, dataSize, i, buf0, con0)
    requires cur == PlaceSegment(s, i) && st[cur] != null && v == Image(data, dataSize, i)
    modifies st[cur]
    ensures Written(st, s, data, dataSize, i + 1, buf0, con0)
  {
    var buf := st[cur];
    buf[i % 16384] := v;
    forall k, o | 0 <= k < 256 && 0 <= o < 16384
      ensures LastWrite(s, k, o, i + 1) == if Lands(s, i, k, o) then i else LastWrite(s, k, o, i)
    {
      LastWriteStep(s, k, o, i);
    }
  }

  /** Within a block, the next stream position claims no new segment. */
  lemma ClaimedWithinBlock(st: array<array?<byte>>, rom: array<bool>, s: SegmentIndex, isROM: bool,
                           i: nat, buf0: seq<array?<byte>>, rom0: seq<bool>)
    requires Claimed(st, rom, s, isROM, i, buf0, rom0)
    requires i % 16384 != 16383
    ensures Claimed(st, rom, s, isROM, i + 1, buf0, rom0)
  {
    forall k | 0 <= k < 256
      ensures Touched(s, i + 1, k) <==> Touched(s, i, k)
    {
      TouchedNext(s, i, k);
    }
  }

  /** `if (!segmentTable[segment]) segmentTable[segment] = new uint8_t[16384];
      segmentROMTable[segment] = isROM;` (memory.cpp:219-223, 229-233). */
  method ClaimSegment(st: array<array?<byte>>, rom: array<bool>, k: int, isROM: bool)
    requires SegmentsShaped(st) && rom.Length == 256 && 0 <= k < 256
    modifies st, rom
    ensures SegmentsShaped(st)
    ensures st[k] != null && rom[k] == isROM
    ensures old(st[k]) != null ==> st[k] == old(st[k])
    ensures old(st[k]) == null ==> fresh(st[k])
    ensures forall j :: 0 <= j < 256 && j != k ==> st[j] == old(st[j]) && rom[j] == old(rom[j])
  {
    if st[k] == null {
      var b := new byte[16384];
      st[k] := b;
    }
    rom[k] := isROM;
  }

  /** The claim at the end of a block in the data loop (memory.cpp:227-233):
      segment `c`, where the next block goes, joins the claimed blocks and
      the bytes already written stay (a segment allocated now had no
      position land on it). */
  method ClaimNext(st: array<array?<byte>>, rom: array<bool>, s: SegmentIndex, isROM: bool,
                   data: Option<seq<byte>>, dataSize: nat, i: nat, c: int,
                   ghost buf0: seq<array?<byte>>, ghost con0: seq<seq<byte>>, ghost rom0: seq<bool>)
    requires Fits(data, dataSize)
    requires Claimed(st, rom, s, isROM, i, buf0, rom0)
    requires Written(st, s, data, dataSize, i + 1, buf0, con0)
    requires i % 16384 == 16383 && c == PlaceSegment(s, i + 1)
    modifies st, rom
    ensures Claimed(st, rom, s, isROM, i + 1, buf0, rom0)
    ensures Written(st, s, data, dataSize, i + 1, buf0, con0)
    ensures old(st[c]) != null ==> st[c] == old(st[c])
    ensures old(st[c]) == null ==> fresh(st[c])
    ensures forall j :: 0 <= j < 256 && j != c ==> st[j] == old(st[j])
  {
    forall k | 0 <= k < 256
      ensures Touched(s, i + 1, k) <==> Touched(s, i, k) || k == c
    {
      TouchedNext(s, i, k);
    }
    ClaimSegment(st, rom, c, isROM);
  }

  /** The claim of the first segment (memory.cpp:219-223): nothing is
      written yet and only segment `s` is claimed. */
  method ClaimFirst(st: array<array?<byte>>, rom: array<bool>, s: SegmentIndex, isROM: bool,
                    data: Option<seq<byte>>, dataSize: nat,
                    ghost buf0: seq<array?<byte>>, ghost con0: seq<seq<byte>>, ghost rom0: seq<bool>)
    requires Fits(data, dataSize)
    requires SegmentsShaped(st) && rom.Length == 256
    requires buf0 == st[..] && con0 == ContentsOf(st) && rom0 == rom[..]
    modifies st, rom
    ensures Claimed(st, rom, s, isROM, 0, buf0, rom0)
    ensures Written(st, s, data, dataSize, 0, buf0, con0)
    ensures forall k :: 0 <= k < 256 && st[k] != null ==> st[k] in old(BuffersOf(st)) || fresh(st[k])
  {
    ClaimSegment(st, rom, s, isROM);
    EmptyLoadFillsSegment(s, 0);
  }

  /** One pass of the data loop (memory.cpp:226-234): store the data byte of
      position `i`, and at the end of a block claim the next segment. */
  method CopyByte(st: array<array?<byte>>, rom: array<bool>, s: SegmentIndex, isROM: bool,
                  data: Option<seq<byte>>, dataSize: nat, i: nat, cur: int,
                  ghost buf0: seq<array?<byte>>, ghost con0: seq<seq<byte>>, ghost rom0: seq<bool>)
    returns (next: int)
    requires Fits(data, dataSize) && i < LoadSize(data, dataSize)
    requires Claimed(st, rom, s, isROM, i, buf0, rom0)
    requires Written(st, s, data, dataSize, i, buf0, con0)
    requires cur == PlaceSegment(s, i)
    modifies st, rom, st[cur]
    ensures Claimed(st, rom, s, isROM, i + 1, buf0, rom0)
    ensures Written(st, s, data, dataSize, i + 1, buf0, con0)
    ensures next == PlaceSegment(s, i + 1)
    ensures forall k :: 0 <= k < 256 && st[k] != null ==> st[k] == old(st[k]) || fresh(st[k])
  {
    PlaceIsTouched(s, i);
    PlaceNext(s, i);
    StoreByte(st, s, data, dataSize, i, cur, data.value[i], buf0, con0);
    next := cur;
    if i % 16384 == 16383 {
      next := (cur + 1) % 256;
      ClaimNext(st, rom, s, isROM, data, dataSize, i, next, buf0, con0, rom0);
    } else {
      ClaimedWithinBlock(st, rom, s, isROM, i, buf0, rom0);
    }
  }

  /** The claim of the first segment and the data loop of loadSegment
      (memory.cpp:219-235): afterwards the first `size` stream positions are
      written and `cur` is the segment the last block went to. */
  method CopyData(st: array<array?<byte>>, rom: array<bool>, s: SegmentIndex, isROM: bool,
                  data: Option<seq<byte>>, dataSize: nat, size: nat,
                  ghost buf0: seq<array?<byte>>, ghost con0: seq<seq<byte>>, ghost rom0: seq<bool>)
    returns (cur: int)
    requires Fits(data, dataSize) && size == LoadSize(data, dataSize)
    requires SegmentsShaped(st) && rom.Length == 256
    requires buf0 == st[..] && con0 == ContentsOf(st) && rom0 == rom[..]
    modifies st, rom, BuffersOf(st)
    ensures Claimed(st, rom, s, isROM, size, buf0, rom0)
    ensures Written(st, s, data, dataSize, size, buf0, con0)
    ensures cur == PlaceSegment(s, size)
    ensures forall k :: 0 <= k < 256 && st[k] != null ==> st[k] in old(BuffersOf(st)) || fresh(st[k])
    ensures forall k :: 0 <= k < 256 ==> st[k] == buf0[k] || fresh(st[k])
  {
    ghost var before := BuffersOf(st);
    assert forall k :: 0 <= k < 256 && buf0[k] != null ==> buf0[k] in before;
    cur := s;
    ClaimFirst(st, rom, s, isROM, data, dataSize, buf0, con0, rom0);
    var i := 0;
    while i < size
      invariant 0 <= i <= size
      invariant cur == PlaceSegment(s, i)
      invariant Claimed(st, rom, s, isROM, i, buf0, rom0)
      invariant Written(st, s, data, dataSize, i, buf0, con0)
      invariant forall k :: 0 <= k < 256 ==> st[k] == buf0[k] || fresh(st[k])
    {
      cur := CopyByte(st, rom, s, isROM, data, dataSize, i, cur, buf0, con0, rom0);
      i := i + 1;
    }
  }

  /** The fill loop of loadSegment (memory.cpp:236-237): 0xFF up to the next
      16 KiB boundary, and at least to the end of the first segment. */
  method FillToBoundary(st: array<array?<byte>>, s: SegmentIndex,
                        data: Option<seq<byte>>, dataSize: nat, n: nat, cur: int,
                        ghost buf0: seq<array?<byte>>, ghost con0: seq<seq<byte>>)
    requires Fits(data, dataSize) && n == LoadSize(data, dataSize)
    requires Written(st, s, data, dataSize, n, buf0, con0)
    requires cur == PlaceSegment(s, n) && st[cur] != null
    modifies st[cur]
    ensures Written(st, s, data, dataSize, LoadEnd(n), buf0, con0)
  {
    var i := n;
    FillCondition(n, i);
    while i < 16384 || i % 16384 != 0
      invariant n <= i <= LoadEnd(n)
      invariant (i < 16384 || i % 16384 != 0) <==> i < LoadEnd(n)
      invariant Written(st, s, data, dataSize, i, buf0, con0)
      decreases LoadEnd(n) - i
    {
      FillByte(st, s, data, dataSize, n, i, cur, buf0, con0);
      i := i + 1;
      FillCondition(n, i);
    }
    assert i == LoadEnd(n);
  }

  /** One pass of the fill loop (memory.cpp:237): 0xFF at position `i`,
      which lies in the cursor segment. */
  method FillByte(st: array<array?<byte>>, s: SegmentIndex,
                  data: Option<seq<byte>>, dataSize: nat, n: nat, i: nat, cur: int,
                  ghost buf0: seq<array?<byte>>, ghost con0: seq<seq<byte>>)
    requires Fits(data, dataSize) && n == LoadSize(data, dataSize) && n <= i < LoadEnd(n)
    requires Written(st, s, data, dataSize, i, buf0, con0)
    requires cur == PlaceSegment(s, n) && st[cur] != null
    modifies st[cur]
    ensures Written(st, s, data, dataSize, i + 1, buf0, con0)
  {
    FillPlace(s, n, i);
    StoreByte(st, s, data, dataSize, i, cur, 0xFF, buf0, con0);
  }

  /** Everything loadSegment does once it is known not to delete
      (memory.cpp:219-237): the data loop, then the fill loop. */
  method LoadStream(st: array<array?<byte>>, rom: array<bool>, s: SegmentIndex, isROM: bool,
                    data: Option<seq<byte>>, dataSize: nat, size: nat)
    requires Fits(data, dataSize) && size == LoadSize(data, dataSize)
    requires SegmentsShaped(st) && rom.Length == 256
    modifies st, rom, BuffersOf(st)
    ensures Claimed(st, rom, s, isROM, size, old(st[..]), old(rom[..]))
    ensures Written(st, s, data, dataSize, LoadEnd(size), old(st[..]), old(ContentsOf(st)))
    ensures forall k :: 0 <= k < 256 ==> st[k] == old(st[k]) || fresh(st[k])
  {
    ghost var buf0 := st[..];
    ghost var con0 := ContentsOf(st);
    ghost var rom0 := rom[..];
    var cur := CopyData(st, rom, s, isROM, data, dataSize, size, buf0, con0, rom0);
    PlaceIsTouched(s, size);
    FillToBoundary(st, s, data, dataSize, size, cur, buf0, con0);
  }

  class Memory {
    /** The segment buffers; null while a segment is not allocated. */
    const segmentTable: array<array?<byte>>
    const segmentROMTable: array<bool>
    /** The global breakpoint table, indexed by the full 16-bit address. */
    var breakPointTable: array?<Entry>
    var breakPointCnt: nat
    /** The per-segment breakpoint tables, indexed by the 14-bit offset. */
    const segmentBreakPointTable: array<array?<Entry>>
    const segmentBreakPointCntTable: array<nat>
    var haveBreakPoints: bool
    /** The threshold level, stored shifted left by 2. */
    var breakPointPriorityThreshold: Entry

    /** The global table as a value. */
    ghost var globalTable: Table
    /** The 256 segment tables as values. */
    ghost var segmentTables: seq<Table>

    ghost function SegmentBuffers(): set<array?<byte>>
      reads segmentTable
    {
      BuffersOf(segmentTable)
    }

    ghost function BreakPointBuffers(): set<array?<Entry>>
      reads segmentBreakPointTable
    {
      set k | 0 <= k < segmentBreakPointTable.Length && segmentBreakPointTable[k] != null
            :: segmentBreakPointTable[k]
    }

    ghost predicate SegmentsValid()
      reads segmentTable
    {
      SegmentsShaped(segmentTable) && segmentROMTable.Length == 256
    }

    /** The global table: its array holds `globalTable`, which keeps
        `BreakPoints.Valid`, and it exists only while `haveBreakPoints` is set
        (so the hot path, which skips the lookup when the flag is clear,
        misses nothing). */
    ghost predicate GlobalTableValid()
      reads this, breakPointTable
    {
      && Holds(breakPointTable, breakPointCnt, globalTable, 65536)
      && BreakPoints.Valid(globalTable, 65536)
      && (breakPointTable != null ==> haveBreakPoints)
    }

    /** The segment tables likewise; besides, no two of them, and none of
        them and the global table, share an array. */
    ghost predicate SegmentTablesValid()
      reads this, segmentBreakPointTable, segmentBreakPointCntTable, BreakPointBuffers()
    {
      && segmentBreakPointTable.Length == 256 && segmentBreakPointCntTable.Length == 256
      && |segmentTables| == 256
      && (forall k :: 0 <= k < 256 ==>
            Holds(segmentBreakPointTable[k], segmentBreakPointCntTable[k], segmentTables[k], 16384))
      && (forall k :: 0 <= k < 256 ==> BreakPoints.Valid(segmentTables[k], 16384))
      && (forall k :: 0 <= k < 256 && segmentBreakPointTable[k] != null ==>
            haveBreakPoints && segmentBreakPointTable[k] != breakPointTable)
      && (forall j, k :: 0 <= j < 256 && 0 <= k < 256 && j != k && segmentBreakPointTable[j] != null
            ==> segmentBreakPointTable[j] != segmentBreakPointTable[k])
    }

    /** The breakpoint invariant: both kinds of table are valid and the
        threshold is a shifted level 0..4. */
    ghost predicate BreakPointsValid()
      reads this, breakPointTable, segmentBreakPointTable, segmentBreakPointCntTable,
            BreakPointBuffers()
    {
      && GlobalTableValid()
      && SegmentTablesValid()
      && breakPointPriorityThreshold & 3 == 0 && breakPointPriorityThreshold <= 16
    }

    /** Changing only the global table and the scalar fields keeps the
        segment tables valid. */
    twostate lemma SegmentTablesKept()
      requires old(SegmentTablesValid())
      requires unchanged(segmentBreakPointTable, segmentBreakPointCntTable)
      requires segmentTables == old(segmentTables)
      requires old(haveBreakPoints) ==> haveBreakPoints
      requires breakPointTable == null || breakPointTable == old(breakPointTable) || fresh(breakPointTable)
      requires forall k :: 0 <= k < 256 && segmentBreakPointTable[k] != null ==>
                 unchanged(segmentBreakPointTable[k])
      ensures SegmentTablesValid()
    {
    }

    /** Changing only segment table `segment`, so that it is valid, keeps the
        segment tables valid. */
    twostate lemma SegmentTableReplaced(segment: SegmentIndex)
      requires old(SegmentTablesValid())
      requires |segmentTables| == 256
      requires breakPointTable == old(breakPointTable) && (old(haveBreakPoints) ==> haveBreakPoints)
      requires forall k :: 0 <= k < 256 && k != segment ==>
                 && segmentBreakPointTable[k] == old(segmentBreakPointTable[k])
                 && segmentBreakPointCntTable[k] == old(segmentBreakPointCntTable[k])
                 && segmentTables[k] == old(segmentTables[k])
                 && (segmentBreakPointTable[k] != null ==> unchanged(segmentBreakPointTable[k]))
      requires Holds(segmentBreakPointTable[segment], segmentBreakPointCntTable[segment],
                     segmentTables[segment], 16384)
      requires BreakPoints.Valid(segmentTables[segment], 16384)
      requires segmentBreakPointTable[segment] != null ==>
                 haveBreakPoints && segmentBreakPointTable[segment] != breakPointTable
      requires segmentBreakPointTable[segment] == null
               || segmentBreakPointTable[segment] == old(segmentBreakPointTable[segment])
               || fresh(segmentBreakPointTable[segment])
      ensures SegmentTablesValid()
    {
    }

    /** The four outer tables are distinct arrays. */
    ghost predicate Disjoint()
      reads this
    {
      && segmentTable as object != segmentROMTable
      && segmentTable as object != segmentBreakPointTable
      && segmentTable as object != segmentBreakPointCntTable
      && segmentROMTable as object != segmentBreakPointTable
      && segmentROMTable as object != segmentBreakPointCntTable
      && segmentBreakPointTable as object != segmentBreakPointCntTable
    }

    /** No segment buffer is also a breakpoint table. */
    ghost predicate Separated()
      reads this, segmentTable, segmentBreakPointTable
    {
      && (forall j, k ::
            0 <= j < segmentTable.Length && 0 <= k < segmentBreakPointTable.Length && segmentTable[j] != null
            ==> segmentTable[j] as object != segmentBreakPointTable[k])
      && (forall j :: 0 <= j < segmentTable.Length && segmentTable[j] != null ==>
            segmentTable[j] as object != breakPointTable)
    }

    /** Replacing breakpoint tables by fresh ones or null keeps them apart
        from the segment buffers. */
    twostate lemma SeparatedKept()
      requires old(Separated()) && unchanged(segmentTable)
      requires breakPointTable == null || breakPointTable == old(breakPointTable) || fresh(breakPointTable)
      requires forall k :: 0 <= k < segmentBreakPointTable.Length ==>
                 segmentBreakPointTable[k] == null || segmentBreakPointTable[k] == old(segmentBreakPointTable[k])
                 || fresh(segmentBreakPointTable[k])
      ensures Separated()
    {
    }

    ghost predicate Valid()
      reads this, segmentTable, breakPointTable, segmentBreakPointTable,
            segmentBreakPointCntTable, BreakPointBuffers()
    {
      Disjoint() && SegmentsValid() && Separated() && BreakPointsValid()
    }

    /** A new Memory: no segment allocated, every ROM flag set, no
        breakpoint table, threshold 0. */
    constructor ()
      ensures Valid()
      ensures forall k :: 0 <= k < 256 ==> segmentTable[k] == null && segmentROMTable[k]
      ensures globalTable == Absent && segmentTables == seq(256, _ => Absent)
      ensures !haveBreakPoints && breakPointPriorityThreshold == 0
      ensures fresh(segmentTable) && fresh(segmentROMTable)
      ensures fresh(segmentBreakPointTable) && fresh(segmentBreakPointCntTable)
    {
      segmentTable := new array?<byte>[256](_ => null);
      segmentROMTable := new bool[256](_ => true);
      segmentBreakPointTable := new array?<Entry>[256](_ => null);
      segmentBreakPointCntTable := new nat[256](_ => 0);
      breakPointTable := null;
      breakPointCnt := 0;
      haveBreakPoints := false;
      breakPointPriorityThreshold := 0;
      globalTable := Absent;
      segmentTables := seq(256, _ => Absent);
    }

    /** A table of `size` zero entries, as allocated and cleared in
        memory.cpp:112-116 and 145-149. */
    static method NewTable(size: nat) returns (t: array<Entry>)
      ensures fresh(t) && t[..] == Zeroes(size)
    {
      t := new Entry[size];
      var i := 0;
      while i < size
        invariant 0 <= i <= size
        invariant forall m :: 0 <= m < i ==> t[m] == 0
      {
        t[i] := 0;
        i := i + 1;
      }
    }

    /** setBreakPoint(segment, addr, priority, r, w) (memory.cpp:104-136):
        segment table `segment` changes as `BreakPoints.Set` says at offset
        `addr & 0x3FFF`, and no other table changes. */
    method SetSegmentBreakPoint(segment: SegmentIndex, addr: Address16, priority: int, r: bool, w: bool)
      requires Valid()
      modifies this`haveBreakPoints, this`segmentTables, segmentBreakPointTable,
               segmentBreakPointCntTable, segmentBreakPointTable[segment]
      ensures Valid()
      ensures segmentTables == old(segmentTables)[segment :=
                BreakPoints.Set(old(segmentTables[segment]), 16384, addr % 16384, priority, r, w)]
      ensures forall k :: 0 <= k < 256 && k != segment ==>
                segmentBreakPointTable[k] == old(segmentBreakPointTable[k])
      ensures segmentBreakPointTable[segment] == null
              || segmentBreakPointTable[segment] == old(segmentBreakPointTable[segment])
              || (old(segmentBreakPointTable[segment]) == null && fresh(segmentBreakPointTable[segment]))
      ensures haveBreakPoints == (old(haveBreakPoints) || r || w)
    {
      var mode := ModeBits(r, w);
      if mode != 0 {
        // create new breakpoint, or change existing one
        mode := mode + PriorityBits(priority);
        AddSegmentBreakPoint(segment, addr % 16384, mode, priority, r, w);
      } else if segmentBreakPointTable[segment] != null {
        if segmentBreakPointTable[segment][addr % 16384] != 0 {
          // remove a previously existing breakpoint
          ghost var after := BreakPoints.Set(segmentTables[segment], 16384, addr % 16384, priority, r, w);
          BreakPoints.SetKeepsValid(segmentTables[segment], 16384, addr % 16384, priority, r, w);
          segmentBreakPointCntTable[segment] := segmentBreakPointCntTable[segment] - 1;
          if segmentBreakPointCntTable[segment] == 0 {
            segmentBreakPointTable[segment] := null;
          }
          segmentTables := segmentTables[segment := after];
          SegmentTableReplaced(segment);
        }
      }
    }

    /** The set branch of setBreakPoint(segment, ...) (memory.cpp:108-124):
        allocate the segment's table if needed, count a new entry, and merge
        the requested entry `mode` into it. */
    method AddSegmentBreakPoint(segment: SegmentIndex, off: nat, mode: Entry,
                                ghost priority: int, ghost r: bool, ghost w: bool)
      requires Valid() && off < 16384
      requires (r || w) && mode == Request(priority, r, w)
      modifies this`haveBreakPoints, this`segmentTables, segmentBreakPointTable,
               segmentBreakPointCntTable, segmentBreakPointTable[segment]
      ensures Valid()
      ensures segmentTables == old(segmentTables)[segment :=
                BreakPoints.Set(old(segmentTables[segment]), 16384, off, priority, r, w)]
      ensures forall k :: 0 <= k < 256 && k != segment ==>
                segmentBreakPointTable[k] == old(segmentBreakPointTable[k])
      ensures segmentBreakPointTable[segment] == old(segmentBreakPointTable[segment])
              || (old(segmentBreakPointTable[segment]) == null && fresh(segmentBreakPointTable[segment]))
      ensures haveBreakPoints
    {
      ghost var after := BreakPoints.Set(segmentTables[segment], 16384, off, priority, r, w);
      BreakPoints.SetKeepsValid(segmentTables[segment], 16384, off, priority, r, w);
      if segmentBreakPointTable[segment] == null {
        var t := NewTable(16384);
        segmentBreakPointTable[segment] := t;
      }
      haveBreakPoints := true;
      var tbl := segmentBreakPointTable[segment];
      var bp := tbl[off];
      segmentBreakPointCntTable[segment] :=
        if bp == 0 then segmentBreakPointCntTable[segment] + 1 else segmentBreakPointCntTable[segment];
      tbl[off] := Merge(bp, mode);
      segmentTables := segmentTables[segment := after];
      SegmentTableReplaced(segment);
      SeparatedKept();
    }

    /** setBreakPoint(addr, priority, r, w) (memory.cpp:138-169): the global
        table changes as `BreakPoints.Set` says at `addr`. */
    method SetBreakPoint(addr: Address16, priority: int, r: bool, w: bool)
      requires Valid()
      modifies this`breakPointTable, this`breakPointCnt, this`haveBreakPoints, this`globalTable,
               breakPointTable
      ensures Valid()
      ensures globalTable == BreakPoints.Set(old(globalTable), 65536, addr, priority, r, w)
      ensures breakPointTable == null || breakPointTable == old(breakPointTable)
              || (old(breakPointTable) == null && fresh(breakPointTable))
      ensures haveBreakPoints == (old(haveBreakPoints) || r || w)
    {
      var mode := ModeBits(r, w);
      if mode != 0 {
        // create new breakpoint, or change existing one
        mode := mode + PriorityBits(priority);
        AddBreakPoint(addr, mode, priority, r, w);
      } else if breakPointTable != null {
        if breakPointTable[addr] != 0 {
          // remove a previously existing breakpoint
          ghost var after := BreakPoints.Set(globalTable, 65536, addr, priority, r, w);
          BreakPoints.SetKeepsValid(globalTable, 65536, addr, priority, r, w);
          breakPointCnt := breakPointCnt - 1;
          if breakPointCnt == 0 {
            breakPointTable := null;
          }
          globalTable := after;
          SegmentTablesKept();
        }
      }
    }

    /** The set branch of setBreakPoint(addr, ...) (memory.cpp:141-157):
        allocate the global table if needed, count a new entry, and merge the
        requested entry `mode` into it. */
    method AddBreakPoint(addr: Address16, mode: Entry, ghost priority: int, ghost r: bool, ghost w: bool)
      requires Valid()
      requires (r || w) && mode == Request(priority, r, w)
      modifies this`breakPointTable, this`breakPointCnt, this`haveBreakPoints, this`globalTable,
               breakPointTable
      ensures Valid()
      ensures globalTable == BreakPoints.Set(old(globalTable), 65536, addr, priority, r, w)
      ensures breakPointTable == old(breakPointTable)
              || (old(breakPointTable) == null && fresh(breakPointTable))
      ensures haveBreakPoints
    {
      ghost var after := BreakPoints.Set(globalTable, 65536, addr, priority, r, w);
      BreakPoints.SetKeepsValid(globalTable, 65536, addr, priority, r, w);
      if breakPointTable == null {
        breakPointTable := NewTable(65536);
      }
      haveBreakPoints := true;
      var tbl := breakPointTable;
      var bp := tbl[addr];
      breakPointCnt := if bp == 0 then breakPointCnt + 1 else breakPointCnt;
      tbl[addr] := Merge(bp, mode);
      globalTable := after;
      SegmentTablesKept();
    }

    /** clearBreakPoints(segment) (memory.cpp:171-175): a clear at every
        offset, after which the segment's table is freed. */
    method ClearSegmentBreakPoints(segment: SegmentIndex)
      requires Valid()
      modifies this`haveBreakPoints, this`segmentTables, segmentBreakPointTable,
               segmentBreakPointCntTable, segmentBreakPointTable[segment]
      ensures Valid()
      ensures segmentTables == old(segmentTables)[segment := Absent]
      ensures segmentBreakPointTable[segment] == null
      ensures forall k :: 0 <= k < 256 && k != segment ==>
                segmentBreakPointTable[k] == old(segmentBreakPointTable[k])
      ensures haveBreakPoints == old(haveBreakPoints)
    {
      ghost var e0 := if segmentTables[segment].entries.None? then Zeroes(16384)
                      else segmentTables[segment].entries.value;
      ghost var t0 := segmentBreakPointTable[segment];
      var addr := 0;
      while addr < 16384
        invariant 0 <= addr <= 16384
        invariant Valid()
        invariant segmentBreakPointTable[segment] == null || segmentBreakPointTable[segment] == t0
        invariant segmentTables[segment].entries.Some? ==>
                    && segmentTables[segment].entries.value == e0
                    && segmentTables[segment].count <= CountNonZero(e0[addr..])
        invariant segmentTables == old(segmentTables)[segment := segmentTables[segment]]
        invariant forall k :: 0 <= k < 256 && k != segment ==>
                    segmentBreakPointTable[k] == old(segmentBreakPointTable[k])
        invariant haveBreakPoints == old(haveBreakPoints)
      {
        CountNonZeroSuffix(e0, addr);
        SetSegmentBreakPoint(segment, addr, 0, false, false);
        addr := addr + 1;
      }
      assert e0[16384..] == [];
    }

    /** clearBreakPoints() (memory.cpp:177-181): a clear at every address,
        after which the global table is freed. */
    method ClearBreakPoints()
      requires Valid()
      modifies this`breakPointTable, this`breakPointCnt, this`haveBreakPoints, this`globalTable,
               breakPointTable
      ensures Valid()
      ensures globalTable == Absent && breakPointTable == null
      ensures haveBreakPoints == old(haveBreakPoints)
    {
      ghost var e0 := if globalTable.entries.None? then Zeroes(65536) else globalTable.entries.value;
      ghost var t0 := breakPointTable;
      var addr := 0;
      while addr < 65536
        invariant 0 <= addr <= 65536
        invariant Valid()
        invariant breakPointTable == null || breakPointTable == t0
        invariant globalTable.entries.Some? ==>
                    && globalTable.entries.value == e0
                    && globalTable.count <= CountNonZero(e0[addr..])
        invariant haveBreakPoints == old(haveBreakPoints)
      {
        CountNonZeroSuffix(e0, addr);
        SetBreakPoint(addr, 0, false, false);
        addr := addr + 1;
      }
      assert e0[65536..] == [];
    }

    /** clearAllBreakPoints() (memory.cpp:183-189): every table is freed and
        the hot path's breakpoint flag cleared. */
    method ClearAllBreakPoints()
      requires Valid()
      modifies this`breakPointTable, this`breakPointCnt, this`haveBreakPoints, this`globalTable,
               this`segmentTables, breakPointTable, segmentBreakPointTable, segmentBreakPointCntTable,
               BreakPointBuffers()
      ensures Valid()
      ensures globalTable == Absent
      ensures forall k :: 0 <= k < 256 ==> segmentTables[k] == Absent
      ensures !haveBreakPoints
    {
      ClearBreakPoints();
      var segment := 0;
      while segment < 256
        invariant 0 <= segment <= 256
        invariant Valid()
        invariant globalTable == Absent && breakPointTable == null
        invariant forall k :: 0 <= k < segment ==> segmentTables[k] == Absent
        invariant forall k :: 0 <= k < segment ==> segmentBreakPointTable[k] == null
        invariant forall k :: 0 <= k < 256 && segmentBreakPointTable[k] != null ==>
                    segmentBreakPointTable[k] == old(segmentBreakPointTable[k])
      {
        ClearSegmentBreakPoints(segment);
        segment := segment + 1;
      }
      haveBreakPoints := false;
    }

    /** setBreakPointPriorityThreshold (memory.cpp:198-202). */
    method SetBreakPointPriorityThreshold(n: int)
      requires Valid()
      modifies this`breakPointPriorityThreshold
      ensures Valid()
      ensures breakPointPriorityThreshold == ThresholdByte(n)
    {
      breakPointPriorityThreshold := (Clamp(n, 0, 4) as bv8) << 2;
    }

    /** getBreakPointPriorityThreshold (memory.cpp:204-207): the stored
        threshold as a level 0..4, which stores back to the same byte. */
    method GetBreakPointPriorityThreshold() returns (n: int)
      requires Valid()
      ensures 0 <= n <= 4
      ensures ThresholdByte(n) == breakPointPriorityThreshold
    {
      n := (breakPointPriorityThreshold >> 2) as int;
    }

    /** deleteSegment (memory.cpp:240-246): the buffer is dropped and the ROM
        flag set; nothing else changes. */
    method DeleteSegment(segment: SegmentIndex)
      requires Valid()
      modifies segmentTable, segmentROMTable
      ensures Valid()
      ensures segmentTable[..] == old(segmentTable[..])[segment := null]
      ensures segmentROMTable[..] == old(segmentROMTable[..])[segment := true]
    {
      segmentTable[segment] := null;
      segmentROMTable[segment] := true;
    }

    /** deleteAllSegments (memory.cpp:248-252). */
    method DeleteAllSegments()
      requires Valid()
      modifies segmentTable, segmentROMTable
      ensures Valid()
      ensures forall k :: 0 <= k < 256 ==> segmentTable[k] == null && segmentROMTable[k]
    {
      var segment := 0;
      while segment < 256
        invariant 0 <= segment <= 256
        invariant Valid()
        invariant forall k :: 0 <= k < segment ==> segmentTable[k] == null && segmentROMTable[k]
      {
        DeleteSegment(segment);
        segment := segment + 1;
      }
    }

    /** loadSegment (memory.cpp:209-238). A ROM load of no data deletes the
        segment. Otherwise (`Claimed`) every segment of blocks 0 .. n / 16384
        is allocated if needed and gets the ROM flag while every other
        segment is left alone, and (`Written`) each byte holds the stream
        byte (data, then 0xFF up to the 16 KiB boundary) of the last stream
        position that lands on it; a byte no position lands on keeps its old
        value if the segment existed. */
    method LoadSegment(segment: SegmentIndex, isROM: bool, data: Option<seq<byte>>, dataSize: nat)
      requires Valid() && Fits(data, dataSize)
      modifies segmentTable, segmentROMTable, SegmentBuffers()
      ensures Valid()
      ensures isROM && LoadSize(data, dataSize) == 0 ==>
                && segmentTable[..] == old(segmentTable[..])[segment := null]
                && segmentROMTable[..] == old(segmentROMTable[..])[segment := true]
                && ContentsOf(segmentTable) == old(ContentsOf(segmentTable))[segment := []]
      ensures !(isROM && LoadSize(data, dataSize) == 0) ==>
                && Claimed(segmentTable, segmentROMTable, segment, isROM, LoadSize(data, dataSize),
                           old(segmentTable[..]), old(segmentROMTable[..]))
                && Written(segmentTable, segment, data, dataSize, LoadEnd(LoadSize(data, dataSize)),
                           old(segmentTable[..]), old(ContentsOf(segmentTable)))
    {
      var size := dataSize;
      if data.None? {
        size := 0;
      }
      if isROM && size == 0 {
        // ROM segment with no data == delete segment
        DeleteSegment(segment);
        return;
      }
      LoadStream(segmentTable, segmentROMTable, segment, isROM, data, dataSize, size);
    }

    /** getBreakPointList (memory.cpp:254-276): the records of the global
        table, then those of each allocated segment table, in order. */
    method GetBreakPointList() returns (list: seq<BreakPointList.BreakPoint>)
      requires Valid()
      ensures list == BreakPointList.ListOf(globalTable.entries, BreakPointList.Buffers(segmentTables))
    {
      list := [];
      if breakPointTable != null {
        list := ScanTable(None, breakPointTable);
      }
      var records := ScanSegments(segmentBreakPointTable, BreakPointList.Buffers(segmentTables));
      list := list + records;
    }

    /** The loop over the segment tables in getBreakPointList
        (memory.cpp:265-274); `tables` are the buffers the arrays hold. */
    static method ScanSegments(a: array<array?<Entry>>, ghost tables: seq<Option<seq<Entry>>>)
      returns (records: seq<BreakPointList.BreakPoint>)
      requires a.Length == |tables|
      requires forall k :: 0 <= k < a.Length ==>
                 && (a[k] == null <==> tables[k].None?)
                 && (a[k] != null ==> a[k][..] == tables[k].value)
      ensures records == BreakPointList.SegmentsEntries(tables, |tables|)
    {
      records := [];
      var j := 0;
      while j < a.Length
        invariant 0 <= j <= a.Length
        invariant records == BreakPointList.SegmentsEntries(tables, j)
      {
        var tbl := a[j];
        if tbl != null {
          var scanned := ScanTable(Some(j), tbl);
          records := records + scanned;
        }
        j := j + 1;
      }
    }

    /** The scan of one table in getBreakPointList (memory.cpp:258-263 and
        267-272): a record for each non-zero entry, in index order. */
    static method ScanTable(seg: Option<int>, tbl: array<Entry>)
      returns (records: seq<BreakPointList.BreakPoint>)
      ensures records == BreakPointList.TableEntries(seg, tbl[..], tbl.Length)
    {
      records := [];
      var i := 0;
      while i < tbl.Length
        invariant 0 <= i <= tbl.Length
        invariant records == BreakPointList.TableEntries(seg, tbl[..], i)
      {
        var bp := tbl[i];
        if bp != 0 {
          records := records + [BreakPointList.BreakPoint(BreakPointList.Place(seg, i),
                                                          bp & 1 != 0, bp & 2 != 0, (bp >> 2) as int)];
        }
        i := i + 1;
      }
    }
  }
}
