/** Where loadSegment puts each byte (memory.cpp:209-238), as arithmetic on
    stream positions. The two loops of loadSegment write one stream: the data
    bytes, then 0xFF padding up to the next 16 KiB boundary. Position `j` of
    the stream goes to segment `(s + j / 16384) mod 256` at offset
    `j mod 16384`; positions `Window` apart land on the same byte, so the
    byte a segment finally holds is the one of the last position that lands
    on it. */
module SegmentLoad {
  import opened Encoding

  const SegmentSize: int := 16384
  const SegmentCount: int := 256
  /** 256 segments of 16 KiB: a load longer than this wraps onto itself. */
  const Window: int := 4194304

  function PlaceSegment(s: int, j: int): int { (s + j / SegmentSize) % SegmentCount }

  function PlaceOffset(j: int): int { j % SegmentSize }

  /** Stream position `j` of a load starting at segment `s` lands at offset
      `o` of segment `k`. */
  predicate Lands(s: int, j: int, k: int, o: int)
  {
    PlaceSegment(s, j) == k && PlaceOffset(j) == o
  }

  /** A data pointer must hold `dataSize` bytes unless it is null. */
  predicate Fits(data: Option<seq<byte>>, dataSize: nat)
  {
    data.Some? ==> dataSize <= |data.value|
  }

  /** `if (!data) dataSize = 0;` */
  function LoadSize(data: Option<seq<byte>>, dataSize: nat): nat
  {
    if data.None? then 0 else dataSize
  }

  /** The stream: the data bytes, then 0xFF. */
  function Image(data: Option<seq<byte>>, dataSize: nat, j: int): byte
    requires Fits(data, dataSize)
  {
    if 0 <= j < LoadSize(data, dataSize) then data.value[j] else 0xFF
  }

  /** Where the fill loop stops: the 16 KiB boundary at or after `n`, and
      never before the end of the first segment. */
  function LoadEnd(n: nat): (e: nat)
    ensures n <= e && e % SegmentSize == 0 && SegmentSize <= e
    ensures e < n + SegmentSize || (n == 0 && e == SegmentSize)
  {
    if n < SegmentSize then SegmentSize else (n + SegmentSize - 1) / SegmentSize * SegmentSize
  }

  /** The segments a load of `n` bytes allocates and flags: those of blocks
      0 .. n / 16384 (the last one may receive no byte). */
  predicate Touched(s: int, n: nat, k: int)
  {
    (k - s) % SegmentCount <= n / SegmentSize
  }

  /** The first stream position, modulo `Window`, that lands at (k, o). */
  function Target(s: int, k: int, o: int): int
  {
    o + SegmentSize * ((k - s) % SegmentCount)
  }

  /** The last stream position below `end` that lands at (k, o), or -1. */
  function LastWrite(s: int, k: int, o: int, end: int): int
  {
    var j0 := Target(s, k, o);
    if j0 < end then j0 + Window * ((end - 1 - j0) / Window) else -1
  }

  predicate InRange(s: int, k: int, o: int)
  {
    0 <= s < SegmentCount && 0 <= k < SegmentCount && 0 <= o < SegmentSize
  }

  lemma DivModSegment(x: int, a: int, b: int)
    requires 0 <= b < SegmentSize && x == SegmentSize * a + b
    ensures x / SegmentSize == a && x % SegmentSize == b
  {
  }

  lemma DivModWindow(x: int, a: int, b: int)
    requires 0 <= b < Window && x == Window * a + b
    ensures x / Window == a && x % Window == b
  {
  }

  /** The residue of a stream position modulo `Window` is its segment block
      modulo 256 and its offset. */
  lemma WindowResidue(j: int)
    requires 0 <= j
    ensures j % Window == SegmentSize * ((j / SegmentSize) % SegmentCount) + j % SegmentSize
  {
    var q, r := j / SegmentSize, j % SegmentSize;
    var q1, q0 := q / SegmentCount, q % SegmentCount;
    assert j == Window * q1 + (SegmentSize * q0 + r);
    DivModWindow(j, q1, SegmentSize * q0 + r);
  }

  lemma LandsIff(s: int, j: int, k: int, o: int)
    requires InRange(s, k, o) && 0 <= j
    ensures Lands(s, j, k, o) <==> j % Window == Target(s, k, o)
  {
    WindowResidue(j);
    var q, r := j / SegmentSize, j % SegmentSize;
    var d := (k - s) % SegmentCount;
    assert (s + q) % SegmentCount == k <==> q % SegmentCount == d;
    if j % Window == Target(s, k, o) {
      DivModSegment(j % Window, q % SegmentCount, r);
      DivModSegment(j % Window, d, o);
    }
  }

  /** LastWrite is the last position below `end` that lands at (k, o), and
      -1 exactly when no position below `end` lands there. */
  lemma LastWriteIsLast(s: int, k: int, o: int, end: int)
    requires InRange(s, k, o)
    ensures var lw := LastWrite(s, k, o, end);
      && (lw >= 0 ==> lw < end && Lands(s, lw, k, o))
      && (forall j :: lw < j < end && 0 <= j ==> !Lands(s, j, k, o))
  {
    var j0 := Target(s, k, o);
    var lw := LastWrite(s, k, o, end);
    assert 0 <= j0 < Window;
    if j0 < end {
      var m := (end - 1 - j0) / Window;
      assert lw == j0 + Window * m && 0 <= m;
      DivModWindow(lw, m, j0);
      LandsIff(s, lw, k, o);
    }
    forall j | lw < j < end && 0 <= j
      ensures !Lands(s, j, k, o)
    {
      LandsIff(s, j, k, o);
      DivModWindow(j, j / Window, j % Window);
    }
  }

  /** Writing position `i` makes it the last write of its own place and
      leaves every other place's last write alone. */
  lemma LastWriteStep(s: int, k: int, o: int, i: int)
    requires InRange(s, k, o) && 0 <= i
    ensures LastWrite(s, k, o, i + 1) == if Lands(s, i, k, o) then i else LastWrite(s, k, o, i)
  {
    LastWriteIsLast(s, k, o, i);
    LastWriteIsLast(s, k, o, i + 1);
  }

  /** The cursor moves to the next segment (mod 256) after every 16 KiB. */
  lemma PlaceNext(s: int, i: int)
    requires 0 <= s < SegmentCount && 0 <= i
    ensures PlaceSegment(s, i + 1)
            == if i % SegmentSize == SegmentSize - 1 then (PlaceSegment(s, i) + 1) % SegmentCount
               else PlaceSegment(s, i)
  {
    if i % SegmentSize == SegmentSize - 1 {
      DivModSegment(i + 1, i / SegmentSize + 1, 0);
    } else {
      DivModSegment(i + 1, i / SegmentSize, i % SegmentSize + 1);
    }
  }

  /** The segment under the cursor is touched. */
  lemma PlaceIsTouched(s: int, i: nat)
    requires 0 <= s < SegmentCount
    ensures Touched(s, i, PlaceSegment(s, i))
  {
    assert (PlaceSegment(s, i) - s) % SegmentCount == (i / SegmentSize) % SegmentCount;
  }

  /** Crossing a 16 KiB boundary touches exactly the new cursor segment. */
  lemma TouchedNext(s: int, i: nat, k: int)
    requires 0 <= s < SegmentCount && 0 <= k < SegmentCount
    ensures Touched(s, i + 1, k)
            <==> Touched(s, i, k) || (i % SegmentSize == SegmentSize - 1 && k == PlaceSegment(s, i + 1))
  {
    var q := i / SegmentSize;
    if i % SegmentSize == SegmentSize - 1 {
      DivModSegment(i + 1, q + 1, 0);
      SegmentDistance(s, k, q + 1);
    } else {
      DivModSegment(i + 1, q, i % SegmentSize + 1);
    }
  }

  /** Segment `k` is `t` segments past `s` (mod 256) exactly when its
      distance from `s` is `t` mod 256. */
  lemma SegmentDistance(s: int, k: int, t: nat)
    requires 0 <= s < SegmentCount && 0 <= k < SegmentCount
    ensures k == (s + t) % SegmentCount <==> (k - s) % SegmentCount == t % SegmentCount
  {
    var r := t % SegmentCount;
    assert (s + t) % SegmentCount == (s + r) % SegmentCount;
    if s + r < SegmentCount {
      assert (s + r) % SegmentCount == s + r;
    } else {
      assert (s + r) % SegmentCount == s + r - SegmentCount;
    }
  }

  /** The fill loop's condition `i < 16384 || (i & 0x3FFF) != 0`, between
      the end of the data and the fill end, is `i < LoadEnd(n)`. */
  lemma FillCondition(n: nat, i: nat)
    requires n <= i <= LoadEnd(n)
    ensures (i < SegmentSize || i % SegmentSize != 0) <==> i < LoadEnd(n)
  {
    var e := LoadEnd(n);
    DivModSegment(e, e / SegmentSize, 0);
    if SegmentSize <= i < e {
      DivModSegment(i, e / SegmentSize - 1, i - (e - SegmentSize));
    }
  }

  /** The fill loop stays in the cursor segment. */
  lemma FillPlace(s: int, n: nat, i: nat)
    requires 0 <= s < SegmentCount && n <= i < LoadEnd(n)
    ensures PlaceSegment(s, i) == PlaceSegment(s, n)
  {
    var e := LoadEnd(n);
    DivModSegment(e, e / SegmentSize, 0);
    if n == 0 {
      assert i / SegmentSize == 0;
    } else {
      assert i / SegmentSize == n / SegmentSize;
    }
  }

  // ----- Consequences stated on the stream -----

  /** In a load that does not wrap past its own start (at most 4 MiB), every
      stream position is the last one to land at its place. */
  lemma PlacementOfEveryByte(s: int, n: nat, j: int)
    requires 0 <= s < SegmentCount && 0 <= j < LoadEnd(n) && LoadEnd(n) <= j + Window
    ensures LastWrite(s, PlaceSegment(s, j), PlaceOffset(j), LoadEnd(n)) == j
  {
    var k, o := PlaceSegment(s, j), PlaceOffset(j);
    assert InRange(s, k, o);
    LastWriteIsLast(s, k, o, LoadEnd(n));
    var lw := LastWrite(s, k, o, LoadEnd(n));
    LandsIff(s, j, k, o);
    assert lw >= j;
    LandsIff(s, lw, k, o);
    var a, b, r := j / Window, lw / Window, j % Window;
    assert j == Window * a + r && lw == Window * b + r;
    assert 0 <= Window * (b - a) < Window;
  }

  /** The padding of a load: every position from the data's end to the fill
      end is 0xFF. */
  lemma PaddingIsErased(data: Option<seq<byte>>, dataSize: nat, j: int)
    requires Fits(data, dataSize) && LoadSize(data, dataSize) <= j
    ensures Image(data, dataSize, j) == 0xFF
  {
  }

  /** A load of zero bytes fills the whole first segment with 0xFF. */
  lemma EmptyLoadFillsSegment(s: int, o: int)
    requires 0 <= s < SegmentCount && 0 <= o < SegmentSize
    ensures LoadEnd(0) == SegmentSize
    ensures LastWrite(s, s, o, LoadEnd(0)) == o
    ensures forall k :: 0 <= k < SegmentCount ==> (Touched(s, 0, k) <==> k == s)
  {
  }

  /** A load whose size is a positive multiple of 16 KiB (below the
      wrapping size) touches the segment after its data but writes no byte
      into it. */
  lemma TrailingSegmentNotFilled(s: int, n: nat, o: int)
    requires 0 <= s < SegmentCount && 0 <= o < SegmentSize
    requires 0 < n < Window && n % SegmentSize == 0
    ensures LoadEnd(n) == n
    ensures Touched(s, n, PlaceSegment(s, n))
    ensures LastWrite(s, PlaceSegment(s, n), o, LoadEnd(n)) == -1
  {
    PlaceIsTouched(s, n);
    DivModSegment(n, n / SegmentSize, 0);
    var k := PlaceSegment(s, n);
    assert (k - s) % SegmentCount == n / SegmentSize;
  }

  /** The worked case of a 20000-byte load into segment 3: segment 3 receives
      data[0..16384), segment 4 receives data[16384..20000) at offsets
      0..3616 and 0xFF from offset 3616 on, and nothing else is touched. */
  lemma LoadExample(data: seq<byte>, o: int)
    requires |data| >= 20000 && 0 <= o < SegmentSize
    ensures LoadEnd(20000) == 32768
    ensures LastWrite(3, 3, o, 32768) == o
    ensures LastWrite(3, 4, o, 32768) == 16384 + o
    ensures Image(Some(data), 20000, o) == data[o]
    ensures Image(Some(data), 20000, 16384 + o) == if o < 3616 then data[16384 + o] else 0xFF
    ensures forall k :: 0 <= k < SegmentCount ==> (Touched(3, 20000, k) <==> k == 3 || k == 4)
  {
  }
}
