/** What getBreakPointList reports (memory.cpp:254-276): every non-zero entry
    of the global table in ascending address order, then every non-zero entry
    of every allocated per-segment table in ascending (segment, offset)
    order, each decoded into its read flag, write flag and priority. */
module BreakPointList {
  import opened Encoding
  import opened BreakPoints

  /** A full 16-bit address (global table) or a segment and a 14-bit offset. */
  datatype Location = Address(addr: int) | SegmentOffset(segment: int, offset: int)

  /** One record of the BreakPointList collaborator. */
  datatype BreakPoint = BreakPoint(loc: Location, r: bool, w: bool, priority: int)

  /** Index `i` of the global table (`seg == None`) or of segment `seg`'s table. */
  function Place(seg: Option<int>, i: int): Location
  {
    if seg.None? then Address(i) else SegmentOffset(seg.value, i)
  }

  /** `!!(bp & 1), !!(bp & 2), bp >> 2`. */
  function Decode(loc: Location, bp: Entry): BreakPoint
  {
    BreakPoint(loc, IsRead(bp), IsWrite(bp), Priority(bp))
  }

  /** The records of the first `n` entries of one table. */
  function TableEntries(seg: Option<int>, e: seq<Entry>, n: nat): seq<BreakPoint>
    requires n <= |e|
  {
    if n == 0 then []
    else TableEntries(seg, e, n - 1)
         + (if e[n - 1] != 0 then [Decode(Place(seg, n - 1), e[n - 1])] else [])
  }

  /** The records of the allocated tables among the first `j` segments. */
  function SegmentsEntries(tables: seq<Option<seq<Entry>>>, j: nat): seq<BreakPoint>
    requires j <= |tables|
  {
    if j == 0 then []
    else SegmentsEntries(tables, j - 1)
         + (if tables[j - 1].Some?
            then TableEntries(Some(j - 1), tables[j - 1].value, |tables[j - 1].value|)
            else [])
  }

  /** The buffers of a sequence of tables. */
  function Buffers(ts: seq<Table>): (v: seq<Option<seq<Entry>>>)
    ensures |v| == |ts|
    ensures forall k :: 0 <= k < |ts| ==> v[k] == ts[k].entries
  {
    seq(|ts|, k requires 0 <= k < |ts| => ts[k].entries)
  }

  /** The whole list: the global table first, then the segment tables. */
  function ListOf(global: Option<seq<Entry>>, tables: seq<Option<seq<Entry>>>): seq<BreakPoint>
  {
    (if global.Some? then TableEntries(None, global.value, |global.value|) else [])
    + SegmentsEntries(tables, |tables|)
  }

  /** The position of a location in the enumeration order. */
  function Key(loc: Location): int
  {
    match loc
    case Address(a) => a
    case SegmentOffset(s, o) => 65536 + s * 16384 + o
  }

  predicate Ascending(l: seq<BreakPoint>)
  {
    forall p, q :: 0 <= p < q < |l| ==> Key(l[p].loc) < Key(l[q].loc)
  }

  predicate KeysWithin(l: seq<BreakPoint>, lo: int, hi: int)
  {
    forall p :: 0 <= p < |l| ==> lo <= Key(l[p].loc) < hi
  }

  /** The base key of a table's first entry. */
  function Base(seg: Option<int>): int
  {
    if seg.None? then 0 else 65536 + seg.value * 16384
  }

  /** A record is listed for a table exactly when its entry is non-zero, and
      it carries that entry decoded. */
  lemma {:induction false} TableEntriesMembers(seg: Option<int>, e: seq<Entry>, n: nat, b: BreakPoint)
    requires n <= |e|
    ensures b in TableEntries(seg, e, n)
            <==> exists i :: 0 <= i < n && e[i] != 0 && b == Decode(Place(seg, i), e[i])
  {
    if n > 0 {
      TableEntriesMembers(seg, e, n - 1, b);
    }
  }

  /** A table's records are in ascending index order. */
  lemma {:induction false} TableEntriesAscending(seg: Option<int>, e: seq<Entry>, n: nat)
    requires n <= |e|
    ensures Ascending(TableEntries(seg, e, n))
    ensures KeysWithin(TableEntries(seg, e, n), Base(seg), Base(seg) + n)
  {
    if n > 0 {
      TableEntriesAscending(seg, e, n - 1);
      var l := TableEntries(seg, e, n - 1);
      var x := if e[n - 1] != 0 then [Decode(Place(seg, n - 1), e[n - 1])] else [];
      assert KeysWithin(x, Base(seg) + n - 1, Base(seg) + n);
      ConcatAscending(l, x, Base(seg), Base(seg) + n - 1, Base(seg) + n);
    }
  }

  lemma ConcatAscending(a: seq<BreakPoint>, b: seq<BreakPoint>, lo: int, mid: int, hi: int)
    requires Ascending(a) && Ascending(b)
    requires lo <= mid <= hi
    requires KeysWithin(a, lo, mid) && KeysWithin(b, mid, hi)
    ensures Ascending(a + b) && KeysWithin(a + b, lo, hi)
  {
    forall p, q | 0 <= p < q < |a + b|
      ensures Key((a + b)[p].loc) < Key((a + b)[q].loc)
    {
      if q < |a| {
        assert (a + b)[p] == a[p] && (a + b)[q] == a[q];
      } else if p >= |a| {
        assert (a + b)[p] == b[p - |a|] && (a + b)[q] == b[q - |a|];
      } else {
        assert (a + b)[p] == a[p] && (a + b)[q] == b[q - |a|];
      }
    }
    forall p | 0 <= p < |a + b|
      ensures lo <= Key((a + b)[p].loc) < hi
    {
      if p < |a| {
        assert (a + b)[p] == a[p];
      } else {
        assert (a + b)[p] == b[p - |a|];
      }
    }
  }

  /** Tables of the size memory.cpp allocates: 16384 entries per segment. */
  predicate SegmentTablesShaped(tables: seq<Option<seq<Entry>>>)
  {
    forall j :: 0 <= j < |tables| && tables[j].Some? ==> |tables[j].value| == 16384
  }

  lemma {:induction false} SegmentsEntriesAscending(tables: seq<Option<seq<Entry>>>, j: nat)
    requires j <= |tables| && SegmentTablesShaped(tables)
    ensures Ascending(SegmentsEntries(tables, j))
    ensures KeysWithin(SegmentsEntries(tables, j), 65536, 65536 + j * 16384)
  {
    if j > 0 {
      SegmentsEntriesAscending(tables, j - 1);
      var l := SegmentsEntries(tables, j - 1);
      var x := if tables[j - 1].Some?
               then TableEntries(Some(j - 1), tables[j - 1].value, |tables[j - 1].value|)
               else [];
      if tables[j - 1].Some? {
        TableEntriesAscending(Some(j - 1), tables[j - 1].value, |tables[j - 1].value|);
      }
      assert KeysWithin(x, 65536 + (j - 1) * 16384, 65536 + j * 16384);
      ConcatAscending(l, x, 65536, 65536 + (j - 1) * 16384, 65536 + j * 16384);
    }
  }

  /** The whole list is strictly ascending: global entries by address first,
      then segment entries by (segment, offset); in particular no location is
      listed twice. */
  lemma ListAscending(global: Option<seq<Entry>>, tables: seq<Option<seq<Entry>>>)
    requires global.Some? ==> |global.value| == 65536
    requires SegmentTablesShaped(tables)
    ensures Ascending(ListOf(global, tables))
  {
    var g := if global.Some? then TableEntries(None, global.value, |global.value|) else [];
    if global.Some? {
      TableEntriesAscending(None, global.value, |global.value|);
    }
    SegmentsEntriesAscending(tables, |tables|);
    ConcatAscending(g, SegmentsEntries(tables, |tables|), 0, 65536, 65536 + |tables| * 16384);
  }

  lemma {:induction false} SegmentsEntriesMembers(tables: seq<Option<seq<Entry>>>, j: nat, b: BreakPoint)
    requires j <= |tables|
    ensures b in SegmentsEntries(tables, j)
            <==> exists s, i :: 0 <= s < j && tables[s].Some? && 0 <= i < |tables[s].value|
                   && tables[s].value[i] != 0 && b == Decode(SegmentOffset(s, i), tables[s].value[i])
  {
    if j > 0 {
      SegmentsEntriesMembers(tables, j - 1, b);
      if tables[j - 1].Some? {
        TableEntriesMembers(Some(j - 1), tables[j - 1].value, |tables[j - 1].value|, b);
      }
    }
  }

  /** Exactly the non-zero entries are listed, each decoded from its byte. */
  lemma ListMembers(global: Option<seq<Entry>>, tables: seq<Option<seq<Entry>>>, b: BreakPoint)
    ensures b in ListOf(global, tables)
            <==> || (exists i :: global.Some? && 0 <= i < |global.value| && global.value[i] != 0
                                 && b == Decode(Address(i), global.value[i]))
                 || (exists s, i :: 0 <= s < |tables| && tables[s].Some? && 0 <= i < |tables[s].value|
                                    && tables[s].value[i] != 0
                                    && b == Decode(SegmentOffset(s, i), tables[s].value[i]))
  {
    if global.Some? {
      TableEntriesMembers(None, global.value, |global.value|, b);
    }
    SegmentsEntriesMembers(tables, |tables|, b);
  }
}
