/** The lazily allocated, reference-counted, mergeable breakpoint table that
    memory.cpp implements twice (the 64 K global table and the 16 K
    per-segment tables), as a value: the class methods in Ep128Memory are
    proved equal to `Set` on the table they touch. */
module BreakPoints {
  import opened Encoding

  /** `entries` is None while the table's buffer is not allocated;
      `count` is the table's breakpoint counter. */
  datatype Table = Table(entries: Option<seq<Entry>>, count: nat)

  /** A table whose buffer is not allocated. */
  const Absent: Table := Table(None, 0)

  /** A freshly allocated table buffer, zero-filled. */
  function Zeroes(size: nat): (z: seq<Entry>)
    ensures |z| == size
    ensures forall i :: 0 <= i < size ==> z[i] == 0
  {
    seq(size, _ => 0)
  }

  /** The number of non-zero entries. */
  function CountNonZero(s: seq<Entry>): nat
  {
    if |s| == 0 then 0 else (if s[0] != 0 then 1 else 0) + CountNonZero(s[1..])
  }

  /** The shape of every reachable table: an allocated buffer of the table's
      size has a positive counter, an absent one a zero counter. */
  predicate WellFormed(t: Table, size: nat)
  {
    match t.entries
    case None => t.count == 0
    case Some(e) => |e| == size && t.count >= 1
  }

  /** The invariant the code keeps: the counter never exceeds the number of
      non-zero entries, and every entry is a valid encoding. */
  ghost predicate Valid(t: Table, size: nat)
  {
    && WellFormed(t, size)
    && (t.entries.Some? ==>
          && t.count <= CountNonZero(t.entries.value)
          && forall i :: 0 <= i < size ==> t.entries.value[i] < 16)
  }

  /** The entry at `off`; an absent table reads as all zero. */
  function EntryAt(t: Table, size: nat, off: nat): Entry
    requires WellFormed(t, size) && off < size
  {
    if t.entries.None? then 0 else t.entries.value[off]
  }

  /** One setBreakPoint call on one table, as written (memory.cpp:104-136 and
      138-169). With `r || w` the table is allocated zero-filled if absent,
      the counter grows if the entry was zero, and the request is merged into
      the entry. Otherwise the call is a clear: a non-zero entry decrements the
      counter and the buffer is freed when it reaches zero; the entry byte
      itself is left as it was. */
  function Set(t: Table, size: nat, off: nat, priority: int, r: bool, w: bool): (t': Table)
    requires WellFormed(t, size) && off < size
    ensures WellFormed(t', size)
  {
    if r || w then
      var e := if t.entries.None? then Zeroes(size) else t.entries.value;
      var bp := e[off];
      Table(Some(e[off := Merge(bp, Request(priority, r, w))]),
            if bp == 0 then t.count + 1 else t.count)
    else if t.entries.None? || t.entries.value[off] == 0 then
      t
    else if t.count == 1 then
      Absent
    else
      Table(t.entries, t.count - 1)
  }

  lemma {:induction false} CountNonZeroUpdate(s: seq<Entry>, i: nat, v: Entry)
    requires i < |s|
    ensures CountNonZero(s[i := v])
            == CountNonZero(s) - (if s[i] != 0 then 1 else 0) + (if v != 0 then 1 else 0)
  {
    if i == 0 {
      assert s[i := v][1..] == s[1..];
    } else {
      CountNonZeroUpdate(s[1..], i - 1, v);
      assert s[i := v][1..] == s[1..][i - 1 := v];
    }
  }

  lemma {:induction false} CountNonZeroZeroes(size: nat)
    ensures CountNonZero(Zeroes(size)) == 0
  {
    if size > 0 {
      assert Zeroes(size)[1..] == Zeroes(size - 1);
      CountNonZeroZeroes(size - 1);
    }
  }

  /** Splitting off the first entry of a suffix, as the clear loops walk it. */
  lemma CountNonZeroSuffix(s: seq<Entry>, i: nat)
    requires i < |s|
    ensures CountNonZero(s[i..]) == (if s[i] != 0 then 1 else 0) + CountNonZero(s[i + 1..])
  {
    assert s[i..][1..] == s[i + 1..];
  }

  /** Every set or clear keeps the table invariant. */
  lemma SetKeepsValid(t: Table, size: nat, off: nat, priority: int, r: bool, w: bool)
    requires Valid(t, size) && off < size
    ensures Valid(Set(t, size, off, priority, r, w), size)
  {
    if r || w {
      var e := if t.entries.None? then Zeroes(size) else t.entries.value;
      if t.entries.None? {
        CountNonZeroZeroes(size);
      }
      var m := Merge(e[off], Request(priority, r, w));
      assert Flags(m) != 0;
      CountNonZeroUpdate(e, off, m);
    }
  }

  /** Merge law of one set call: the entry's flags gain the requested flags and
      its priority becomes the maximum of the old and the clamped requested
      priority; the other entries do not change. */
  lemma SetMergeLaw(t: Table, size: nat, off: nat, priority: int, r: bool, w: bool)
    requires Valid(t, size) && off < size && (r || w)
    ensures var t' := Set(t, size, off, priority, r, w);
      && t'.entries.Some?
      && Flags(t'.entries.value[off]) == Flags(EntryAt(t, size, off)) | ModeBits(r, w)
      && Priority(t'.entries.value[off])
         == Max(Priority(EntryAt(t, size, off)), Clamp(priority, 0, 3))
      && forall i :: 0 <= i < size && i != off ==> t'.entries.value[i] == EntryAt(t, size, i)
  {
  }

  /** A set on an absent table allocates a zero-filled buffer holding only the
      request and a counter of one; on an allocated table the counter grows
      exactly when the addressed entry was zero. */
  lemma SetAllocates(t: Table, size: nat, off: nat, priority: int, r: bool, w: bool)
    requires WellFormed(t, size) && off < size && (r || w)
    ensures var t' := Set(t, size, off, priority, r, w);
      && (t.entries.None? ==>
            t'.entries == Some(Zeroes(size)[off := Request(priority, r, w)]) && t'.count == 1)
      && t'.count == t.count + (if EntryAt(t, size, off) == 0 then 1 else 0)
  {
  }

  /** A clear on an absent table or a zero entry changes nothing; on a
      non-zero entry it decrements the counter, freeing the buffer exactly when
      the counter reaches zero, and keeps every byte of the buffer. */
  lemma ClearLaw(t: Table, size: nat, off: nat, priority: int)
    requires WellFormed(t, size) && off < size
    ensures var t' := Set(t, size, off, priority, false, false);
      && (EntryAt(t, size, off) == 0 ==> t' == t)
      && (EntryAt(t, size, off) != 0 ==>
            && t'.count == t.count - 1
            && (t'.entries.None? <==> t.count == 1)
            && (t'.entries.Some? ==> t'.entries == t.entries))
  {
  }

  /** A set call as a value: the arguments of one setBreakPoint call. */
  datatype Req = Req(priority: int, r: bool, w: bool)

  /** The table after the calls `reqs`, in order, at one offset. */
  function SetAll(t: Table, size: nat, off: nat, reqs: seq<Req>): (t': Table)
    requires WellFormed(t, size) && off < size
    ensures WellFormed(t', size)
    decreases |reqs|
  {
    if |reqs| == 0 then t
    else
      var last := reqs[|reqs| - 1];
      Set(SetAll(t, size, off, reqs[..|reqs| - 1]), size, off, last.priority, last.r, last.w)
  }

  /** The OR of the flags every call requests. */
  function RequestedFlags(reqs: seq<Req>): Entry
  {
    if |reqs| == 0 then 0
    else RequestedFlags(reqs[..|reqs| - 1]) | ModeBits(reqs[|reqs| - 1].r, reqs[|reqs| - 1].w)
  }

  /** The maximum clamped priority every call requests. */
  function RequestedPriority(reqs: seq<Req>): int
  {
    if |reqs| == 0 then 0
    else Max(RequestedPriority(reqs[..|reqs| - 1]), Clamp(reqs[|reqs| - 1].priority, 0, 3))
  }

  /** Merge law over any sequence of set calls at one address: the stored
      flags are the OR of all requested flags and the stored priority is the
      maximum of all requested priorities (together with the entry's own). */
  lemma {:induction false} RepeatedSetMergeLaw(t: Table, size: nat, off: nat, reqs: seq<Req>)
    requires Valid(t, size) && off < size
    requires forall i :: 0 <= i < |reqs| ==> reqs[i].r || reqs[i].w
    ensures var t' := SetAll(t, size, off, reqs);
      && Valid(t', size)
      && Flags(EntryAt(t', size, off)) == Flags(EntryAt(t, size, off)) | RequestedFlags(reqs)
      && Priority(EntryAt(t', size, off))
         == Max(Priority(EntryAt(t, size, off)), RequestedPriority(reqs))
  {
    if |reqs| > 0 {
      var init := reqs[..|reqs| - 1];
      var last := reqs[|reqs| - 1];
      RepeatedSetMergeLaw(t, size, off, init);
      var u := SetAll(t, size, off, init);
      SetKeepsValid(u, size, off, last.priority, last.r, last.w);
      SetMergeLaw(u, size, off, last.priority, last.r, last.w);
    }
  }

  // ----- The clear path does not reset the entry -----

  /** As written, clearing a breakpoint leaves its entry non-zero while other
      breakpoints keep the table allocated, and clearing it a second time
      frees the table although another breakpoint was never cleared. */
  lemma ClearLeavesBreakPoint(size: nat, a: nat, b: nat)
    requires a < size && b < size && a != b
    ensures var t1 := Set(Absent, size, a, 0, true, false);
      var t2 := Set(t1, size, b, 0, true, false);
      var t3 := Set(t2, size, a, 0, false, false);
      var t4 := Set(t3, size, a, 0, false, false);
      && t3.entries.Some? && t3.entries.value[a] != 0
      && t3.count < CountNonZero(t3.entries.value)
      && t4 == Absent
  {
    var t1 := Set(Absent, size, a, 0, true, false);
    var t2 := Set(t1, size, b, 0, true, false);
    CountNonZeroZeroes(size);
    CountNonZeroUpdate(Zeroes(size), a, 1);
    CountNonZeroUpdate(t1.entries.value, b, 1);
  }

  /** The intended invariant: the counter equals the number of
      non-zero entries, so a table is allocated exactly when it holds a
      breakpoint. */
  ghost predicate Exact(t: Table, size: nat)
  {
    && WellFormed(t, size)
    && (t.entries.Some? ==>
          && t.count == CountNonZero(t.entries.value)
          && forall i :: 0 <= i < size ==> t.entries.value[i] < 16)
  }

  /** setBreakPoint with the clear path resetting the entry to zero. */
  function SetCorrected(t: Table, size: nat, off: nat, priority: int, r: bool, w: bool): (t': Table)
    requires WellFormed(t, size) && off < size
    ensures WellFormed(t', size)
  {
    if r || w then
      Set(t, size, off, priority, r, w)
    else if t.entries.None? || t.entries.value[off] == 0 then
      t
    else if t.count == 1 then
      Absent
    else
      Table(Some(t.entries.value[off := 0]), t.count - 1)
  }

  /** The corrected clear removes the breakpoint, and every call keeps the
      counter equal to the number of breakpoints held. */
  lemma SetCorrectedKeepsExact(t: Table, size: nat, off: nat, priority: int, r: bool, w: bool)
    requires Exact(t, size) && off < size
    ensures var t' := SetCorrected(t, size, off, priority, r, w);
      && Exact(t', size)
      && (!r && !w ==> EntryAt(t', size, off) == 0)
      && (t'.entries.Some? <==> t'.count > 0)
  {
    if r || w {
      var e := if t.entries.None? then Zeroes(size) else t.entries.value;
      if t.entries.None? {
        CountNonZeroZeroes(size);
      }
      var m := Merge(e[off], Request(priority, r, w));
      assert Flags(m) != 0;
      CountNonZeroUpdate(e, off, m);
    } else if t.entries.Some? && t.entries.value[off] != 0 {
      CountNonZeroUpdate(t.entries.value, off, 0);
      if t.count == 1 {
        // The last breakpoint of the table was the one at `off`.
        assert CountNonZero(t.entries.value[off := 0]) == 0;
      }
    }
  }
}
