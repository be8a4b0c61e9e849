/** The one-byte breakpoint encoding shared by the memory and I/O breakpoint
    tables, the priority threshold, and the gate the hot paths evaluate. */
module Encoding {

  /** A value that may be absent: an unallocated buffer or a null pointer. */
  datatype Option<T> = None | Some(value: T)

  /** A data byte (uint8_t): emulated memory contents or an I/O port value. */
  newtype byte = x: int | 0 <= x < 256

  /** One breakpoint-table entry (uint8_t): bit 0 = read, bit 1 = write,
      bits 2-3 = priority. Zero means "no breakpoint here". */
  type Entry = bv8

  /** A 16-bit address (uint16_t). */
  type Address16 = a: int | 0 <= a < 65536

  /** `n > lo ? (n < hi ? n : hi) : lo`, the clamp written out in memory.cpp. */
  function Clamp(n: int, lo: int, hi: int): (r: int)
    requires lo <= hi
    ensures lo <= r <= hi
    ensures lo <= n <= hi ==> r == n
    ensures n < lo ==> r == lo
    ensures hi < n ==> r == hi
  {
    if n > lo then (if n < hi then n else hi) else lo
  }

  function Max(a: int, b: int): int { if a < b then b else a }

  /** The read/write flag bits of an entry. */
  function Flags(e: Entry): Entry { e & 3 }

  /** The priority field of an entry, as the list decoding `bp >> 2` reads it. */
  function Priority(e: Entry): int { (e >> 2) as int }

  predicate IsRead(e: Entry) { e & 1 != 0 }

  predicate IsWrite(e: Entry) { e & 2 != 0 }

  /** `(r ? 1 : 0) + (w ? 2 : 0)`: the flag bits a set call asks for. */
  function ModeBits(r: bool, w: bool): (m: Entry)
    ensures m < 4
    ensures IsRead(m) == r && IsWrite(m) == w
    ensures m == 0 <==> !r && !w
  {
    (if r then 1 else 0) + (if w then 2 else 0)
  }

  /** The priority clamped to 0..3 and shifted into bits 2-3. */
  function PriorityBits(priority: int): (p: Entry)
    ensures p & 3 == 0 && p < 16
    ensures (p >> 2) as int == Clamp(priority, 0, 3)
  {
    (Clamp(priority, 0, 3) as bv8) << 2
  }

  /** The requested entry of a set call (memory.cpp:107-111, 140-144). */
  function Request(priority: int, r: bool, w: bool): (m: Entry)
    ensures m < 16
    ensures IsRead(m) == r && IsWrite(m) == w
    ensures Priority(m) == Clamp(priority, 0, 3)
  {
    ModeBits(r, w) + PriorityBits(priority)
  }

  /** The merge of an existing entry `bp` with a requested entry `mode`
      (memory.cpp:121-123, 154-156): the whole bytes are compared, the larger
      one's priority field is kept, and the flag bits are ORed. On valid
      encodings this is exactly "flags OR, priority maximum". */
  function Merge(bp: Entry, mode: Entry): (m: Entry)
    ensures bp < 16 && mode < 16 ==> m < 16
    ensures bp < 16 && mode < 16 ==> Flags(m) == Flags(bp) | Flags(mode)
    ensures bp < 16 && mode < 16 ==> Priority(m) == Max(Priority(bp), Priority(mode))
  {
    var mode' := if bp > mode then (bp & 12) + (mode & 3) else mode;
    mode' | (bp & 3)
  }

  /** The stored form of a priority threshold (memory.cpp:198-202): the level
      clamped to 0..4 and shifted left by 2. */
  function ThresholdByte(n: int): (t: Entry)
    ensures t & 3 == 0 && t <= 16
    ensures (t >> 2) as int == Clamp(n, 0, 4)
  {
    (Clamp(n, 0, 4) as bv8) << 2
  }

  /** The getter's un-shift (memory.cpp:204-207). */
  function ThresholdLevel(t: Entry): int { (t >> 2) as int }

  /** The getter after the setter gives back the clamped level. */
  lemma ThresholdRoundTrip(n: int)
    ensures ThresholdLevel(ThresholdByte(n)) == Clamp(n, 0, 4)
  {
  }

  /** The hot-path gate (ioports.hpp:74-75 and 87-88): the whole entry byte is
      compared with the stored threshold and the access-kind bit is tested. */
  predicate Fires(entry: Entry, threshold: Entry, kind: Entry)
  {
    entry >= threshold && entry & kind != 0
  }

  /** Comparing whole bytes against a pre-shifted threshold is comparing the
      priority field against the threshold level. */
  lemma GateIsPriorityComparison(entry: Entry, n: int, kind: Entry)
    ensures Fires(entry, ThresholdByte(n), kind)
            <==> Priority(entry) >= Clamp(n, 0, 4) && entry & kind != 0
  {
  }

  /** Threshold level 4 (stored 16) silences every valid entry. */
  lemma LevelFourNeverFires(entry: Entry, kind: Entry)
    requires entry < 16
    ensures !Fires(entry, ThresholdByte(4), kind)
  {
  }
}
