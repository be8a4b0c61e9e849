/** The I/O port dispatch of ioports.hpp: 256 ports, each with a read and a
    write callback record and a cached value, and an optional 256-entry
    breakpoint table gated by the threshold encoding of `Encoding`. A read
    callback is a function value called with its record's own arguments; the
    write callbacks and the debugger hook act outside the model and are
    observed as events appended to a ghost trace, each carrying what it
    could see of the port values, so the trace records the order of the
    steps. */
module Ep128IOPorts {
  import opened Encoding

  /** A ReadCallback record (ioports.hpp:30-34): the device function, the
      handle it is passed as `userData`, and the address it is passed. */
  datatype ReadCallback = ReadCallback(func: (int, Address16) -> byte, userData: int, addr: Address16)

  /** A WriteCallback record (ioports.hpp:35-39); `func` names the device
      function, whose effect is outside the model. */
  datatype WriteCallback = WriteCallback(func: int, userData: int, addr: Address16)

  datatype Event =
    /** A read callback was called for `port` with these arguments and
        produced `value`. */
    | DeviceRead(port: int, userData: int, addr: Address16, value: byte)
    /** breakPointCallback(isWrite, addr, value), called while the port
        values were `ports`. */
    | Hook(isWrite: bool, addr: Address16, value: byte, ports: seq<byte>)
    /** A write callback was called with these arguments while the port
        values were `ports`. */
    | DeviceWrite(func: int, userData: int, addr: Address16, value: byte, ports: seq<byte>)

  /** What read and write depend on: the port values, the callback tables,
      the breakpoint table (None while not allocated) and the threshold. */
  datatype Ports = Ports(values: seq<byte>, readCbs: seq<ReadCallback>, writeCbs: seq<WriteCallback>,
                         table: Option<seq<Entry>>, threshold: Entry)

  predicate Shaped(p: Ports)
  {
    && |p.values| == 256 && |p.readCbs| == 256 && |p.writeCbs| == 256
    && (p.table.Some? ==> |p.table.value| == 256)
  }

  /** The hook condition for an access of `kind` (1 = read, 2 = write) at
      port `port` (ioports.hpp:73-75, 86-88): the table is allocated, its
      entry is at least the threshold and has the access bit. */
  predicate Hooks(table: Option<seq<Entry>>, threshold: Entry, port: int, kind: Entry)
  {
    table.Some? && 0 <= port < |table.value| && Fires(table.value[port], threshold, kind)
  }

  /** The value a read of `addr` returns (ioports.hpp:69-72, 78). */
  function ReadValue(p: Ports, addr: Address16): (v: byte)
    requires Shaped(p)
  {
    var cb := p.readCbs[addr % 256];
    cb.func(cb.userData, cb.addr)
  }

  /** The events of a read of `addr` (ioports.hpp:67-79): the port's read
      callback first, then the hook, on the full address and with the value
      the callback produced, exactly when the read gate fires. */
  function ReadEvents(p: Ports, addr: Address16): (ev: seq<Event>)
    requires Shaped(p)
    ensures 1 <= |ev| <= 2
    ensures ev[0] == DeviceRead(addr % 256, p.readCbs[addr % 256].userData, p.readCbs[addr % 256].addr,
                                ReadValue(p, addr))
    ensures |ev| == 2 <==> Hooks(p.table, p.threshold, addr % 256, 1)
    ensures |ev| == 2 ==> ev[1] == Hook(false, addr, ReadValue(p, addr), p.values)
  {
    var cb := p.readCbs[addr % 256];
    var v := cb.func(cb.userData, cb.addr);
    [DeviceRead(addr % 256, cb.userData, cb.addr, v)]
    + (if Hooks(p.table, p.threshold, addr % 256, 1) then [Hook(false, addr, v, p.values)] else [])
  }

  /** The state after a write of `value` to `addr`: only the port's cached
      value changes (ioports.hpp:91). */
  function WriteState(p: Ports, addr: Address16, value: byte): (q: Ports)
    requires Shaped(p)
    ensures Shaped(q)
    ensures q.values[addr % 256] == value
    ensures forall k :: 0 <= k < 256 && k != addr % 256 ==> q.values[k] == p.values[k]
    ensures q.readCbs == p.readCbs && q.writeCbs == p.writeCbs && q.table == p.table && q.threshold == p.threshold
  {
    p.(values := p.values[addr % 256 := value])
  }

  /** The events of a write of `value` to `addr` (ioports.hpp:81-93): the
      hook, exactly when the write gate fires and while the port still holds
      its old value; then the port's write callback, with its own record's
      arguments and `value`, after the port value is updated. */
  function WriteEvents(p: Ports, addr: Address16, value: byte): (ev: seq<Event>)
    requires Shaped(p)
    ensures 1 <= |ev| <= 2
    ensures ev[|ev| - 1] == DeviceWrite(p.writeCbs[addr % 256].func, p.writeCbs[addr % 256].userData,
                                        p.writeCbs[addr % 256].addr, value, WriteState(p, addr, value).values)
    ensures |ev| == 2 <==> Hooks(p.table, p.threshold, addr % 256, 2)
    ensures |ev| == 2 ==> ev[0] == Hook(true, addr, value, p.values)
  {
    var cb := p.writeCbs[addr % 256];
    (if Hooks(p.table, p.threshold, addr % 256, 2) then [Hook(true, addr, value, p.values)] else [])
    + [DeviceWrite(cb.func, cb.userData, cb.addr, value, p.values[addr % 256 := value])]
  }

  /** A read sees only the low byte of the address, except that the hook
      reports the full address. */
  lemma ReadSeesLowByte(p: Ports, a: Address16, b: Address16)
    requires Shaped(p) && a % 256 == b % 256
    ensures ReadValue(p, a) == ReadValue(p, b)
    ensures ReadEvents(p, a)[0] == ReadEvents(p, b)[0]
    ensures |ReadEvents(p, a)| == |ReadEvents(p, b)|
  {
  }

  /** The value read depends only on the port's read record: the port values,
      the breakpoint table and the threshold, and so the hook, do not alter
      it. */
  lemma ReadDependsOnRecordOnly(p: Ports, q: Ports, addr: Address16)
    requires Shaped(p) && Shaped(q) && p.readCbs[addr % 256] == q.readCbs[addr % 256]
    ensures ReadValue(p, addr) == ReadValue(q, addr)
    ensures ReadEvents(p, addr)[0] == ReadEvents(q, addr)[0]
  {
  }

  /** With no breakpoint table neither a read nor a write calls the hook. */
  lemma AbsentTableNeverHooks(p: Ports, addr: Address16, value: byte)
    requires Shaped(p) && p.table.None?
    ensures |ReadEvents(p, addr)| == 1 && |WriteEvents(p, addr, value)| == 1
  {
  }

  /** Under a threshold set to level `n`, the hook fires exactly when the
      entry's priority reaches the clamped level and the access bit is set. */
  lemma HookIsPriorityGate(p: Ports, addr: Address16, value: byte, n: int)
    requires Shaped(p) && p.threshold == ThresholdByte(n)
    ensures |ReadEvents(p, addr)| == 2
            <==> p.table.Some? && Priority(p.table.value[addr % 256]) >= Clamp(n, 0, 4)
                 && IsRead(p.table.value[addr % 256])
    ensures |WriteEvents(p, addr, value)| == 2
            <==> p.table.Some? && Priority(p.table.value[addr % 256]) >= Clamp(n, 0, 4)
                 && IsWrite(p.table.value[addr % 256])
  {
    if p.table.Some? {
      GateIsPriorityComparison(p.table.value[addr % 256], n, 1);
      GateIsPriorityComparison(p.table.value[addr % 256], n, 2);
    }
  }

  /** Level 4 silences every table of valid entries. */
  lemma LevelFourSilences(p: Ports, addr: Address16, value: byte)
    requires Shaped(p) && p.threshold == ThresholdByte(4)
    requires p.table.Some? ==> forall k :: 0 <= k < 256 ==> p.table.value[k] < 16
    ensures |ReadEvents(p, addr)| == 1 && |WriteEvents(p, addr, value)| == 1
  {
    if p.table.Some? {
      LevelFourNeverFires(p.table.value[addr % 256], 1);
      LevelFourNeverFires(p.table.value[addr % 256], 2);
    }
  }

  class IOPorts {
    const portValues: array<byte>
    const readCallbacks: array<ReadCallback>
    const writeCallbacks: array<WriteCallback>
    var breakPointTable: array?<Entry>
    var breakPointCnt: nat
    /** The threshold level, stored shifted left by 2. */
    var breakPointPriorityThreshold: Entry
    /** The callbacks and hooks called so far. */
    ghost var trace: seq<Event>

    ghost predicate Valid()
      reads this
    {
      && portValues.Length == 256 && readCallbacks.Length == 256 && writeCallbacks.Length == 256
      && (breakPointTable != null ==>
            breakPointTable.Length == 256 && breakPointTable as object != portValues)
    }

    ghost function State(): (p: Ports)
      requires Valid()
      reads this, portValues, readCallbacks, writeCallbacks, breakPointTable
      ensures Shaped(p)
    {
      Ports(portValues[..], readCallbacks[..], writeCallbacks[..],
            if breakPointTable == null then None else Some(breakPointTable[..]),
            breakPointPriorityThreshold)
    }

    /** The ports in the state the constructor and the non-inline setters,
        which are not part of this model, leave them: port values, callback
        records, breakpoint table, counter and threshold as given, and no
        event yet. */
    constructor (values: seq<byte>, readCbs: seq<ReadCallback>, writeCbs: seq<WriteCallback>,
                 table: Option<seq<Entry>>, count: nat, threshold: Entry)
      requires |values| == 256 && |readCbs| == 256 && |writeCbs| == 256
      requires table.Some? ==> |table.value| == 256
      ensures Valid()
      ensures State() == Ports(values, readCbs, writeCbs, table, threshold)
      ensures fresh(portValues) && fresh(readCallbacks) && fresh(writeCallbacks)
      ensures breakPointTable != null ==> fresh(breakPointTable)
      ensures breakPointCnt == count && trace == []
    {
      portValues := new byte[256](i requires 0 <= i < 256 => values[i]);
      readCallbacks := new ReadCallback[256](i requires 0 <= i < 256 => readCbs[i]);
      writeCallbacks := new WriteCallback[256](i requires 0 <= i < 256 => writeCbs[i]);
      if table.Some? {
        breakPointTable := new Entry[256](i requires 0 <= i < 256 => table.value[i]);
      } else {
        breakPointTable := null;
      }
      breakPointCnt := count;
      breakPointPriorityThreshold := threshold;
      trace := [];
      new;
      assert portValues[..] == values;
      assert readCallbacks[..] == readCbs;
      assert writeCallbacks[..] == writeCbs;
      assert table.Some? ==> breakPointTable[..] == table.value;
    }

    /** The debugger hook (ioports.hpp:51). Its default body and the
        debugger's override are not part of this model; the call is
        recorded with the port values at that moment. */
    method BreakPointCallback(isWrite: bool, addr: Address16, value: byte)
      modifies this`trace
      ensures trace == old(trace) + [Hook(isWrite, addr, value, portValues[..])]
    {
      trace := trace + [Hook(isWrite, addr, value, portValues[..])];
    }

    /** read (ioports.hpp:67-79). */
    method Read(addr: Address16) returns (value: byte)
      requires Valid()
      modifies this`trace
      ensures value == ReadValue(old(State()), addr)
      ensures trace == old(trace) + ReadEvents(old(State()), addr)
    {
      var offs := addr % 256;
      var cb := readCallbacks[offs];
      value := cb.func(cb.userData, cb.addr);
      trace := trace + [DeviceRead(offs, cb.userData, cb.addr, value)];
      if breakPointTable != null {
        if breakPointTable[offs] >= breakPointPriorityThreshold && breakPointTable[offs] & 1 != 0 {
          BreakPointCallback(false, addr, value);
        }
      }
    }

    /** write (ioports.hpp:81-93). */
    method Write(addr: Address16, value: byte)
      requires Valid()
      modifies this`trace, portValues
      ensures Valid()
      ensures State() == WriteState(old(State()), addr, value)
      ensures trace == old(trace) + WriteEvents(old(State()), addr, value)
    {
      var offs := addr % 256;
      var cb := writeCallbacks[offs];
      if breakPointTable != null {
        if breakPointTable[offs] >= breakPointPriorityThreshold && breakPointTable[offs] & 2 != 0 {
          BreakPointCallback(true, addr, value);
        }
      }
      portValues[offs] := value;
      trace := trace + [DeviceWrite(cb.func, cb.userData, cb.addr, value, portValues[..])];
    }
  }
}
