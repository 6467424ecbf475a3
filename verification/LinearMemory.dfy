/**
 Linear memory of a wasm2c module: allocation, growth by mprotect inside a reservation or by
 realloc, and the one abstract step both implement (section 4.5.3 of the WebAssembly Core
 Specification 1.0).
 */
module LinearMemory {
  import opened Bytes

  const FAILED := 0xFFFF_FFFF_FFFF_FFFF // (uint64_t)-1

  // ---------- the abstract memory ----------

  datatype Memory = Memory(pages: nat, maxPages: nat, pageSize: nat, bytes: seq<Byte>)

  predicate MemoryOk(m: Memory) {
    m.pageSize > 0 && m.pages <= m.maxPages && m.maxPages * m.pageSize < TWO_64 && |m.bytes| == m.pages * m.pageSize
  }

  function Zeros(n: nat): (z: seq<Byte>)
    ensures |z| == n && forall k :: 0 <= k < n ==> z[k] == 0
  {
    if n == 0 then [] else Zeros(n - 1) + [0]
  }

  lemma AllZero(s: seq<Byte>)
    requires forall k :: 0 <= k < |s| ==> s[k] == 0
    ensures s == Zeros(|s|)
  {
  }

  function Fresh(pages: nat, maxPages: nat, pageSize: nat): Memory {
    Memory(pages, maxPages, pageSize, Zeros(pages * pageSize))
  }

  datatype Grown = Grown(memory: Memory, result: nat)

  /** memory.grow as specified: zero pages are appended and the old size is returned, or nothing changes and -1 is. */
  function Grow(m: Memory, delta: nat, refused: bool): Grown {
    if m.pages + delta > m.maxPages || refused then Grown(m, FAILED)
    else Grown(m.(pages := m.pages + delta, bytes := m.bytes + Zeros(delta * m.pageSize)), m.pages)
  }

  /** The sum of pages wraps around to exactly zero. */
  predicate WrapsToZero(m: Memory, delta: nat) {
    m.pages > 0 && m.pages + delta == TWO_64
  }

  /** What the runtime does: it tests the wrapped sum for zero before it tests it for overflow. */
  function RuntimeGrow(m: Memory, delta: nat, refused: bool): Grown {
    if WrapsToZero(m, delta) then Grown(m, 0) else Grow(m, delta, refused)
  }

  /** The runtime departs from the specification exactly when the sum wraps to zero, and then only in its result. */
  lemma GrowIsSpecifiedIff(m: Memory, delta: nat, refused: bool)
    requires MemoryOk(m) && delta < TWO_64
    ensures RuntimeGrow(m, delta, refused) == Grow(m, delta, refused) <==> !WrapsToZero(m, delta)
    ensures RuntimeGrow(m, delta, refused).memory == Grow(m, delta, refused).memory
  {
    PagesBound(m);
  }

  /** What a growth answers and leaves behind, in pages and bytes. */
  lemma GrowTold(m: Memory, delta: nat, refused: bool)
    requires MemoryOk(m) && delta < TWO_64
    ensures var r := RuntimeGrow(m, delta, refused);
            if m.pages + delta <= m.maxPages && !refused then
              && r.result == m.pages && r.memory.pages == m.pages + delta
              && |r.memory.bytes| == (m.pages + delta) * m.pageSize && r.memory.bytes[..|m.bytes|] == m.bytes
              && forall k :: |m.bytes| <= k < |r.memory.bytes| ==> r.memory.bytes[k] == 0
            else
              && r.memory == m
              && r.result == if m.pages > 0 && m.pages + delta == 0x1_0000_0000_0000_0000 then 0
                             else 0xFFFF_FFFF_FFFF_FFFF
  {
    PagesBound(m);
    Distributes(m.pages, delta, m.pageSize);
  }

  lemma PagesBound(m: Memory)
    requires MemoryOk(m)
    ensures m.pages <= m.maxPages < TWO_64
  {
    MulMono(1, m.pageSize, m.maxPages);
    assert m.maxPages * 1 <= m.maxPages * m.pageSize by {
      Commutes(m.maxPages, m.pageSize);
      Commutes(m.maxPages, 1);
    }
  }

  lemma Commutes(a: nat, b: nat)
    ensures a * b == b * a
  {
  }

  /** a * c <= b * c */
  lemma MulMono(a: nat, b: nat, c: nat)
    requires a <= b
    ensures a * c <= b * c
  {
  }

  lemma Distributes(a: nat, b: nat, c: nat)
    ensures (a + b) * c == a * c + b * c
  {
  }

  /** No program can tell on a 32-bit memory, where delta is a 32-bit operand. */
  lemma ThirtyTwoBitsNeverWrap(m: Memory, delta: nat)
    requires m.maxPages <= 65536 && m.pages <= m.maxPages && delta < TWO_32
    ensures !WrapsToZero(m, delta)
  {
  }

  // ---------- whole runs of a program ----------

  datatype Op = GrowBy(delta: nat, refused: bool) | StoreByte(at: nat, value: Byte)

  /** A store outside of memory traps and changes nothing. */
  function Apply(m: Memory, op: Op): Memory {
    match op
    case GrowBy(delta, refused) => RuntimeGrow(m, delta, refused).memory
    case StoreByte(at, v) => if at < |m.bytes| then m.(bytes := m.bytes[at := v]) else m
  }

  function Run(m: Memory, ops: seq<Op>): Memory {
    if ops == [] then m else Apply(Run(m, ops[..|ops| - 1]), ops[|ops| - 1])
  }

  lemma KeepsOk(m: Memory, op: Op)
    requires MemoryOk(m)
    ensures var r := Apply(m, op);
            && MemoryOk(r) && r.maxPages == m.maxPages && r.pageSize == m.pageSize
            && r.pages >= m.pages && |r.bytes| >= |m.bytes|
  {
    if op.GrowBy? {
      Distributes(m.pages, op.delta, m.pageSize);
    }
  }

  /** The last value a run stored at an address where there was memory, or the one there before. */
  function LastStored(m: Memory, ops: seq<Op>, k: nat): Byte {
    if ops == [] then if k < |m.bytes| then m.bytes[k] else 0
    else
      var n := |ops| - 1;
      if ops[n].StoreByte? && ops[n].at == k && k < |Run(m, ops[..n]).bytes| then ops[n].value
      else LastStored(m, ops[..n], k)
  }

  /**
   Over every run of grows and stores the size is the page count times the page size, the
   limit is kept, memory never shrinks, and every address reads as the last value stored
   there: growing neither moves a byte nor brings in anything but zeros.
   */
  lemma {:induction false} RunReads(m: Memory, ops: seq<Op>)
    requires MemoryOk(m)
    ensures var r := Run(m, ops);
            && MemoryOk(r) && r.maxPages == m.maxPages && r.pages >= m.pages && |r.bytes| >= |m.bytes|
            && forall k :: 0 <= k < |r.bytes| ==> r.bytes[k] == LastStored(m, ops, k)
  {
    hide MemoryOk;
    if ops != [] {
      var n := |ops| - 1;
      RunReads(m, ops[..n]);
      KeepsOk(Run(m, ops[..n]), ops[n]);
      forall k | 0 <= k < |Run(m, ops).bytes| ensures Run(m, ops).bytes[k] == LastStored(m, ops, k) {
        if k >= |Run(m, ops[..n]).bytes| {
          NotYetStored(m, ops[..n], k);
        }
      }
    }
  }

  lemma {:induction false} NotYetStored(m: Memory, ops: seq<Op>, k: nat)
    requires MemoryOk(m) && k >= |Run(m, ops).bytes|
    ensures LastStored(m, ops, k) == 0
  {
    hide MemoryOk, Apply;
    if ops != [] {
      var n := |ops| - 1;
      RunOk(m, ops[..n]);
      KeepsOk(Run(m, ops[..n]), ops[n]);
      NotYetStored(m, ops[..n], k);
    }
  }

  lemma {:induction false} RunOk(m: Memory, ops: seq<Op>)
    requires MemoryOk(m)
    ensures MemoryOk(Run(m, ops)) && |Run(m, ops).bytes| >= |m.bytes|
  {
    hide MemoryOk, Apply;
    if ops != [] {
      var n := |ops| - 1;
      RunOk(m, ops[..n]);
      KeepsOk(Run(m, ops[..n]), ops[n]);
    }
  }

  // ---------- the runtime's memory ----------

  /** Bytes of address space reserved for a default 32-bit memory. */
  function ReservedFor(maxPages: nat, guardPages: bool): nat {
    if guardPages then 0x2_0000_0000
    else if maxPages != 0 then maxPages * 65536 % TWO_64
    else 0x1_0000_0000
  }

  /** 8 GiB with guard pages; without, what the limit asks for, or 4 GiB if it asks for nothing. */
  lemma ReservedTold(maxPages: nat)
    requires maxPages * 65536 < 0x1_0000_0000_0000_0000
    ensures ReservedFor(maxPages, true) == 0x2_0000_0000
    ensures ReservedFor(maxPages, false) == if maxPages > 0 then maxPages * 65536 else 0x1_0000_0000
  {
  }

  /**
   Growth up to the limit stays inside the reservation exactly in these cases; 65536 pages, the
   most a 32-bit memory has, are among them.
   */
  lemma ReservationSuffices(maxPages: nat, guardPages: bool)
    requires maxPages * 65536 < TWO_64
    ensures maxPages * 65536 <= ReservedFor(maxPages, guardPages) <==> !guardPages || maxPages <= 131072
    ensures maxPages <= 65536 ==> maxPages * 65536 <= ReservedFor(maxPages, guardPages)
  {
  }

  class RuntimeMemory {
    var data: array<Byte>
    var pages: nat
    var size: nat
    const maxPages: nat
    const pageSize: nat
    const is64: bool
    const useMmap: bool
    const guardPages: bool

    /** Reserved once and opened up by mprotect, rather than reallocated. */
    predicate Mapped() {
      useMmap && pageSize == 65536 && !is64
    }

    ghost predicate Valid()
      reads this, data
    {
      && pageSize > 0 && pages <= maxPages && maxPages * pageSize < TWO_64
      && size == pages * pageSize && size <= data.Length
      && (Mapped() ==> maxPages * pageSize <= data.Length && forall k :: size <= k < data.Length ==> data[k] == 0)
      && (!Mapped() ==> data.Length == size)
    }

    ghost function Value(): (m: Memory)
      requires Valid()
      reads this, data
      ensures MemoryOk(m)
    {
      Memory(pages, maxPages, pageSize, data[..size])
    }

    constructor (initialPages: nat, maxPages: nat, is64: bool, pageSize: nat, useMmap: bool, guardPages: bool)
      requires pageSize > 0 && initialPages <= maxPages && maxPages * pageSize < TWO_64
      requires useMmap && pageSize == 65536 && !is64 ==> maxPages * 65536 <= ReservedFor(maxPages, guardPages)
      ensures Valid() && fresh(data)
      ensures Value() == Fresh(initialPages, maxPages, pageSize)
    {
      hide ReservedFor, Zeros;
      NoOverflow(initialPages, 0, maxPages, pageSize);
      var byteLength := initialPages * pageSize % TWO_64;
      assert byteLength == initialPages * pageSize <= maxPages * pageSize;
      var room := if useMmap && pageSize == 65536 && !is64 then ReservedFor(maxPages, guardPages) else byteLength;
      this.size := byteLength;
      this.pages := initialPages;
      this.maxPages := maxPages;
      this.is64 := is64;
      this.pageSize := pageSize;
      this.useMmap := useMmap;
      this.guardPages := guardPages;
      this.data := new Byte[room](_ => 0);
      new;
      AllZero(data[..size]);
    }

    /** Opens up more of the reservation, or moves the bytes to a larger block and clears the new ones. */
    method Expand(oldSize: nat, newSize: nat, deltaSize: nat, refused: bool) returns (err: int)
      requires Valid() && oldSize == size && newSize == oldSize + deltaSize <= maxPages * pageSize
      modifies this`data
      ensures err == 0 <==> !refused || (Mapped() && deltaSize == 0)
      ensures err != 0 || Mapped() ==> data == old(data)
      ensures err == 0 && !Mapped() ==> fresh(data) && data.Length == newSize
      ensures err == 0 ==> newSize <= data.Length && data[..newSize] == old(data[..size]) + Zeros(deltaSize)
    {
      if Mapped() {
        assert data[..newSize] == data[..size] + Zeros(deltaSize);
        return if refused && deltaSize > 0 then -1 else 0;
      }
      if refused {
        return -1;
      }
      var moved := new Byte[newSize];
      forall k | 0 <= k < newSize {
        moved[k] := if k < oldSize then data[k] else 0;
      }
      assert moved[..newSize] == data[..size] + Zeros(deltaSize);
      data := moved;
      err := 0;
    }

    /** Whether the operating system's refusal is felt: opening up nothing always succeeds. */
    predicate Refuses(delta: nat, refused: bool)
      reads this
    {
      refused && (delta > 0 || (pages > 0 && !Mapped()))
    }

    method GrowBy(delta: nat, refused: bool) returns (result: nat)
      requires Valid() && delta < TWO_64
      modifies this
      ensures Valid() && (data == old(data) || fresh(data))
      ensures Grown(Value(), result) == RuntimeGrow(old(Value()), delta, old(Refuses(delta, refused)))
      ensures Mapped() ==> data == old(data)
    {
      PagesBound(Value());
      var oldPages := pages;
      var newPages := (pages + delta) % TWO_64;
      if newPages == 0 {
        assert Zeros(0) == [];
        return 0;
      }
      if newPages < oldPages || newPages > maxPages {
        return FAILED;
      }
      result := GrowWithin(delta, refused);
    }

    /** Growth that keeps the limit. */
    method GrowWithin(delta: nat, refused: bool) returns (result: nat)
      requires Valid() && 0 < pages + delta <= maxPages
      modifies this
      ensures Valid() && (data == old(data) || fresh(data))
      ensures Grown(Value(), result) == Grow(old(Value()), delta, old(Refuses(delta, refused)))
      ensures Mapped() ==> data == old(data)
    {
      NoOverflow(pages, delta, maxPages, pageSize);
      var oldSize := pages * pageSize % TWO_64;
      var newSize := (pages + delta) * pageSize % TWO_64;
      var deltaSize := delta * pageSize % TWO_64;
      var err := Expand(oldSize, newSize, deltaSize, refused);
      if err != 0 {
        return FAILED;
      }
      result := pages;
      pages := pages + delta;
      size := newSize;
    }

    /** The checked store of compiled code. */
    method Store(at: nat, value: Byte) returns (trapped: bool)
      requires Valid()
      modifies data
      ensures Valid() && Value() == Apply(old(Value()), StoreByte(at, value))
      ensures trapped <==> at >= size
    {
      if at >= size {
        return true;
      }
      data[at] := value;
      trapped := false;
    }
  }

  /** None of the products of a growth within the limit wraps around. */
  lemma NoOverflow(pages: nat, delta: nat, maxPages: nat, pageSize: nat)
    requires pages + delta <= maxPages && maxPages * pageSize < TWO_64 && pageSize > 0
    ensures (pages + delta) * pageSize == pages * pageSize + delta * pageSize <= maxPages * pageSize
    ensures pages * pageSize % TWO_64 == pages * pageSize
    ensures delta * pageSize % TWO_64 == delta * pageSize
    ensures (pages + delta) * pageSize % TWO_64 == (pages + delta) * pageSize
    ensures delta * pageSize == 0 <==> delta == 0
  {
    Distributes(pages, delta, pageSize);
    MulMono(pages + delta, maxPages, pageSize);
    if delta > 0 {
      MulMono(1, delta, pageSize);
    }
  }
}
