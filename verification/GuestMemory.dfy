/** The guest's linear memory as the shim touches it: bounds-checked copies of little-endian data. */
module GuestMemory {
  import opened Bytes

  /** memcpy into guest memory at a pointer that gptr has accepted. */
  method Store(mem: array<Byte>, p: nat, d: seq<Byte>)
    requires p + |d| <= mem.Length
    modifies mem
    ensures mem[..] == WriteAt(old(mem[..]), p, d)
  {
    forall i | 0 <= i < |d| {
      mem[p + i] := d[i];
    }
  }

  /** gwrite_u32: nothing is written when the four bytes are not all in range. */
  method WriteU32(mem: array<Byte>, off: nat, v: nat) returns (failed: bool)
    modifies mem
    ensures failed <==> off + 4 > mem.Length
    ensures mem[..] == if failed then old(mem[..]) else WriteAt(old(mem[..]), off, Le(v, 4))
  {
    failed := off + 4 > mem.Length;
    if !failed {
      Store(mem, off, Le(v, 4));
    }
  }
}
