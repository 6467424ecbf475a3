/**
 Directory paging: fd_readdir renders entries from a cookie on into a buffer of the guest's
 choosing and cuts the last one off where the buffer ends; the guest takes the complete
 entries of a page and asks again from the cookie of the last of them.
 */
module Readdir {
  import opened Bytes
  import opened GuestMemory
  import opened Errno

  datatype HostType = Reg | Dir | Link | Chr | Blk | Other

  datatype DirEnt = DirEnt(ino: nat, kind: HostType, name: seq<Byte>)

  function WasiType(k: HostType): Byte {
    match k
    case Reg => 4
    case Dir => 3
    case Link => 7
    case Chr => 2
    case Blk => 1
    case Other => 0
  }

  const HEAD_SIZE := 24

  function Head(e: DirEnt, next: nat): (h: seq<Byte>)
    ensures |h| == HEAD_SIZE
  {
    Le(next, 8) + Le(e.ino, 8) + Le(|e.name|, 4) + [WasiType(e.kind), 0, 0, 0]
  }

  function Record(e: DirEnt, next: nat): seq<Byte> {
    Head(e, next) + e.name
  }

  /** Everything from the entry numbered cookie on, without any limit. */
  function Listing(dir: seq<DirEnt>, cookie: nat): seq<Byte>
    decreases |dir| - cookie
  {
    if cookie >= |dir| then [] else Record(dir[cookie], cookie + 1) + Listing(dir, cookie + 1)
  }

  /** One page: the listing cut off at the end of the buffer. */
  function Page(dir: seq<DirEnt>, cookie: nat, bufLen: nat): seq<Byte> {
    Take(Listing(dir, cookie), bufLen)
  }

  /** Field widths of the record, which the host's own limits keep. */
  ghost predicate FitsFields(dir: seq<DirEnt>) {
    |dir| < TWO_64 && forall e :: e in dir ==> e.ino < TWO_64 && |e.name| < TWO_32
  }

  /** What is on the page once `done` of the listing is and `piece` comes next. */
  lemma PagePiece(full: seq<Byte>, done: seq<Byte>, piece: seq<Byte>, rest: seq<Byte>, bufLen: nat)
    requires full == done + (piece + rest) && |done| <= bufLen
    ensures var cut := piece[..Min(bufLen - |done|, |piece|)];
            && |done + cut| <= |Take(full, bufLen)|
            && (|cut| < |piece| ==> done + cut == Take(full, bufLen))
            && (|cut| == |piece| ==> full == (done + cut) + rest)
  {
    if |done| + |piece| <= bufLen {
      Assoc(done, piece, rest);
    }
  }

  /** m is m0 with done written at p, and done stays inside it. */
  ghost predicate Holds(m: seq<Byte>, m0: seq<Byte>, p: nat, done: seq<Byte>) {
    if done == [] then m == m0 else p + |done| <= |m0| && m == WriteAt(m0, p, done)
  }

  lemma HoldsNothing(m: seq<Byte>, p: nat)
    ensures Holds(m, m, p, [])
  {
  }

  lemma HoldsAll(m: seq<Byte>, m0: seq<Byte>, p: nat, done: seq<Byte>)
    requires Holds(m, m0, p, done)
    ensures p + |done| <= |m0| ==> m == WriteAt(m0, p, done)
    ensures done != [] ==> p + |done| <= |m0|
  {
  }

  /** Copy as much of one piece of a record as the buffer still takes. */
  method EmitPiece(mem: array<Byte>, bufP: nat, used: nat, remain: nat, piece: seq<Byte>,
                   ghost m0: seq<Byte>, ghost done: seq<Byte>)
    returns (ok: bool, copied: nat)
    requires |m0| == mem.Length <= TWO_32 && bufP < TWO_32 && used == |done|
    modifies mem
    ensures copied == Min(remain, |piece|)
    ensures !ok ==> bufP + used + copied > mem.Length || bufP + used >= TWO_32
    ensures !ok ==> mem[..] == old(mem[..])
    ensures ok && bufP + used < TWO_32 ==> bufP + used + copied <= mem.Length
    ensures ok && (bufP + used < TWO_32 || copied == 0) && Holds(old(mem[..]), m0, bufP, done)
            ==> Holds(mem[..], m0, bufP, done + piece[..copied])
  {
    hide WriteAt;
    copied := Min(remain, |piece|);
    var dst := (bufP + used) % TWO_32;
    ok := dst + copied <= mem.Length;
    if ok {
      Store(mem, dst, piece[..copied]);
      if copied > 0 && bufP + used < TWO_32 && done != [] && Holds(old(mem[..]), m0, bufP, done) {
        WriteAtCompose(m0, bufP, done, piece[..copied]);
      }
      if copied == 0 {
        WriteNothing(old(mem[..]), dst);
      }
      assert [] + piece[..copied] == piece[..copied];
      assert copied == 0 ==> mem[..] == old(mem[..]) && done + piece[..copied] == done;
    }
  }

  /** Memory behind a record that does not fit: its header does not, or its name behind the header. */
  ghost predicate CutShort(m: seq<Byte>, m0: seq<Byte>, p: nat, done: seq<Byte>, e: DirEnt, next: nat, remain: nat) {
    var at := p + |done|;
    || (Holds(m, m0, p, done) && at + Min(remain, 24) > |m0|)
    || (Holds(m, m0, p, done + Head(e, next)) && remain >= 24 && at + 24 <= |m0|
        && at + 24 + Min(remain - 24, |e.name|) > |m0|)
  }

  /** Memory behind a page that does not fit: whole records, and one cut short. */
  ghost predicate Faulted(m: seq<Byte>, m0: seq<Byte>, p: nat, dir: seq<DirEnt>, cookie: nat, bufLen: nat) {
    exists pos, done :: FaultedIn(m, m0, p, dir, cookie, bufLen, pos, done)
  }

  ghost predicate FaultedIn(m: seq<Byte>, m0: seq<Byte>, p: nat, dir: seq<DirEnt>, cookie: nat, bufLen: nat,
                            pos: nat, done: seq<Byte>)
  {
    && cookie <= pos < |dir| && Listing(dir, cookie) == done + Listing(dir, pos) && |done| <= bufLen
    && CutShort(m, m0, p, done, dir[pos], pos + 1, bufLen - |done|)
  }

  /** One turn of the loop: header, then name, each cut off where the buffer ends. */
  method EmitRecord(mem: array<Byte>, bufP: nat, used: nat, remain: nat, e: DirEnt, next: nat,
                    ghost m0: seq<Byte>, ghost done: seq<Byte>)
    returns (ok: bool, copied: nat)
    requires |m0| == mem.Length <= TWO_32 && bufP < TWO_32 && used == |done|
    requires remain > 0 || used == 0
    modifies mem
    ensures ok ==> copied == Min(remain, |Record(e, next)|)
    ensures (bufP + used + Min(remain, |Record(e, next)|) <= mem.Length || mem.Length < TWO_32)
            && Holds(old(mem[..]), m0, bufP, done) ==>
              (ok <==> bufP + used + Min(remain, |Record(e, next)|) <= mem.Length)
              && (ok ==> Holds(mem[..], m0, bufP, done + Record(e, next)[..copied]))
              && (!ok ==> CutShort(mem[..], m0, bufP, done, e, next, remain))
  {
    hide Head, WriteAt;
    var head := Head(e, next);
    ghost var record := Record(e, next);
    ok, copied := EmitPiece(mem, bufP, used, remain, head, m0, done);
    if !ok || copied < HEAD_SIZE {
      // a record cut short tells wasi-libc that the buffer is full
      assert head[..copied] == record[..copied];
      return;
    }
    var inName;
    assert done + head[..copied] == done + head;
    ok, inName := EmitPiece(mem, bufP, used + copied, remain - copied, e.name, m0, done + head);
    assert head + e.name[..inName] == record[..copied + inName];
    Assoc(done, head, e.name[..inName]);
    ok := ok || inName == 0;
    copied := copied + inName;
    assert inName == 0 ==> done + head + e.name[..inName] == done + head;
  }

  /**
   fd_readdir once the directory stream is open. The page is written at bufP and its length at
   usedP. Guest addresses are 32-bit: bufP + used is taken modulo 2^32, which matters only in a
   full 4 GiB memory.
   */
  method FdReaddir(mem: array<Byte>, dir: seq<DirEnt>, bufP: nat, bufLen: nat, cookie: nat, usedP: nat)
    returns (code: int)
    requires mem.Length <= TWO_32 && bufP < TWO_32
    modifies mem
    ensures var page := Page(dir, cookie, bufLen);
            bufP + |page| <= mem.Length ==>
              && code == (if usedP + 4 <= mem.Length then ESUCCESS else EFAULT)
              && mem[..] == (if code == ESUCCESS
                             then WriteAt(WriteAt(old(mem[..]), bufP, page), usedP, Le(|page|, 4))
                             else WriteAt(old(mem[..]), bufP, page))
    ensures (mem.Length < TWO_32 && cookie < |dir| && bufP + |Page(dir, cookie, bufLen)| > mem.Length) ==>
              code == EFAULT && Faulted(mem[..], old(mem[..]), bufP, dir, cookie, bufLen)
  {
    hide Holds, CutShort, WriteAt;
    var pos := 0;
    while pos < cookie && pos < |dir|
      invariant 0 <= pos <= |dir| && pos <= cookie
    {
      pos := pos + 1;
    }
    ghost var start := pos;
    ghost var m0 := mem[..];
    ghost var full := Listing(dir, cookie);
    ghost var page := Page(dir, cookie, bufLen);
    ghost var tame := bufP + |page| <= mem.Length || mem.Length < TWO_32;
    ghost var done: seq<Byte> := [];
    HoldsNothing(m0, bufP);
    var used := 0;
    var next := cookie;
    while pos < |dir|
      invariant start <= pos <= |dir|
      invariant used == |done| <= |page| && used <= bufLen && (used == bufLen ==> used == 0)
      invariant full == done + Listing(dir, pos)
      invariant tame ==> Holds(mem[..], m0, bufP, done)
      invariant pos < |dir| ==> next == pos
      invariant pos == start || done != []
      decreases |dir| - pos
    {
      next := next + 1;
      ghost var record := Record(dir[pos], next);
      assert Listing(dir, pos) == record + Listing(dir, pos + 1);
      PagePiece(full, done, record, Listing(dir, pos + 1), bufLen);
      var ok, copied := EmitRecord(mem, bufP, used, bufLen - used, dir[pos], next, m0, done);
      if !ok {
        assert tame ==> FaultedIn(mem[..], m0, bufP, dir, cookie, bufLen, pos, done);
        return EFAULT;
      }
      done := done + record[..copied];
      used := used + copied;
      if copied < HEAD_SIZE + |dir[pos].name| || used == bufLen {
        assert done == page;
        break;
      }
      pos := pos + 1;
    }
    assert done == page;
    ghost var m1 := mem[..];
    if tame {
      HoldsAll(m1, m0, bufP, done);
    }
    var failed := WriteU32(mem, usedP, used);
    return if failed then EFAULT else ESUCCESS;
  }

  // ---------- the guest's side of the protocol ----------

  datatype Seen = Seen(next: nat, ino: nat, filetype: Byte, name: seq<Byte>)

  /** The complete records at the front of a page. */
  function ReadRecords(b: seq<Byte>): seq<Seen>
    decreases |b|
  {
    if |b| < HEAD_SIZE then [] else
    var n := ReadLe(b[16..20]);
    if HEAD_SIZE + n > |b| then [] else
    [Seen(ReadLe(b[..8]), ReadLe(b[8..16]), b[20], b[HEAD_SIZE..HEAD_SIZE + n])]
    + ReadRecords(b[HEAD_SIZE + n..])
  }

  /** Entries lo up to hi as the guest should see them. */
  function Entries(dir: seq<DirEnt>, lo: nat, hi: nat): seq<Seen>
    requires hi <= |dir|
    decreases hi - lo
  {
    if lo >= hi then [] else
    [Seen(lo + 1, dir[lo].ino, WasiType(dir[lo].kind), dir[lo].name)] + Entries(dir, lo + 1, hi)
  }

  function RecordSize(e: DirEnt): nat {
    HEAD_SIZE + |e.name|
  }

  /** How many records from cookie on fit a buffer completely. */
  function FitCount(dir: seq<DirEnt>, cookie: nat, bufLen: nat): (k: nat)
    ensures cookie <= |dir| ==> cookie + k <= |dir|
    decreases |dir| - cookie
  {
    if cookie >= |dir| || RecordSize(dir[cookie]) > bufLen then 0
    else 1 + FitCount(dir, cookie + 1, bufLen - RecordSize(dir[cookie]))
  }

  /** The header's fields read back from any buffer that holds all of it. */
  lemma HeadReadsBack(e: DirEnt, next: nat, b: seq<Byte>)
    requires next < TWO_64 && e.ino < TWO_64 && |e.name| < TWO_32
    requires |b| >= HEAD_SIZE && b[..HEAD_SIZE] == Head(e, next)
    ensures ReadLe(b[..8]) == next && ReadLe(b[8..16]) == e.ino
    ensures ReadLe(b[16..20]) == |e.name| && b[20] == WasiType(e.kind)
  {
    Widths();
    LeRoundTrip(next, 8);
    LeRoundTrip(e.ino, 8);
    LeRoundTrip(|e.name|, 4);
    var h := b[..HEAD_SIZE];
    assert b[..8] == h[..8] == Le(next, 8);
    assert b[8..16] == h[8..16] == Le(e.ino, 8);
    assert b[16..20] == h[16..20] == Le(|e.name|, 4);
    assert b[20] == h[20];
  }

  lemma WholeRecordReadsBack(e: DirEnt, next: nat, rest: seq<Byte>)
    requires next < TWO_64 && e.ino < TWO_64 && |e.name| < TWO_32
    ensures ReadRecords(Record(e, next) + rest) ==
            [Seen(next, e.ino, WasiType(e.kind), e.name)] + ReadRecords(rest)
  {
    var b := Record(e, next) + rest;
    assert b[..HEAD_SIZE] == Head(e, next);
    HeadReadsBack(e, next, b);
    assert b[HEAD_SIZE..RecordSize(e)] == e.name;
    assert b[RecordSize(e)..] == rest;
  }

  lemma CutRecordReadsNothing(e: DirEnt, next: nat, n: nat)
    requires next < TWO_64 && e.ino < TWO_64 && |e.name| < TWO_32
    requires n < RecordSize(e)
    ensures ReadRecords(Record(e, next)[..n]) == []
  {
    var b := Record(e, next)[..n];
    if n >= HEAD_SIZE {
      assert b[..HEAD_SIZE] == Head(e, next);
      HeadReadsBack(e, next, b);
    }
  }

  lemma PageUnfolds(dir: seq<DirEnt>, cookie: nat, bufLen: nat)
    requires cookie < |dir|
    ensures var record := Record(dir[cookie], cookie + 1);
            && (|record| <= bufLen ==> Page(dir, cookie, bufLen) == record + Page(dir, cookie + 1, bufLen - |record|))
            && (|record| > bufLen ==> Page(dir, cookie, bufLen) == record[..bufLen])
  {
  }

  lemma FittingStep(dir: seq<DirEnt>, cookie: nat, bufLen: nat, hi: nat)
    requires FitsFields(dir) && cookie < hi <= |dir| && RecordSize(dir[cookie]) <= bufLen
    requires ReadRecords(Page(dir, cookie + 1, bufLen - RecordSize(dir[cookie]))) == Entries(dir, cookie + 1, hi)
    ensures ReadRecords(Page(dir, cookie, bufLen)) == Entries(dir, cookie, hi)
  {
    var e := dir[cookie];
    assert e in dir;
    PageUnfolds(dir, cookie, bufLen);
    WholeRecordReadsBack(e, cookie + 1, Page(dir, cookie + 1, bufLen - RecordSize(e)));
  }

  lemma EmptyPage(dir: seq<DirEnt>, bufLen: nat)
    ensures Page(dir, |dir|, bufLen) == [] && ReadRecords([]) == []
  {
  }

  lemma CuttingStep(dir: seq<DirEnt>, cookie: nat, bufLen: nat)
    requires FitsFields(dir) && cookie < |dir| && RecordSize(dir[cookie]) > bufLen
    ensures ReadRecords(Page(dir, cookie, bufLen)) == []
    ensures FitCount(dir, cookie, bufLen) == 0
  {
    assert dir[cookie] in dir;
    PageUnfolds(dir, cookie, bufLen);
    CutRecordReadsNothing(dir[cookie], cookie + 1, bufLen);
  }

  /** A page carries exactly the records that fit, whatever is cut off behind them. */
  lemma {:induction false} PageReadsBack(dir: seq<DirEnt>, cookie: nat, bufLen: nat)
    requires FitsFields(dir) && cookie <= |dir|
    ensures ReadRecords(Page(dir, cookie, bufLen)) == Entries(dir, cookie, cookie + FitCount(dir, cookie, bufLen))
    decreases |dir| - cookie
  {
    hide ReadLe, Record, Take;
    if cookie == |dir| {
      EmptyPage(dir, bufLen);
    } else {
      var size := RecordSize(dir[cookie]);
      if size <= bufLen {
        var k := FitCount(dir, cookie + 1, bufLen - size);
        assert FitCount(dir, cookie, bufLen) == 1 + k;
        PageReadsBack(dir, cookie + 1, bufLen - size);
        FittingStep(dir, cookie, bufLen, cookie + 1 + k);
      } else {
        CuttingStep(dir, cookie, bufLen);
      }
    }
  }

  lemma {:induction false} AllFit(dir: seq<DirEnt>, cookie: nat, bufLen: nat)
    requires cookie <= |dir| && |Listing(dir, cookie)| <= bufLen
    ensures cookie + FitCount(dir, cookie, bufLen) == |dir|
    decreases |dir| - cookie
  {
    if cookie < |dir| {
      AllFit(dir, cookie + 1, bufLen - RecordSize(dir[cookie]));
    }
  }

  /** A page that leaves room in the buffer has reached the end of the directory. */
  lemma ShortPageIsLast(dir: seq<DirEnt>, cookie: nat, bufLen: nat)
    requires FitsFields(dir) && cookie <= |dir|
    requires |Page(dir, cookie, bufLen)| < bufLen
    ensures ReadRecords(Page(dir, cookie, bufLen)) == Entries(dir, cookie, |dir|)
  {
    PageReadsBack(dir, cookie, bufLen);
    AllFit(dir, cookie, bufLen);
  }

  /** Paging moves on from an entry exactly when the buffer can take that entry whole. */
  lemma ProgressIffFits(dir: seq<DirEnt>, cookie: nat, bufLen: nat)
    requires FitsFields(dir) && cookie < |dir|
    ensures ReadRecords(Page(dir, cookie, bufLen)) != [] <==> RecordSize(dir[cookie]) <= bufLen
    ensures RecordSize(dir[cookie]) > bufLen ==> |Page(dir, cookie, bufLen)| == bufLen
  {
    PageReadsBack(dir, cookie, bufLen);
  }

  ghost predicate Roomy(dir: seq<DirEnt>, bufLen: nat) {
    bufLen >= HEAD_SIZE && forall e :: e in dir ==> RecordSize(e) <= bufLen
  }

  lemma {:induction false} LastOfEntries(dir: seq<DirEnt>, lo: nat, hi: nat)
    requires lo < hi <= |dir|
    ensures |Entries(dir, lo, hi)| == hi - lo && Entries(dir, lo, hi)[hi - lo - 1].next == hi
    decreases hi - lo
  {
    if lo + 1 < hi {
      LastOfEntries(dir, lo + 1, hi);
    }
  }

  lemma NextCookie(dir: seq<DirEnt>, cookie: nat, bufLen: nat)
    requires FitsFields(dir) && Roomy(dir, bufLen) && cookie <= |dir|
    requires |Page(dir, cookie, bufLen)| == bufLen
    ensures var got := ReadRecords(Page(dir, cookie, bufLen));
            got != [] && cookie < got[|got| - 1].next == cookie + FitCount(dir, cookie, bufLen) <= |dir|
  {
    assert cookie < |dir|;
    assert dir[cookie] in dir;
    ProgressIffFits(dir, cookie, bufLen);
    PageReadsBack(dir, cookie, bufLen);
    LastOfEntries(dir, cookie, cookie + FitCount(dir, cookie, bufLen));
  }

  lemma PageBound(dir: seq<DirEnt>, cookie: nat, bufLen: nat)
    ensures |Page(dir, cookie, bufLen)| <= bufLen
  {
  }

  /** The guest's loop: take the complete entries, stop at a short page, else resume behind the last one. */
  ghost function ReadAll(dir: seq<DirEnt>, bufLen: nat, cookie: nat): seq<Seen>
    requires FitsFields(dir) && Roomy(dir, bufLen) && cookie <= |dir|
    decreases |dir| - cookie
  {
    var page := Page(dir, cookie, bufLen);
    var got := ReadRecords(page);
    if |page| < bufLen then got else
    NextCookie(dir, cookie, bufLen);
    got + ReadAll(dir, bufLen, got[|got| - 1].next)
  }

  lemma {:induction false} EntriesSplit(dir: seq<DirEnt>, lo: nat, mid: nat, hi: nat)
    requires lo <= mid <= hi <= |dir|
    ensures Entries(dir, lo, mid) + Entries(dir, mid, hi) == Entries(dir, lo, hi)
    decreases mid - lo
  {
    if lo < mid {
      EntriesSplit(dir, lo + 1, mid, hi);
      Assoc([Entries(dir, lo, mid)[0]], Entries(dir, lo + 1, mid), Entries(dir, mid, hi));
    }
  }

  /** Paging ends, and shows every entry exactly once and in order, for any buffer that can take the longest. */
  lemma {:induction false} PagingShowsAll(dir: seq<DirEnt>, bufLen: nat, cookie: nat)
    requires FitsFields(dir) && Roomy(dir, bufLen) && cookie <= |dir|
    ensures ReadAll(dir, bufLen, cookie) == Entries(dir, cookie, |dir|)
    decreases |dir| - cookie
  {
    hide Page, ReadRecords, FitCount, Entries, Roomy, FitsFields;
    if |Page(dir, cookie, bufLen)| < bufLen {
      ShortPageIsLast(dir, cookie, bufLen);
    } else {
      PageBound(dir, cookie, bufLen);
      var next := cookie + FitCount(dir, cookie, bufLen);
      NextCookie(dir, cookie, bufLen);
      PageReadsBack(dir, cookie, bufLen);
      PagingShowsAll(dir, bufLen, next);
      EntriesSplit(dir, cookie, next, |dir|);
    }
  }

  // ---------- the page, byte by byte ----------

  /** An entry: cookie, inode number, size of the name, type, three zeros, and the name without a NUL. */
  lemma RecordTold(e: DirEnt, next: nat)
    requires next < TWO_64 && e.ino < TWO_64 && |e.name| < TWO_32
    ensures var r := Record(e, next);
            && |r| == 24 + |e.name|
            && ReadLe(r[0..8]) == next && ReadLe(r[8..16]) == e.ino && ReadLe(r[16..20]) == |e.name|
            && r[20] == (match e.kind
                         case Reg => 4
                         case Dir => 3
                         case Link => 7
                         case Chr => 2
                         case Blk => 1
                         case Other => 0)
            && r[21..24] == [0, 0, 0] && r[24..] == e.name
  {
    hide Le, ReadLe, Pow256;
    Widths();
    LeRoundTrip(next, 8);
    LeRoundTrip(e.ino, 8);
    LeRoundTrip(|e.name|, 4);
    var r := Record(e, next);
    assert r[0..8] == Le(next, 8) && r[8..16] == Le(e.ino, 8) && r[16..20] == Le(|e.name|, 4);
  }

  /** `at` lists where entries start: each 24 bytes and its name behind the one before. */
  ghost predicate Places(dir: seq<DirEnt>, at: seq<nat>) {
    |at| == |dir| + 1 && forall k :: 0 <= k < |dir| ==> at[k + 1] == at[k] + 24 + |dir[k].name|
  }

  lemma {:induction false} ListingAt(dir: seq<DirEnt>, cookie: nat, i: nat, at: seq<nat>)
    requires Places(dir, at) && cookie <= i < |dir|
    ensures at[cookie] <= at[i] && at[i + 1] - at[cookie] <= |Listing(dir, cookie)|
    ensures Listing(dir, cookie)[at[i] - at[cookie]..at[i + 1] - at[cookie]] == Record(dir[i], i + 1)
    decreases i - cookie
  {
    hide Record;
    RecordSizes(dir[cookie], cookie + 1);
    if cookie < i {
      ListingAt(dir, cookie + 1, i, at);
      var r, rest := Record(dir[cookie], cookie + 1), Listing(dir, cookie + 1);
      var lo, hi := at[i] - at[cookie + 1], at[i + 1] - at[cookie + 1];
      Behind(r, rest, lo, hi);
    }
  }

  lemma RecordSizes(e: DirEnt, next: nat)
    ensures |Record(e, next)| == 24 + |e.name|
  {
  }

  lemma Behind(a: seq<Byte>, b: seq<Byte>, lo: nat, hi: nat)
    requires lo <= hi <= |b|
    ensures (a + b)[|a| + lo..|a| + hi] == b[lo..hi]
  {
  }

  /** Every entry that fits whole stands on its page in its place, in the order of the directory. */
  lemma PageTold(dir: seq<DirEnt>, cookie: nat, bufLen: nat, i: nat, at: seq<nat>)
    requires Places(dir, at) && cookie <= i < |dir| && at[i + 1] - at[cookie] <= bufLen
    ensures at[cookie] <= at[i] <= at[i + 1] && at[i + 1] - at[cookie] <= |Page(dir, cookie, bufLen)|
    ensures Page(dir, cookie, bufLen)[at[i] - at[cookie]..at[i + 1] - at[cookie]] == Record(dir[i], i + 1)
  {
    hide Record, Listing;
    ListingAt(dir, cookie, i, at);
    RecordSizes(dir[i], i + 1);
  }
}
