/** The NOR flash driver (port/qspi/qspi_flash.c) over a device whose page program ANDs its
    data into the array and wraps inside a 256-byte page. */
module NorFlash {
  import opened Machine

  type octet = bv8

  const SIZE := 0x100_0000
  const SECTOR := 0x1_0000
  const SUBSECTOR := 0x1000
  const PAGE := 0x100

  datatype Rc = Ok | Param | Hal | Timeout | Flash | State

  // ---- the device ------------------------------------------------------------------

  /** PAGE PROGRAM of up to a page of data: it starts at @p addr and wraps at the end of
      that page. */
  function Program(mem: seq<octet>, addr: nat, data: seq<octet>): (r: seq<octet>)
    requires addr < |mem| && |data| <= PAGE
    ensures |r| == |mem|
  {
    seq(|mem|, x requires 0 <= x < |mem| =>
      var i := (x % PAGE - addr % PAGE + PAGE) % PAGE;
      if x / PAGE == addr / PAGE && i < |data| then mem[x] & data[i] else mem[x])
  }

  /** An erase sets its unit to all ones. */
  function Erased(mem: seq<octet>, base: nat, n: nat): (r: seq<octet>)
    ensures |r| == |mem| && forall x :: 0 <= x < |mem| ==> r[x] == if base <= x < base + n then 0xFF else mem[x]
  {
    seq(|mem|, x requires 0 <= x < |mem| => if base <= x < base + n then 0xFF else mem[x])
  }

  // ---- what a write means -----------------------------------------------------------

  /** @p data ANDed into the array at @p addr, and nothing else. */
  function Written(mem: seq<octet>, addr: nat, data: seq<octet>): (r: seq<octet>)
    ensures |r| == |mem|
    ensures forall x :: 0 <= x < |mem| ==> r[x] == if addr <= x < addr + |data| then mem[x] & data[x - addr] else mem[x]
  {
    seq(|mem|, x requires 0 <= x < |mem| => if addr <= x < addr + |data| then mem[x] & data[x - addr] else mem[x])
  }

  /** Where the device puts byte @p x of the array during a page program. */
  lemma SamePage(addr: nat, x: nat, n: nat)
    requires 0 < n <= PAGE - addr % PAGE
    ensures addr <= x < addr + n <==>
            x / PAGE == addr / PAGE && (x % PAGE - addr % PAGE + PAGE) % PAGE < n
    ensures addr <= x < addr + n ==> (x % PAGE - addr % PAGE + PAGE) % PAGE == x - addr
  {
    var p := addr / PAGE;
    assert addr == PAGE * p + addr % PAGE;
    assert x == PAGE * (x / PAGE) + x % PAGE;
  }

  /** A chunk that stays in its page is programmed as it should be. */
  lemma ChunkProgram(mem: seq<octet>, addr: nat, data: seq<octet>)
    requires addr < |mem| && 0 < |data| <= PAGE - addr % PAGE
    ensures Program(mem, addr, data) == Written(mem, addr, data)
  {
    var p, w := Program(mem, addr, data), Written(mem, addr, data);
    forall x | 0 <= x < |mem| ensures p[x] == w[x] { SamePage(addr, x, |data|); }
  }

  /** One that crosses the page boundary is not: the split is necessary. */
  lemma CrossingWraps(mem: seq<octet>, addr: nat, data: seq<octet>)
    requires |data| <= PAGE && PAGE - addr % PAGE < |data| && addr + |data| <= |mem|
    requires forall x :: 0 <= x < |mem| ==> mem[x] == 0xFF
    requires forall i :: 0 <= i < |data| ==> data[i] == 0
    ensures Program(mem, addr, data) != Written(mem, addr, data)
  {
    var next := addr - addr % PAGE + PAGE;
    assert next / PAGE == addr / PAGE + 1;
    assert Program(mem, addr, data)[next] == 0xFF;
    assert Written(mem, addr, data)[next] == 0xFF & data[next - addr] == 0;
  }

  /** Chunk after chunk. */
  lemma WrittenMore(mem: seq<octet>, addr: nat, d: seq<octet>, e: seq<octet>)
    ensures Written(Written(mem, addr, d), addr + |d|, e) == Written(mem, addr, d + e)
  {
    var l, r := Written(Written(mem, addr, d), addr + |d|, e), Written(mem, addr, d + e);
    forall x | 0 <= x < |mem| ensures l[x] == r[x] {}
  }

  lemma OnesAnd(b: octet)
    ensures 0xFF & b == b
  {
  }

  /** A write into erased flash reads back as the data. */
  lemma ErasedReadsBack(mem: seq<octet>, addr: nat, data: seq<octet>)
    requires addr + |data| <= |mem| && forall x :: addr <= x < addr + |data| ==> mem[x] == 0xFF
    ensures Written(mem, addr, data)[addr..addr + |data|] == data
  {
    var r := Written(mem, addr, data);
    forall i | 0 <= i < |data| ensures r[addr + i] == data[i] { OnesAnd(data[i]); }
  }

  /** The array after a list of erases, each of one unit of @p n bytes. */
  function ErasedAll(mem: seq<octet>, bases: seq<nat>, n: nat): (r: seq<octet>)
    ensures |r| == |mem|
    decreases |bases|
  {
    if bases == [] then mem else ErasedAll(Erased(mem, bases[0], n), bases[1..], n)
  }

  predicate Touched(bases: seq<nat>, n: nat, x: nat)
    decreases |bases|
  {
    bases != [] && (bases[0] <= x < bases[0] + n || Touched(bases[1..], n, x))
  }

  lemma {:induction false} ErasedStays(mem: seq<octet>, bases: seq<nat>, n: nat, x: nat)
    requires x < |mem| && (mem[x] == 0xFF || Touched(bases, n, x))
    ensures ErasedAll(mem, bases, n)[x] == 0xFF
    decreases |bases|
  {
    if bases == [] {
    } else {
      ErasedStays(Erased(mem, bases[0], n), bases[1..], n, x);
    }
  }

  /** Erase every unit the range touches, write, read: the data comes back, whatever was
      there before. */
  lemma EraseWriteRead(mem: seq<octet>, bases: seq<nat>, n: nat, addr: nat, data: seq<octet>)
    requires addr + |data| <= |mem|
    requires forall x :: addr <= x < addr + |data| ==> Touched(bases, n, x)
    ensures Written(ErasedAll(mem, bases, n), addr, data)[addr..addr + |data|] == data
  {
    var m := ErasedAll(mem, bases, n);
    forall x | addr <= x < addr + |data| ensures m[x] == 0xFF { ErasedStays(mem, bases, n, x); }
    ErasedReadsBack(m, addr, data);
  }

  // ---- the driver ----------------------------------------------------------------------

  /** How the device answers one program or erase: it never starts, it stops somewhere and
      leaves the affected bytes in any state, or it completes. */
  datatype Answer = NotStarted(rc: Rc) | Broken(rc: Rc, left: seq<octet>) | Done

  /** A device that completes everything asked of it. */
  predicate Willing(answers: seq<Answer>) { forall i :: 0 <= i < |answers| ==> answers[i].Done? }

  class Driver {
    const mem: array<octet>
    var ready: bool
    var answers: seq<Answer>

    predicate Valid()
      reads this
    {
      mem.Length == SIZE
    }

    constructor (m: array<octet>, device: seq<Answer>)
      requires m.Length == SIZE
      ensures Valid() && mem == m && ready && answers == device
    {
      mem, ready, answers := m, true, device;
    }

    method NextAnswer() returns (a: Answer)
      modifies `answers
      ensures a.NotStarted? || a.Broken? ==> a.rc != Ok
      ensures Willing(old(answers)) ==> a.Done? && Willing(answers)
    {
      if answers == [] { return Done; }
      a := answers[0];
      answers := answers[1..];
      if !a.Done? && a.rc == Ok { a := Done; }
    }

    /** Write-enable, PAGE PROGRAM, wait and flag check for one chunk. */
    method ProgramChunk(addr: nat, data: seq<octet>) returns (rc: Rc)
      requires Valid() && 0 < |data| <= PAGE && addr < SIZE
      modifies mem, `answers
      ensures rc == Ok ==> mem[..] == Program(old(mem[..]), addr, data)
      ensures Willing(old(answers)) ==> rc == Ok && Willing(answers)
      ensures rc != Ok ==> forall x :: 0 <= x < SIZE && !Touches(addr, |data|, x) ==> mem[x] == old(mem[x])
    {
      var a := NextAnswer();
      match a {
        case NotStarted(e) => rc := e;
        case Broken(e, left) =>
          forall x | 0 <= x < SIZE && Touches(addr, |data|, x) && x < |left| { mem[x] := left[x]; }
          rc := e;
        case Done =>
          ghost var m := mem[..];
          forall x | 0 <= x < SIZE && Touches(addr, |data|, x) {
            mem[x] := mem[x] & data[(x % PAGE - addr % PAGE + PAGE) % PAGE];
          }
          assert mem[..] == Program(m, addr, data);
          rc := Ok;
      }
    }

    /** One turn of the write loop, with @p k bytes done: the chunk ends at the page's end at
        the latest. */
    method WriteChunk(addr: nat, buf: seq<octet>, k: nat, ghost m0: seq<octet>) returns (rc: Rc, chunk: nat)
      requires Valid() && addr + |buf| <= SIZE && k < |buf| && |m0| == SIZE
      requires mem[..] == Written(m0, addr, buf[..k])
      modifies mem, `answers
      ensures 0 < chunk <= PAGE && k + chunk <= |buf|
      ensures rc == Ok ==> mem[..] == Written(m0, addr, buf[..k + chunk])
      ensures rc != Ok ==> forall x :: 0 <= x < SIZE && !(addr + k <= x < addr + k + chunk) ==> mem[x] == Written(m0, addr, buf[..k])[x]
      ensures Willing(old(answers)) ==> rc == Ok && Willing(answers)
    {
      hide Program, Written, Touches, Willing;
      var a := addr + k;
      chunk := PAGE - a % PAGE;
      if chunk > |buf| - k { chunk := |buf| - k; }
      ghost var m := mem[..];
      rc := ProgramChunk(a, buf[k..k + chunk]);
      if rc == Ok {
        ChunkProgram(m, a, buf[k..k + chunk]);
        WrittenMore(m0, addr, buf[..k], buf[k..k + chunk]);
        assert buf[..k] + buf[k..k + chunk] == buf[..k + chunk];
      } else {
        forall x | 0 <= x < SIZE && !(a <= x < a + chunk) ensures mem[x] == m[x] { Untouched(a, x, chunk); }
      }
    }

    /** `qspi_flash_write`. On an error @p done bytes were programmed and the failing chunk
        ends before @p upto: it is at most a page, and nothing from its end on is touched. */
    method Write(addr: nat, buf: seq<octet>) returns (rc: Rc, ghost done: nat, ghost upto: nat)
      requires Valid()
      modifies mem, `answers
      ensures done <= upto <= |buf| && upto - done <= PAGE
      ensures rc == Ok ==> mem[..] == Written(old(mem[..]), addr, buf)
      ensures ready && Willing(old(answers)) && addr < SIZE && |buf| <= SIZE - addr ==> rc == Ok
      ensures buf != [] && (addr >= SIZE || |buf| > SIZE - addr) ==> rc == Param
      ensures buf == [] ==> rc == Ok
      ensures buf != [] && addr < SIZE && |buf| <= SIZE - addr && !ready ==> rc == State
      ensures buf == [] || addr >= SIZE || |buf| > SIZE - addr || !ready ==> mem[..] == old(mem[..])
      ensures forall x :: 0 <= x < SIZE && !(addr + done <= x < addr + upto) ==>
                mem[x] == Written(old(mem[..]), addr, if rc == Ok then buf else buf[..done])[x]
    {
      hide Written, Willing;
      done, upto := 0, 0;
      WrittenNothing(mem[..], addr);
      if buf == [] { return Ok, 0, 0; }
      if addr >= SIZE || |buf| > SIZE - addr { return Param, 0, 0; }
      if !ready { return State, 0, 0; }
      var k := 0;
      while k < |buf|
        invariant Willing(old(answers)) ==> Willing(answers)
        invariant k <= |buf| && mem[..] == Written(old(mem[..]), addr, buf[..k])
      {
        var chunk;
        rc, chunk := WriteChunk(addr, buf, k, old(mem[..]));
        if rc != Ok { return rc, k, k + chunk; }
        k := k + chunk;
      }
      assert buf[..k] == buf;
      rc, done, upto := Ok, 0, 0;
    }

    /** `qspi_flash_read`. */
    method Read(addr: nat, len: nat, ok: bool) returns (rc: Rc, data: seq<octet>)
      requires Valid()
      ensures rc == Ok && len > 0 ==> addr + len <= SIZE && data == mem[addr..addr + len]
      ensures len > 0 && (addr >= SIZE || len > SIZE - addr) ==> rc == Param
      ensures len > 0 && addr < SIZE && len <= SIZE - addr && !ready ==> rc == State
      ensures len == 0 ==> rc == Ok && data == []
      ensures addr < SIZE && len <= SIZE - addr && ready && ok ==> rc == Ok
    {
      data := [];
      if len == 0 { return Ok, []; }
      if addr >= SIZE || len > SIZE - addr { return Param, []; }
      if !ready { return State, []; }
      if !ok { return Hal, []; }
      rc, data := Ok, mem[addr..addr + len];
    }

    /** `erase_common` for the unit of @p n bytes at @p base. */
    method EraseUnit(base: nat, n: nat) returns (rc: Rc)
      requires Valid()
      modifies mem, `answers
      ensures rc == Ok ==> mem[..] == Erased(old(mem[..]), base, n)
      ensures ready && Willing(old(answers)) ==> rc == Ok
      ensures !ready ==> rc == State && mem[..] == old(mem[..])
      ensures forall x :: 0 <= x < SIZE && !(base <= x < base + n) ==> mem[x] == old(mem[x])
    {
      if !ready { return State; }
      var a := NextAnswer();
      match a {
        case NotStarted(e) => rc := e;
        case Broken(e, left) =>
          forall x | 0 <= x < SIZE && base <= x < base + n && x < |left| { mem[x] := left[x]; }
          rc := e;
        case Done =>
          forall x | 0 <= x < SIZE && base <= x < base + n { mem[x] := 0xFF; }
          rc := Ok;
      }
    }

    /** `qspi_flash_erase_sector` and `_subsector`: the unit of @p n bytes that holds @p addr. */
    method Erase(addr: nat, n: nat) returns (rc: Rc, ghost base: nat)
      requires Valid() && n in {SECTOR, SUBSECTOR}
      modifies mem, `answers
      ensures addr >= SIZE ==> rc == Param && mem[..] == old(mem[..])
      ensures addr < SIZE && ready && Willing(old(answers)) ==> rc == Ok
      ensures addr < SIZE && !ready ==> rc == State && mem[..] == old(mem[..])
      ensures addr < SIZE ==> base <= addr < base + n <= SIZE && base % n == 0
      ensures rc == Ok ==> mem[..] == Erased(old(mem[..]), base, n)
      ensures forall x :: 0 <= x < SIZE && !(base <= x < base + n) ==> mem[x] == old(mem[x])
    {
      base := 0;
      if addr >= SIZE { return Param, 0; }
      if n == SECTOR {
        base := addr - addr % SECTOR;
        rc := EraseUnit(addr - addr % SECTOR, SECTOR);
      } else {
        base := addr - addr % SUBSECTOR;
        rc := EraseUnit(addr - addr % SUBSECTOR, SUBSECTOR);
      }
    }
  }

  lemma Untouched(addr: nat, x: nat, n: nat)
    requires 0 < n <= PAGE - addr % PAGE && !(addr <= x < addr + n)
    ensures !Touches(addr, n, x)
  {
    SamePage(addr, x, n);
  }

  lemma WrittenNothing(mem: seq<octet>, addr: nat)
    ensures Written(mem, addr, []) == mem
  {
    var r := Written(mem, addr, []);
    forall x | 0 <= x < |mem| ensures r[x] == mem[x] {}
  }

  /** The bytes a page program of @p n bytes at @p addr can change. */
  predicate Touches(addr: nat, n: nat, x: int) {
    0 <= x && x / PAGE == addr / PAGE && (x % PAGE - addr % PAGE + PAGE) % PAGE < n
  }
}
