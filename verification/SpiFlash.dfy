/** The NOR flash of an N2xx unit and its driver: an erase sets whole sectors to ones, programming can
    only clear bits. */
module SpiFlash {
  import opened Wrappers

  type Bytes = seq<bv8>

  const PAGE_SIZE := 256
  /** Every sector size divides this, and it divides every memory size. */
  const SPAN := 0x4_0000
  const UINT32 := 0x1_0000_0000

  // ---------- contents ----------

  function Ones(n: nat): (b: Bytes)
    ensures |b| == n && forall i :: 0 <= i < n ==> b[i] == 0xFF
  {
    seq(n, _ => 0xFF)
  }

  /** f with [lo, hi) erased. */
  function Erased(f: Bytes, lo: nat, hi: nat): (r: Bytes)
    requires lo <= hi <= |f|
    ensures |r| == |f|
    ensures forall i :: 0 <= i < |f| ==> r[i] == if lo <= i < hi then 0xFF else f[i]
  {
    f[..lo] + Ones(hi - lo) + f[hi..]
  }

  /** It does not matter what was there. */
  lemma JunkErased(f: Bytes, lo: nat, junk: Bytes)
    requires lo + |junk| <= |f|
    ensures Erased(f[..lo] + junk + f[lo + |junk|..], lo, lo + |junk|) == Erased(f, lo, lo + |junk|)
  {}

  lemma ErasedTwice(f: Bytes, lo: nat, mid: nat, hi: nat)
    requires lo <= mid <= hi <= |f|
    ensures Erased(Erased(f, lo, mid), mid, hi) == Erased(f, lo, hi)
  {}

  /** Programming can clear bits, but not set them. */
  function Over(under: bv8, b: bv8): bv8 { under & b }

  function And(f: Bytes, d: Bytes): (r: Bytes)
    requires |f| == |d|
    ensures |r| == |d| && forall i :: 0 <= i < |d| ==> r[i] == Over(f[i], d[i])
  {
    seq(|d|, i requires 0 <= i < |d| => Over(f[i], d[i]))
  }

  /** f with d programmed at a: bits can be cleared, not set. */
  function Programmed(f: Bytes, a: nat, d: Bytes): (r: Bytes)
    requires a + |d| <= |f|
    ensures |r| == |f|
  {
    f[..a] + And(f[a..a + |d|], d) + f[a + |d|..]
  }

  /** f with d put at a. */
  function Replaced(f: Bytes, a: nat, d: Bytes): (r: Bytes)
    requires a + |d| <= |f|
    ensures |r| == |f| && r[a..a + |d|] == d
  {
    f[..a] + d + f[a + |d|..]
  }

  lemma ProgrammedAt(f: Bytes, a: nat, d: Bytes, i: nat)
    requires a + |d| <= |f| && i < |f|
    ensures Programmed(f, a, d)[i] == if a <= i < a + |d| then Over(f[i], d[i - a]) else f[i]
  {}

  /** Pieces programmed one after the other are programmed as one. */
  lemma ProgrammedTwice(f: Bytes, a: nat, d: Bytes, e: Bytes)
    requires a + |d| + |e| <= |f|
    ensures Programmed(Programmed(f, a, d), a + |d|, e) == Programmed(f, a, d + e)
  {
    hide Programmed, Over;
    var first, once := Programmed(f, a, d), Programmed(f, a, d + e);
    var twice := Programmed(first, a + |d|, e);
    forall i | 0 <= i < |f| ensures twice[i] == once[i] {
      ProgrammedAt(first, a + |d|, e, i);
      ProgrammedAt(f, a, d, i);
      ProgrammedAt(f, a, d + e, i);
    }
  }

  lemma ProgramNothing(f: Bytes, a: nat)
    requires a <= |f|
    ensures Programmed(f, a, []) == f
  {}

  lemma AndOnes(b: bv8)
    ensures Over(0xFF, b) == b && Over(b, 0xFF) == b
  {}

  /** Programming what has been erased stores the data. */
  lemma ProgramErased(f: Bytes, a: nat, d: Bytes)
    requires a + |d| <= |f| && forall i :: a <= i < a + |d| ==> f[i] == 0xFF
    ensures Programmed(f, a, d) == Replaced(f, a, d)
  {
    forall i | 0 <= i < |f| ensures Programmed(f, a, d)[i] == Replaced(f, a, d)[i] {
      if a <= i < a + |d| {
        AndOnes(d[i - a]);
      }
    }
  }

  // ---------- rounding ----------

  lemma AtLeast(k: int, s: nat)
    requires k >= 1
    ensures k * s >= s
  {
    assert k * s == (k - 1) * s + s;
    assert (k - 1) * s >= 0;
  }

  lemma Negated(k: int, s: nat)
    ensures -k * s == -(k * s)
  {}

  lemma NotPositive(k: int, s: nat)
    ensures k <= 0 ==> k * s <= 0
  {}

  lemma MultipleMod(q: int, s: nat)
    requires s > 0 && q >= 0
    ensures q * s >= 0 && (q * s) % s == 0
  {
    var x := q * s;
    var k := q - x / s;
    assert x == s * (x / s) + x % s;
    assert k * s == x % s by {
      assert k * s == q * s - (x / s) * s;
    }
    if k >= 1 {
      AtLeast(k, s);
    }
    if k <= -1 {
      AtLeast(-k, s);
      Negated(k, s);
    }
  }

  /** round_down, for the powers of two the driver uses it with. */
  function RoundDown(x: nat, s: nat): (r: nat)
    requires s > 0
    ensures r <= x < r + s && r % s == 0
  {
    MultipleMod(x / s, s);
    x / s * s
  }

  lemma RoundDownMultiple(x: nat, s: nat)
    requires s > 0 && x % s == 0
    ensures RoundDown(x, s) == x
  {}

  lemma MultiplesApart(x: nat, y: nat, s: nat)
    requires s > 0 && x % s == 0 && y % s == 0 && x < y
    ensures x + s <= y
  {
    var k := y / s - x / s;
    assert y - x == k * s by {
      assert x == s * (x / s) && y == s * (y / s);
    }
    NotPositive(k, s);
    if k > 0 {
      AtLeast(k, s);
    }
  }

  lemma NextMultiple(x: nat, s: nat)
    requires s > 0 && x % s == 0
    ensures (x + s) % s == 0
  {
    MultipleMod(x / s + 1, s);
    assert (x / s + 1) * s == x / s * s + s;
  }

  lemma DividesMultiple(x: nat, s: nat)
    requires s > 0 && SPAN % s == 0 && x % SPAN == 0
    ensures x % s == 0
  {
    var q, k := x / SPAN, SPAN / s;
    assert SPAN == k * s;
    assert x == (q * k) * s by {
      assert q * (k * s) == (q * k) * s;
    }
    MultipleMod(q * k, s);
  }

  lemma MemoryIsPages(memory: nat)
    requires memory % SPAN == 0
    ensures memory % PAGE_SIZE == 0
  {}

  // ---------- the chip ----------

  /** What the page program command does with the 256 bytes it is sent: starting at a, and wrapping round
      within the page. */
  function PageProgrammed(f: Bytes, a: nat, buffer: Bytes): (r: Bytes)
    requires |buffer| == PAGE_SIZE && a < |f|
  {
    seq(|f|, i requires 0 <= i < |f| =>
      if i / PAGE_SIZE == a / PAGE_SIZE then Over(f[i], buffer[(i - a) % PAGE_SIZE]) else f[i])
  }

  lemma OtherPage(i: nat, a: nat, n: nat)
    requires i / PAGE_SIZE != a / PAGE_SIZE && a % PAGE_SIZE + n <= PAGE_SIZE
    ensures !(a <= i < a + n)
  {}

  lemma ShortPageAt(f: Bytes, a: nat, d: Bytes, i: nat)
    requires a + |d| <= |f| && 0 < |d| && a % PAGE_SIZE + |d| <= PAGE_SIZE && i < |f|
    ensures PageProgrammed(f, a, d + Ones(PAGE_SIZE - |d|))[i] == Programmed(f, a, d)[i]
  {
    if i / PAGE_SIZE == a / PAGE_SIZE {
      SamePageAt(f, a, d, i);
    } else {
      OtherPage(i, a, |d|);
    }
  }

  /** The ones that fill up a short buffer do not show, wherever they wrap to. */
  lemma ShortPage(f: Bytes, a: nat, d: Bytes)
    requires a + |d| <= |f| && 0 < |d| && a % PAGE_SIZE + |d| <= PAGE_SIZE
    ensures PageProgrammed(f, a, d + Ones(PAGE_SIZE - |d|)) == Programmed(f, a, d)
  {
    var b := d + Ones(PAGE_SIZE - |d|);
    forall i | 0 <= i < |f| ensures PageProgrammed(f, a, b)[i] == Programmed(f, a, d)[i] {
      ShortPageAt(f, a, d, i);
    }
  }

  lemma PageProgrammedAt(f: Bytes, a: nat, buffer: Bytes, i: nat, k: nat)
    requires |buffer| == PAGE_SIZE && a < |f| && i < |f| && k < PAGE_SIZE
    requires i / PAGE_SIZE == a / PAGE_SIZE && (i - a) % PAGE_SIZE == k
    ensures PageProgrammed(f, a, buffer)[i] == Over(f[i], buffer[k])
  {}

  lemma PageOffset(i: nat, a: nat)
    requires i / PAGE_SIZE == a / PAGE_SIZE
    ensures (i - a) % PAGE_SIZE == if i >= a then i - a else i - a + PAGE_SIZE
    ensures -PAGE_SIZE < i - a < PAGE_SIZE
    ensures i < a ==> i - a + PAGE_SIZE >= PAGE_SIZE - a % PAGE_SIZE
  {}

  lemma SamePageAt(f: Bytes, a: nat, d: Bytes, i: nat)
    requires a + |d| <= |f| && 0 < |d| && a % PAGE_SIZE + |d| <= PAGE_SIZE && i < |f| && i / PAGE_SIZE == a / PAGE_SIZE
    ensures PageProgrammed(f, a, d + Ones(PAGE_SIZE - |d|))[i] == Programmed(f, a, d)[i]
  {
    hide PageProgrammed, Programmed, Ones;
    AndOnes(f[i]);
    PageOffset(i, a);
    ProgrammedAt(f, a, d, i);
    PageProgrammedAt(f, a, d + Ones(PAGE_SIZE - |d|), i, if i >= a then i - a else i - a + PAGE_SIZE);
  }

  predicate OnPage(a: nat) {
    a % PAGE_SIZE == 0
  }

  predicate InPage(a: nat, n: nat) {
    a % PAGE_SIZE + n <= PAGE_SIZE
  }

  lemma PageSteps(a: nat)
    ensures a % PAGE_SIZE == 0 <==> OnPage(a)
    ensures OnPage(a + (PAGE_SIZE - a % PAGE_SIZE))
    ensures forall n: nat :: n <= PAGE_SIZE - a % PAGE_SIZE ==> InPage(a, n)
    ensures OnPage(a) ==> OnPage(a + PAGE_SIZE) && forall n: nat :: n <= PAGE_SIZE ==> InPage(a, n)
  {}

  // ---------- the driver ----------

  class Flash {
    const memory: nat
    const sector: nat
    /** What the memory array holds at this moment. */
    var cells: Bytes
    /** The sector being erased, whose contents mean nothing until the chip is idle again, and how many more
        status reads will find the chip busy. */
    var erasing: Option<nat>
    var busy: nat
    /** The state of the erase that is polled for. */
    var first: nat
    var last: nat
    var current: nat
    /** How many bytes have been read. */
    ghost var bytesRead: nat

    ghost predicate Valid()
      reads this
    {
      && sector > 0 && SPAN % sector == 0 && memory > 0 && memory % SPAN == 0 && memory <= 0x100_0000
      && |cells| == memory
      && (erasing.Some? ==> erasing.value + sector <= memory)
      && first <= current <= last && last + sector <= memory
      && current % sector == 0 && last % sector == 0
    }

    /** What the memory array holds once the chip is idle. */
    ghost function Image(): (r: Bytes)
      requires Valid()
      reads this
      ensures |r| == memory
    {
      if erasing.Some? then Erased(cells, erasing.value, erasing.value + sector) else cells
    }

    /** spi_flash_done_p */
    method DoneP() returns (done: bool)
      requires Valid()
      modifies this`cells, this`erasing, this`busy
      ensures Valid() && Image() == old(Image())
      ensures done <==> old(busy) == 0
      ensures done ==> erasing == None && busy == 0
      ensures !done ==> busy < old(busy)
    {
      if busy > 0 {
        busy := busy - 1;
        return false;
      }
      if erasing.Some? {
        cells := Erased(cells, erasing.value, erasing.value + sector);
        erasing := None;
      }
      return true;
    }

    /** spi_flash_wait */
    method Wait()
      requires Valid()
      modifies this`cells, this`erasing, this`busy
      ensures Valid() && Image() == old(Image()) && erasing == None
    {
      var done := DoneP();
      while !done
        invariant Valid() && Image() == old(Image()) && (done ==> erasing == None)
        decreases if done then 0 else busy + 1
      {
        done := DoneP();
      }
    }

    lemma SectorFits(a: nat)
      requires Valid() && a < memory
      ensures RoundDown(a, sector) + sector <= memory
    {
      DividesMultiple(memory, sector);
      MultiplesApart(RoundDown(a, sector), memory, sector);
    }

    /** f with the sector that holds a erased. */
    ghost function SectorErased(f: Bytes, a: nat): Bytes
      requires Valid() && |f| == memory && a < memory
      reads this
    {
      SectorFits(a);
      Erased(f, RoundDown(a, sector), RoundDown(a, sector) + sector)
    }

    /** spi_flash_erase_sector_start, which returns from addresses beyond the memory. How long the erase takes,
        and what the sector reads as meanwhile, is up to the chip. */
    method EraseSectorStart(a: nat)
      requires Valid() && a != memory
      modifies this`cells, this`erasing, this`busy
      ensures Valid() && Image() == if a < memory then SectorErased(old(Image()), a) else old(Image())
    {
      if a > memory {
        return;
      }
      Wait();
      SectorFits(a);
      var start := RoundDown(a, sector);
      var any: int -> bv8 := *;
      var junk: Bytes := seq(sector, i => any(i));
      JunkErased(cells, start, junk);
      hide Erased, RoundDown;
      cells := cells[..start] + junk + cells[start + sector..];
      erasing := Some(start);
      busy := *;
    }

    /** spi_flash_page_program_start. Data that crosses the end of a page wraps round to its start. */
    method PageProgramStart(a: nat, data: Bytes) returns (ok: bool)
      requires Valid()
      modifies this`cells, this`erasing, this`busy
      ensures Valid() && (ok <==> 0 < |data| <= PAGE_SIZE && a + |data| <= memory)
      ensures Image() == if ok then PageProgrammed(old(Image()), a, data + Ones(PAGE_SIZE - |data|)) else old(Image())
      ensures ok && InPage(a, |data|) ==> Image() == Programmed(old(Image()), a, data)
      ensures ok ==> erasing == None
    {
      if |data| == 0 || |data| > PAGE_SIZE {
        return false;
      }
      if a + |data| > memory {
        return false;
      }
      Wait();
      if InPage(a, |data|) {
        ShortPage(cells, a, data);
      }
      cells := PageProgrammed(cells, a, data + Ones(PAGE_SIZE - |data|));
      busy := *;
      return true;
    }

    /** A page program that keeps within its page. */
    method ProgramInPage(a: nat, data: Bytes)
      requires Valid() && InPage(a, |data|) && data != [] && a + |data| <= memory
      modifies this`cells, this`erasing, this`busy
      ensures Valid() && Image() == Programmed(old(Image()), a, data) && erasing == None
    {
      assert |data| <= PAGE_SIZE;
      hide Programmed, PageProgrammed, Ones, Image;
      var _ := PageProgramStart(a, data);
    }

    /** One round of spi_flash_program. */
    method ProgramPiece(ghost was: Bytes, addr: nat, data: Bytes, done: nat, n: nat)
      requires Valid() && |was| == memory && addr + |data| <= memory && 0 < n && done + n <= |data|
      requires InPage(addr + done, n)
      requires Image() == Programmed(was, addr, data[..done])
      modifies this`cells, this`erasing, this`busy
      ensures Valid() && Image() == Programmed(was, addr, data[..done + n]) && erasing == None
    {
      hide Programmed, InPage, Image;
      ProgramInPage(addr + done, data[done..done + n]);
      ProgrammedTwice(was, addr, data[..done], data[done..done + n]);
      assert data[..done] + data[done..done + n] == data[..done + n];
    }

    /** The loop of spi_flash_program, once the next byte is the first of a page. */
    method ProgramPages(ghost was: Bytes, addr: nat, data: Bytes, first: nat)
      requires Valid() && |was| == memory && addr + |data| <= memory && first <= |data|
      requires first < |data| ==> OnPage(addr + first)
      requires Image() == Programmed(was, addr, data[..first])
      modifies this`cells, this`erasing, this`busy
      ensures Valid() && Image() == Programmed(was, addr, data)
    {
      hide Programmed, Image, OnPage, InPage;
      var done := first;
      while done < |data|
        invariant Valid() && first <= done <= |data|
        invariant done < |data| ==> OnPage(addr + done)
        invariant Image() == Programmed(was, addr, data[..done])
      {
        var n := if |data| - done < PAGE_SIZE then |data| - done else PAGE_SIZE;
        PageSteps(addr + done);
        ProgramPiece(was, addr, data, done, n);
        done := done + n;
      }
      assert data[..done] == data;
    }

    /** spi_flash_program: any range, cut where pages end. */
    method Program(addr: nat, data: Bytes) returns (ok: bool)
      requires Valid()
      modifies this`cells, this`erasing, this`busy
      ensures Valid() && (ok <==> addr + |data| <= memory)
      ensures Image() == if ok then Programmed(old(Image()), addr, data) else old(Image())
      ensures erasing in {None, old(erasing)} && (ok && data != [] ==> erasing == None)
    {
      if |data| + addr > memory {
        return false;
      }
      ProgramNothing(Image(), addr);
      if |data| == 0 {
        return true;
      }
      assert data[..0] == [];
      PageSteps(addr);
      hide Programmed, Image, OnPage, InPage;
      ghost var was := Image();
      var done := 0;
      var r := addr % PAGE_SIZE;
      if r != 0 {
        done := if PAGE_SIZE - r < |data| then PAGE_SIZE - r else |data|;
        ProgramPiece(was, addr, data, 0, done);
      }
      ProgramPages(was, addr, data, done);
      Wait();
      return true;
    }

    /** spi_flash_read. Beyond the memory the chip may answer anything. */
    method Read(addr: nat, n: nat) returns (data: Bytes)
      requires Valid()
      modifies this`bytesRead
      ensures |data| == n && (addr + n <= memory ==> data == cells[addr..addr + n])
      ensures bytesRead == old(bytesRead) + n
    {
      bytesRead := bytesRead + n;
      if addr + n <= memory {
        return cells[addr..addr + n];
      }
      var any: int -> bv8 := *;
      return seq(n, i => any(i));
    }

    /** The whole sectors that hold [addr, addr + n). */
    ghost function EraseStart(addr: nat): nat
      requires sector > 0
    {
      RoundDown(addr, sector)
    }

    ghost function EraseEnd(addr: nat, n: nat): nat
      requires sector > 0 && n > 0
    {
      RoundDown(addr + n - 1, sector) + sector
    }

    /** The erase of [start, end) begun on `before` has come this far. */
    ghost predicate Progress(before: Bytes, start: nat, end: nat)
      reads this
    {
      && Valid() && |before| == memory && first == start && last + sector == end
      && Image() == Erased(before, start, current + sector)
    }

    lemma EraseFits(addr: nat, n: nat)
      requires Valid() && n > 0 && addr + n <= memory
      ensures EraseStart(addr) <= addr < addr + n <= EraseEnd(addr, n) <= memory
      ensures EraseStart(addr) + sector <= EraseEnd(addr, n)
    {
      DividesMultiple(memory, sector);
      var l := RoundDown(addr + n - 1, sector);
      MultiplesApart(l, memory, sector);
      if l < EraseStart(addr) {
        MultiplesApart(l, EraseStart(addr), sector);
      }
    }

    /** The erase of a range stays within any whole number of spans around it. */
    lemma EraseWithin(addr: nat, n: nat, lo: nat, hi: nat)
      requires Valid() && n > 0 && lo % SPAN == 0 && hi % SPAN == 0 && lo <= addr && addr + n <= hi
      ensures lo <= EraseStart(addr) && EraseEnd(addr, n) <= hi
    {
      DividesMultiple(lo, sector);
      DividesMultiple(hi, sector);
      if EraseStart(addr) < lo {
        MultiplesApart(EraseStart(addr), lo, sector);
      }
      MultiplesApart(RoundDown(addr + n - 1, sector), hi, sector);
    }

    lemma IdleImage()
      requires Valid() && erasing == None
      ensures Image() == cells
    {}

    /** spi_flash_async_erase_start */
    method AsyncEraseStart(addr: nat, n: nat)
      requires Valid() && addr + n < UINT32
      modifies this`cells, this`erasing, this`busy, this`first, this`last, this`current
      ensures Valid()
      ensures n == 0 || addr + n > memory ==> Image() == old(Image()) && current == last == 0
      ensures n > 0 && addr + n <= memory ==> Progress(old(Image()), EraseStart(addr), EraseEnd(addr, n))
    {
      if n == 0 || addr + n > memory {
        first, last, current := 0, 0, 0;
        DividesMultiple(memory, sector);
        MultiplesApart(0, memory, sector);
        return;
      }
      EraseFits(addr, n);
      first := RoundDown(addr, sector);
      last := RoundDown(addr + n - 1, sector);
      current := first;
      RoundDownMultiple(current, sector);
      EraseSectorStart(current);
    }

    /** spi_flash_async_erase_poll, in any state: either nothing happens, or one more sector is erased. When it
        says done for an erase that was begun, every sector has been erased and nothing else. */
    method AsyncErasePoll(ghost before: Bytes, ghost start: nat, ghost end: nat) returns (done: bool)
      requires Valid()
      modifies this`cells, this`erasing, this`busy, this`current
      ensures Valid() && current >= old(current)
      ensures Image() == if current == old(current) then old(Image()) else SectorErased(old(Image()), current)
      ensures done <==> old(busy) == 0 && old(current) == last
      ensures done ==> erasing == None && current == last
      ensures !done ==> old(current) < current <= last || (current == old(current) && busy < old(busy))
      ensures old(Progress(before, start, end)) ==> Progress(before, start, end)
      ensures old(Progress(before, start, end)) && done ==> cells == Erased(before, start, end)
    {
      hide Erased, RoundDown, SectorErased;
      done := DoneP();
      if !done {
        return false;
      }
      if current == last {
        return true;
      }
      EraseNext(before, start, end);
      return false;
    }

    /** The erase goes on with the next sector. */
    method EraseNext(ghost before: Bytes, ghost start: nat, ghost end: nat)
      requires Valid() && current < last
      modifies this`cells, this`erasing, this`busy, this`current
      ensures Valid() && old(current) < current <= last && Image() == SectorErased(old(Image()), current)
      ensures old(Progress(before, start, end)) ==> Progress(before, start, end)
    {
      if Progress(before, start, end) {
        NextFits();
        ErasedTwice(before, start, current + sector, current + sector + sector);
      }
      hide Erased, RoundDown, SectorErased;
      EraseOneMore();
    }

    lemma NextFits()
      requires Valid() && current < last
      ensures current + sector <= last && (current + sector) % sector == 0
    {
      MultiplesApart(current, last, sector);
      NextMultiple(current, sector);
    }

    /** The erase of one more sector. */
    method EraseOneMore()
      requires Valid() && current < last
      modifies this`cells, this`erasing, this`busy, this`current
      ensures Valid() && current == old(current) + sector <= last
      ensures Image() == SectorErased(old(Image()), current) == Erased(old(Image()), current, current + sector)
    {
      NextFits();
      current := current + sector;
      RoundDownMultiple(current, sector);
      hide Erased, RoundDown;
      EraseSectorStart(current);
    }
  }
}
