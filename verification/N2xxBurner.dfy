/** Burning the firmware and FPGA images of an N2xx unit: the network burner, the packet handler of the unit
    and the checks its bootloader makes. */
module N2xxBurner {
  import opened Wrappers
  import opened SpiFlash

  const FPGA_IMAGE_SIZE := 1572864
  const FW_IMAGE_SIZE := 31744
  const SAFE_FPGA_ADDR := 0x00_0000
  const SAFE_FW_ADDR := 0x3F_0000
  const PROD_FPGA_ADDR := 0x18_0000
  const PROD_FW_ADDR := 0x30_0000
  const PACKET_SIZE := 256
  /** How much firmware the bootloader loads, by its own idea of FW_IMAGE_SIZE_BYTES. */
  const BOOT_FW_SIZE := 0x3FFF

  const REVISIONS: map<int, seq<string>> :=
    map[0x0a00 := ["n200_r3", "n200_r2"], 0x0a10 := ["n200_r4"],
        0x0a01 := ["n210_r3", "n210_r2"], 0x0a11 := ["n210_r4"]]

  datatype Request =
    | FlashInfo
    | HwRev
    | Erase(addr: nat, len: nat)
    | DoneErasing
    | Write(addr: nat, len: nat, data: Bytes)
    | ReadFlash(addr: nat, len: nat)
    | Reset

  datatype Reply =
    | HeresInfo(sector: nat, memory: nat)
    | HeresHwRev(rev: int)
    | ErasingNow
    | ImDoneErasing
    | NotDoneErasing
    | Wrote
    | HeresData(data: Bytes)
    | Resetting

  datatype Outcome =
    | Done | Timeout | InvalidReply | UnknownRevision | WrongRevision | TooLarge | InvalidImage | PastEnd
    | VerifyFailed | NotReset

  /** The erase in progress: what the flash held, and the sectors to erase. */
  datatype Job = Job(before: Bytes, start: nat, end: nat)

  // ---------- the unit ----------

  class Unit {
    const flash: Flash
    const hwRev: int
    /** Whether no packet is lost on the way to the unit or back. */
    const lossless: bool
    /** How often the unit has restarted. */
    var restarts: nat

    constructor (flash: Flash, hwRev: int, lossless: bool)
      ensures this.flash == flash && this.hwRev == hwRev && this.lossless == lossless && restarts == 0
    {
      this.flash := flash;
      this.hwRev := hwRev;
      this.lossless := lossless;
      restarts := 0;
    }

    /** Sums of address and length do not wrap, and what is read or written fits a packet. */
    ghost predicate Accepts(r: Request)
      reads flash
    {
      && flash.Valid()
      && match r
         case Erase(a, n) => a + n < UINT32
         case Write(a, n, d) => a + n < UINT32 && n <= |d| == PACKET_SIZE
         case ReadFlash(a, n) => n <= PACKET_SIZE
         case _ => true
    }

    /** The reply to r, in the state that handling it led to. */
    ghost predicate Answers(reply: Reply, r: Request, current: nat, busy: nat)
      reads flash
    {
      match r
      case FlashInfo => reply == HeresInfo(flash.sector, flash.memory)
      case HwRev => reply == HeresHwRev(hwRev)
      case Erase(_, _) => reply == ErasingNow
      case DoneErasing => reply == ImDoneErasing || (reply == NotDoneErasing && Closer(current, busy))
      case Write(_, _, _) => reply == Wrote
      case ReadFlash(a, n) =>
        && reply.HeresData? && |reply.data| == PACKET_SIZE >= n
        && (a + n <= |flash.cells| ==> reply.data[..n] == flash.cells[a..a + n])
      case Reset => reply == Resetting
    }

    /** The erase is this one, and has come some way. */
    ghost predicate Begun(job: Job)
      reads flash
    {
      flash.Progress(job.before, job.start, job.end)
    }

    /** The erase has moved on since its sector was `current` and its chip had `busy` reads to go. */
    ghost predicate Closer(current: nat, busy: nat)
      reads flash
    {
      current < flash.current <= flash.last || (flash.current == current && flash.busy < busy)
    }

    /** What handling r does to a flash that held `before`, with an erase that had come to `current`. */
    ghost predicate Effect(r: Request, before: Bytes, current: nat)
      requires flash.Valid() && |before| == flash.memory
      reads flash
    {
      match r
      case Erase(a, n) =>
        if n > 0 && a + n <= flash.memory
        then flash.Progress(before, flash.EraseStart(a), flash.EraseEnd(a, n))
        else flash.Image() == before && flash.current == flash.last
      case DoneErasing =>
        current <= flash.current &&
        flash.Image() == if flash.current == current then before else flash.SectorErased(before, flash.current)
      case Write(a, n, d) =>
        if n <= |d| && a + n <= flash.memory
        then flash.Image() == Programmed(before, a, d[..n]) && (n > 0 ==> flash.erasing == None)
        else flash.Image() == before
      case _ => flash.Image() == before
    }

    /** handle_udp_fw_update_packet */
    method Handle(r: Request, ghost job: Job) returns (reply: Reply)
      requires Accepts(r)
      modifies flash
      ensures flash.Valid() && Effect(r, old(flash.Image()), old(flash.current))
      ensures Answers(reply, r, old(flash.current), old(flash.busy))
      ensures reply == ImDoneErasing ==> flash.erasing == None && flash.current == old(flash.current) == flash.last
      ensures r.DoneErasing? ==> flash.last == old(flash.last) && (old(Begun(job)) ==> Begun(job))
      ensures reply == ImDoneErasing && old(Begun(job)) ==> flash.cells == Erased(job.before, job.start, job.end)
      ensures !r.Erase? && !r.DoneErasing? && !r.Write? ==>
                flash.cells == old(flash.cells) && flash.erasing == old(flash.erasing)
      ensures r.Write? ==> flash.erasing in {None, old(flash.erasing)}
      ensures flash.bytesRead == old(flash.bytesRead) + if r.ReadFlash? then r.len else 0
    {
      match r {
        case FlashInfo => reply := HeresInfo(flash.sector, flash.memory);
        case HwRev => reply := HeresHwRev(hwRev);
        case Erase(a, n) =>
          flash.AsyncEraseStart(a, n);
          reply := ErasingNow;
        case DoneErasing =>
          var done := flash.AsyncErasePoll(job.before, job.start, job.end);
          reply := if done then ImDoneErasing else NotDoneErasing;
        case Write(a, n, d) =>
          var _ := flash.Program(a, d[..n]);
          reply := Wrote;
        case ReadFlash(a, n) =>
          var data := flash.Read(a, n);
          reply := HeresData(data + seq(PACKET_SIZE - n, _ => 0));
        case Reset => reply := Resetting;
      }
    }

    /** send_and_recv: the request may be lost, and so may the reply. */
    method Exchange(r: Request, ghost job: Job) returns (reply: Option<Reply>)
      requires Accepts(r)
      modifies flash
      ensures flash.Valid()
      ensures Effect(r, old(flash.Image()), old(flash.current))
              || (reply == None && flash.Image() == old(flash.Image()) && flash.current == old(flash.current))
      ensures r.DoneErasing? ==> flash.last == old(flash.last) && (old(Begun(job)) ==> Begun(job))
      ensures reply.Some? ==> Effect(r, old(flash.Image()), old(flash.current))
      ensures reply.Some? ==> Answers(reply.value, r, old(flash.current), old(flash.busy))
      ensures reply == Some(ImDoneErasing) ==> flash.erasing == None && flash.current == old(flash.current)
      ensures reply == Some(ImDoneErasing) && old(Begun(job)) ==> flash.cells == Erased(job.before, job.start, job.end)
      ensures !r.Erase? && !r.DoneErasing? && !r.Write? ==>
                flash.cells == old(flash.cells) && flash.erasing == old(flash.erasing)
      ensures r.Write? ==> flash.erasing in {None, old(flash.erasing)}
      ensures lossless ==> reply.Some?
      ensures old(flash.bytesRead) <= flash.bytesRead
      ensures reply.Some? && r.ReadFlash? ==> flash.bytesRead == old(flash.bytesRead) + r.len
    {
      hide Programmed, Erased;
      var lost: bool := *;
      if lost && !lossless {
        return None;
      }
      var p := Handle(r, job);
      var replyLost: bool := *;
      return if replyLost && !lossless then None else Some(p);
    }

    /** The same for a reset: a unit that does restart does not reply. */
    method ExchangeReset() returns (reply: Option<Reply>)
      requires flash.Valid()
      modifies flash, this`restarts
      ensures flash.Valid() && flash.cells == old(flash.cells) && flash.erasing == old(flash.erasing)
      ensures flash.bytesRead == old(flash.bytesRead)
      ensures restarts in {old(restarts), old(restarts) + 1}
      ensures reply in {None, Some(Resetting)} && (reply.Some? ==> restarts == old(restarts))
      ensures lossless ==> (reply == None <==> restarts == old(restarts) + 1)
    {
      var lost: bool, works: bool := *, *;
      if lost && !lossless {
        return None;
      }
      if works {
        restarts := restarts + 1;
        return None;
      }
      var p := Handle(Reset, Job([], 0, 0));
      var replyLost: bool := *;
      return if replyLost && !lossless then None else Some(p);
    }
  }

  // ---------- contents of a slot ----------

  /** The packets of an image: it is cut every 256 bytes, and packing fills the last one up with zeros. */
  function Padded(image: Bytes): (p: Bytes)
    ensures |image| <= |p| < |image| + PACKET_SIZE
    ensures p[..|image|] == image
  {
    image + seq(-|image| % PACKET_SIZE, _ => 0)
  }

  /** The next packet: 256 bytes of what is left to write, or all of it filled up with zeros. */
  function PacketOf(writeData: Bytes): (p: Bytes)
    ensures |p| == PACKET_SIZE
  {
    if |writeData| >= PACKET_SIZE then writeData[..PACKET_SIZE]
    else writeData + seq(PACKET_SIZE - |writeData|, _ => 0)
  }

  lemma PaddedAt(image: Bytes, i: nat)
    requires i < |Padded(image)|
    ensures Padded(image)[i] == if i < |image| then image[i] else 0
  {}

  lemma PacketOfAt(writeData: Bytes, k: nat)
    requires k < PACKET_SIZE
    ensures PacketOf(writeData)[k] == if k < |writeData| then writeData[k] else 0
  {}

  lemma PaddedIsPackets(image: Bytes)
    ensures |Padded(image)| % PACKET_SIZE == 0
  {}

  /** A slot of the given size after a burn: the image, zeros to the end of its last packet, then ones. */
  function SlotContents(image: Bytes, size: nat): (c: Bytes)
    requires |Padded(image)| <= size
    ensures |c| == size && c[..|image|] == image
  {
    Padded(image) + Ones(size - |Padded(image)|)
  }

  ghost predicate Holds(cells: Bytes, addr: nat, size: nat, image: Bytes) {
    && addr + size <= |cells| && |Padded(image)| <= size
    && cells[addr..addr + size] == SlotContents(image, size)
  }

  ghost predicate SameOutside(f: Bytes, g: Bytes, lo: nat, hi: nat) {
    |f| == |g| && forall i :: 0 <= i < |f| && !(lo <= i < hi) ==> f[i] == g[i]
  }

  // ---------- the burner ----------

  class Burner {
    const unit: Unit
    var memorySize: nat
    var sectorSize: nat

    ghost predicate Valid()
      reads this, unit.flash
    {
      && unit.flash.Valid()
      && ((memorySize == 0 && sectorSize == 0) || Knows())
    }

    /** The sizes of the flash are cached. */
    ghost predicate Knows()
      reads this
    {
      memorySize == unit.flash.memory && sectorSize == unit.flash.sector
    }

    constructor (unit: Unit)
      requires unit.flash.Valid()
      ensures Valid() && this.unit == unit
    {
      this.unit := unit;
      memorySize, sectorSize := 0, 0;
    }

    /** get_flash_info */
    method GetFlashInfo() returns (r: Outcome)
      requires Valid()
      modifies this, unit.flash
      ensures Valid() && (r.Done? || r.Timeout?) && (r.Done? ==> Knows()) && (unit.lossless ==> r.Done?)
      ensures old(Knows()) ==> r.Done?
      ensures unit.flash.cells == old(unit.flash.cells) && unit.flash.erasing == old(unit.flash.erasing)
      ensures unit.flash.Image() == old(unit.flash.Image())
      ensures old(unit.flash.bytesRead) <= unit.flash.bytesRead
    {
      if memorySize != 0 && sectorSize != 0 {
        return Done;
      }
      var reply := unit.Exchange(FlashInfo, Job([], 0, 0));
      if reply == None {
        return Timeout;
      }
      if !reply.value.HeresInfo? {
        return InvalidReply;
      }
      sectorSize, memorySize := reply.value.sector, reply.value.memory;
      return Done;
    }

    /** erase_image: whole sectors are erased, and the erase is waited for. */
    method EraseImage(addr: nat, len: nat) returns (r: Outcome)
      requires Valid() && Knows()
      modifies this, unit.flash
      ensures Valid() && Knows() && (r.Done? || r.Timeout? || r.PastEnd?) && (unit.lossless ==> !r.Timeout?)
      ensures r.PastEnd? <==> addr + len > unit.flash.memory
      ensures r.PastEnd? || len == 0 ==> unit.flash.Image() == old(unit.flash.Image())
      ensures !r.PastEnd? && len > 0 ==>
                SameOutside(unit.flash.Image(), old(unit.flash.Image()),
                            unit.flash.EraseStart(addr), unit.flash.EraseEnd(addr, len))
      ensures r.Done? ==> unit.flash.erasing == None
      ensures r.Done? && len > 0 ==>
                && unit.flash.EraseStart(addr) <= addr
                && addr + len <= unit.flash.EraseEnd(addr, len) <= unit.flash.memory
                && unit.flash.Image()
                == Erased(old(unit.flash.Image()), unit.flash.EraseStart(addr), unit.flash.EraseEnd(addr, len))
      ensures old(unit.flash.bytesRead) <= unit.flash.bytesRead
    {
      var info := GetFlashInfo();
      if addr + len > memorySize {
        return PastEnd;
      }
      var flash := unit.flash;
      ghost var job := Job(flash.Image(), 0, 0);
      if len > 0 {
        flash.EraseFits(addr, len);
        job := Job(flash.Image(), flash.EraseStart(addr), flash.EraseEnd(addr, len));
      }
      var reply := unit.Exchange(Erase(addr, len), job);
      if reply == None {
        return Timeout;
      }
      if reply.value != ErasingNow {
        return InvalidReply;
      }
      r := AwaitErase(job, len > 0);
    }

    /** The polling loop of erase_image, when an erase has been begun or was refused. */
    method AwaitErase(ghost job: Job, ghost begun: bool) returns (r: Outcome)
      requires Valid() && Knows()
      requires if begun then unit.Begun(job) else unit.flash.current == unit.flash.last
      modifies this, unit.flash
      ensures Valid() && Knows() && (r.Done? || r.Timeout?) && (unit.lossless ==> r.Done?)
      ensures if begun then unit.Begun(job) else unit.flash.Image() == old(unit.flash.Image())
      ensures r.Done? ==> unit.flash.erasing == None
      ensures r.Done? && begun ==> unit.flash.cells == Erased(job.before, job.start, job.end)
      ensures old(unit.flash.bytesRead) <= unit.flash.bytesRead
    {
      var flash := unit.flash;
      hide Erased, Flash.Valid, Flash.Image, Flash.EraseStart, Flash.EraseEnd;
      while true
        invariant Valid() && Knows() && (begun ==> unit.Begun(job)) && old(flash.bytesRead) <= flash.bytesRead
        invariant !begun ==> flash.current == flash.last && flash.Image() == old(flash.Image())
        decreases flash.last - flash.current, flash.busy
      {
        var reply := unit.Exchange(DoneErasing, job);
        if reply == None {
          return Timeout;
        }
        if reply.value == ImDoneErasing {
          return Done;
        }
        if reply.value != NotDoneErasing {
          return InvalidReply;
        }
      }
    }

    /** One packet of write_image, with `done` bytes sent before it. The reply does not tell whether the packet
        ended past the memory. */
    method WritePacket(ghost was: Bytes, ghost image: Bytes, ghost addr: nat, ghost done: nat, writeData: Bytes, a: nat)
      returns (r: Outcome)
      requires Valid() && Knows() && |was| == unit.flash.memory && addr + |image| <= |was|
      requires done < |image| && Packets(image, done) && writeData == image[done..] && a == addr + done
      requires unit.flash.Image() == Programmed(was, addr, Padded(image)[..done])
      modifies unit.flash
      ensures Valid() && Knows() && (r.Done? || r.Timeout?) && (unit.lossless ==> r.Done?)
      ensures r.Timeout? ==> SameOutside(unit.flash.Image(), was, addr, addr + |Padded(image)|)
      ensures unit.flash.erasing in {None, old(unit.flash.erasing)}
      ensures r.Done? ==> done + PACKET_SIZE <= |Padded(image)|
                          && StoredUpTo(unit.flash.Image(), was, addr, image, done + PACKET_SIZE)
      ensures old(unit.flash.bytesRead) <= unit.flash.bytesRead
    {
      var packet := PacketOf(writeData);
      hide Packets, Programmed, Padded, PacketOf, StoredUpTo, SameOutside, Landed;
      NextPacket(image, done);
      PacketLands(was, addr, image, done, packet);
      r := SendPacket(packet, a);
    }

    /** A write request and its reply. */
    method SendPacket(packet: Bytes, a: nat) returns (r: Outcome)
      requires Valid() && Knows() && |packet| == PACKET_SIZE && a <= unit.flash.memory
      modifies unit.flash
      ensures Valid() && Knows() && (r.Done? || r.Timeout?) && (unit.lossless ==> r.Done?)
      ensures unit.flash.erasing in {None, old(unit.flash.erasing)}
      ensures unit.flash.Image() == Landed(old(unit.flash.Image()), a, packet)
              || (r.Timeout? && unit.flash.Image() == old(unit.flash.Image()))
      ensures old(unit.flash.bytesRead) <= unit.flash.bytesRead
    {
      hide Programmed;
      assert packet[..PACKET_SIZE] == packet;
      var reply := unit.Exchange(Write(a, PACKET_SIZE, packet), Job([], 0, 0));
      if reply == None {
        return Timeout;
      }
      return if reply.value != Wrote then InvalidReply else Done;
    }

    /** The packets of write_image. */
    method WritePackets(image: Bytes, addr: nat) returns (r: Outcome)
      requires Valid() && Knows() && addr + |image| <= unit.flash.memory
      modifies unit.flash
      ensures Valid() && Knows() && (r.Done? || r.Timeout?) && (unit.lossless ==> r.Done?)
      ensures SameOutside(unit.flash.Image(), old(unit.flash.Image()), addr, addr + |Padded(image)|)
      ensures r.Done? ==> StoredUpTo(unit.flash.Image(), old(unit.flash.Image()), addr, image, |Padded(image)|)
      ensures r.Done? && old(unit.flash.erasing) == None ==> unit.flash.erasing == None
      ensures old(unit.flash.bytesRead) <= unit.flash.bytesRead
    {
      var writeData, a := image, addr;
      ghost var was, done: nat := unit.flash.Image(), 0;
      NothingStored(was, addr, image);
      hide Programmed, Padded, StoredUpTo;
      while writeData != []
        invariant Valid() && Knows() && a == addr + done && old(unit.flash.bytesRead) <= unit.flash.bytesRead
        invariant old(unit.flash.erasing) == None ==> unit.flash.erasing == None
        invariant Packets(image, done)
        invariant writeData == if done <= |image| then image[done..] else []
        invariant StoredUpTo(unit.flash.Image(), was, addr, image, done)
        decreases |writeData|
      {
        MorePackets(image, done);
        StoredSoFar(unit.flash.Image(), was, addr, image, done);
        var sent := WritePacket(was, image, addr, done, writeData, a);
        if sent != Done {
          return sent;
        }
        hide Packets;
        writeData := if |writeData| >= PACKET_SIZE then writeData[PACKET_SIZE..] else [];
        a := a + PACKET_SIZE;
        done := done + PACKET_SIZE;
      }
      AllPackets(image, done);
      StoredWithin(unit.flash.Image(), was, addr, image, done);
      return Done;
    }

    /** write_image: bits are cleared where the image and the filling of its last packet have zeros. That packet
        is lost if its filling ends past the memory, which at a multiple of the packet size it never does. */
    method WriteImage(image: Bytes, addr: nat) returns (r: Outcome)
      requires Valid() && Knows()
      modifies this, unit.flash
      ensures Valid() && Knows() && (r.Done? || r.Timeout? || r.PastEnd?) && (unit.lossless ==> !r.Timeout?)
      ensures r.PastEnd? <==> addr + |image| > unit.flash.memory
      ensures r.PastEnd? ==> unit.flash.Image() == old(unit.flash.Image())
      ensures SameOutside(unit.flash.Image(), old(unit.flash.Image()), addr, addr + |Padded(image)|)
      ensures r.Done? ==> StoredUpTo(unit.flash.Image(), old(unit.flash.Image()), addr, image, |Padded(image)|)
      ensures r.Done? && addr % PACKET_SIZE == 0 ==>
                && addr + |Padded(image)| <= unit.flash.memory
                && unit.flash.Image() == Programmed(old(unit.flash.Image()), addr, Padded(image))
      ensures r.Done? && old(unit.flash.erasing) == None ==> unit.flash.erasing == None
      ensures old(unit.flash.bytesRead) <= unit.flash.bytesRead
    {
      MemoryIsPages(unit.flash.memory);
      hide Programmed, Padded, Flash.Valid, Flash.Image, StoredUpTo;
      var info := GetFlashInfo();
      if addr + |image| > memorySize {
        return PastEnd;
      }
      ghost var was := unit.flash.Image();
      r := WritePackets(image, addr);
      if r == Done && addr % PACKET_SIZE == 0 {
        AlignedIsStored(unit.flash.Image(), was, addr, image);
      }
    }

    /** verify_image. What lies past the memory reads as anything. */
    method VerifyImage(image: Bytes, addr: nat) returns (r: Outcome)
      requires Valid() && Knows()
      modifies unit.flash
      ensures Valid() && Knows() && (r.Done? || r.Timeout? || r.VerifyFailed?) && (unit.lossless ==> !r.Timeout?)
      ensures unit.flash.cells == old(unit.flash.cells) && unit.flash.erasing == old(unit.flash.erasing)
      ensures r.Done? && addr + |image| <= unit.flash.memory ==> unit.flash.cells[addr..addr + |image|] == image
      ensures r.VerifyFailed? && addr + |image| <= unit.flash.memory ==>
                unit.flash.cells[addr..addr + |image|] != image
      ensures old(unit.flash.bytesRead) <= unit.flash.bytesRead
      ensures r.Done? ==> unit.flash.bytesRead == old(unit.flash.bytesRead) + |image|
    {
      var flash := unit.flash;
      var readSize: int, readData: Bytes, a := |image|, [], addr;
      while readSize > 0
        invariant Valid() && Knows() && flash.cells == old(flash.cells) && flash.erasing == old(flash.erasing)
        invariant readSize > 0 ==> a == addr + |readData| && |readData| + readSize == |image|
        invariant readSize <= 0 ==> |readData| == |image|
        invariant addr + |image| <= flash.memory ==> readData == flash.cells[addr..addr + |readData|]
        invariant flash.bytesRead == old(flash.bytesRead) + |readData|
        decreases readSize
      {
        var thisReadSize := if readSize < PACKET_SIZE then readSize else PACKET_SIZE;
        var reply := unit.Exchange(ReadFlash(a, thisReadSize), Job([], 0, 0));
        if reply == None {
          return Timeout;
        }
        if !reply.value.HeresData? {
          return InvalidReply;
        }
        readData := readData + reply.value.data[..thisReadSize];
        readSize := readSize - PACKET_SIZE;
        a := a + PACKET_SIZE;
      }
      return if readData != image then VerifyFailed else Done;
    }

    /** What burn_fw does for one image that it has accepted. */
    method BurnSlot(image: Bytes, addr: nat, size: nat) returns (r: Outcome)
      requires Valid() && Knows() && addr % PACKET_SIZE == 0 && size % PACKET_SIZE == 0
      requires 0 < size && |image| <= size && addr + size < UINT32
      modifies this, unit.flash
      ensures Valid() && Knows() && (r.Done? || r.Timeout? || r.PastEnd?) && (unit.lossless ==> !r.Timeout?)
      ensures r.PastEnd? <==> addr + size > unit.flash.memory
      ensures r.PastEnd? ==> unit.flash.Image() == old(unit.flash.Image())
      ensures !r.PastEnd? ==>
                SameOutside(unit.flash.Image(), old(unit.flash.Image()),
                            unit.flash.EraseStart(addr), unit.flash.EraseEnd(addr, size))
      ensures r.Done? ==> unit.flash.erasing == None && Holds(unit.flash.Image(), addr, size, image)
      ensures old(unit.flash.bytesRead) <= unit.flash.bytesRead
      ensures r.Done? ==> old(unit.flash.bytesRead) + |image| <= unit.flash.bytesRead
    {
      ghost var was := unit.flash.Image();
      if addr + size <= unit.flash.memory {
        unit.flash.EraseFits(addr, size);
      }
      hide Flash.Valid, Flash.Image, Flash.EraseStart, Flash.EraseEnd, Programmed, Erased, Padded, SlotContents;
      r := EraseImage(addr, size);
      if r != Done {
        return;
      }
      ghost var lo, hi := unit.flash.EraseStart(addr), unit.flash.EraseEnd(addr, size);
      PaddedFits(0, image, size);
      BurnedSlot(was, lo, hi, addr, size, image);
      r := WriteImage(image, addr);
      StillWithin(unit.flash.Image(), Erased(was, lo, hi), was, lo, hi, addr, |Padded(image)|);
      if r != Done {
        return;
      }
      HoldsImage(unit.flash.Image(), addr, size, image);
      unit.flash.IdleImage();
      r := VerifyImage(image, addr);
    }

    /** get_hw_rev */
    method GetHwRev() returns (rev: Option<int>)
      requires Valid()
      modifies unit.flash
      ensures Valid() && (rev.Some? ==> rev.value == unit.hwRev) && (unit.lossless ==> rev.Some?)
      ensures unit.flash.cells == old(unit.flash.cells) && unit.flash.erasing == old(unit.flash.erasing)
      ensures old(unit.flash.bytesRead) <= unit.flash.bytesRead
    {
      var reply := unit.Exchange(HwRev, Job([], 0, 0));
      if reply == None {
        return None;
      }
      return Some(if reply.value.HeresHwRev? then reply.value.rev else 0);
    }

    /** reset_smini: a unit that answers has failed to reset. */
    method ResetUnit() returns (r: Outcome)
      requires Valid()
      modifies unit.flash, unit`restarts
      ensures Valid() && (r.Done? || r.NotReset?)
      ensures unit.flash.cells == old(unit.flash.cells) && unit.flash.erasing == old(unit.flash.erasing)
      ensures unit.flash.bytesRead == old(unit.flash.bytesRead)
      ensures unit.restarts in {old(unit.restarts), old(unit.restarts) + 1}
      ensures r.NotReset? ==> unit.restarts == old(unit.restarts)
      ensures unit.lossless ==> (r.Done? <==> unit.restarts == old(unit.restarts) + 1)
    {
      var reply := unit.ExchangeReset();
      return if reply == Some(Resetting) then NotReset else Done;
    }

    /** burn_fw. Whatever is lost, only the sectors of the chosen slots can change; and if it returns, each
        chosen slot holds its image, the zeros that fill up the last packet, and ones. The verification
        never finds a difference. */
    method BurnFw(fw: Option<Bytes>, fpga: Option<FpgaFile>, reset: bool, safe: bool, checkRev: bool)
      returns (r: Outcome)
      requires Valid()
      modifies this, unit.flash, unit`restarts
      ensures Valid() && r != VerifyFailed && r != InvalidReply
      ensures r in {Done, NotReset} ==> Burned(unit.flash.cells, fw, fpga, safe, checkRev)
      ensures OnlySlots(unit.flash.Image(), old(unit.flash.Image()), fpga.Some?, fw.Some?, safe)
      ensures !safe ==> SafeSlotsKept(unit.flash.Image(), old(unit.flash.Image()))
      ensures fpga.Some? && !RevisionFits(unit.hwRev, fpga.value.path, checkRev) ==>
                && r in {WrongRevision, UnknownRevision, Timeout} && (unit.lossless ==> !r.Timeout?)
                && unit.flash.Image() == old(unit.flash.Image())
      ensures r.WrongRevision? || r.UnknownRevision? ==>
                && fpga.Some? && !RevisionFits(unit.hwRev, fpga.value.path, checkRev)
                && (r.WrongRevision? <==> unit.hwRev in REVISIONS)
      ensures unit.lossless && Fits(fw, fpga, safe, checkRev) ==> r == Done || (reset && r == NotReset)
      ensures r in {Done, NotReset} ==> old(unit.flash.bytesRead) + SizeOf(fpga, fw) <= unit.flash.bytesRead
      ensures unit.restarts <= old(unit.restarts) + 1 && (!reset || r.NotReset? ==> unit.restarts == old(unit.restarts))
      ensures unit.lossless && reset && r.Done? ==> unit.restarts == old(unit.restarts) + 1
    {
      hide Burned, Fits, RevisionFits, OnlySlots, SafeSlotsKept, SizeOf;
      r := BurnImages(fw, fpga, safe, checkRev);
      if r == Done && reset {
        r := ResetUnit();
      }
    }

    /** Each chosen slot holds its image, which fits it. */
    ghost predicate Burned(cells: Bytes, fw: Option<Bytes>, fpga: Option<FpgaFile>, safe: bool, checkRev: bool) {
      && (fpga.Some? ==> FpgaBurned(cells, unit.hwRev, fpga.value, safe, checkRev))
      && (fw.Some? ==> FwBurned(cells, fw.value, safe))
      && Fits(fw, fpga, safe, checkRev)
    }

    ghost predicate Fits(fw: Option<Bytes>, fpga: Option<FpgaFile>, safe: bool, checkRev: bool) {
      && (fpga.Some? ==> FpgaFits(fpga.value, unit.flash.memory, unit.hwRev, safe, checkRev))
      && (fw.Some? ==> FwFits(fw.value, unit.flash.memory, safe))
    }

    /** burn_fw without the reset at its end. */
    method BurnImages(fw: Option<Bytes>, fpga: Option<FpgaFile>, safe: bool, checkRev: bool) returns (r: Outcome)
      requires Valid()
      modifies this, unit.flash
      ensures Valid() && r != VerifyFailed && r != InvalidReply && r != NotReset
      ensures r.Done? ==> Burned(unit.flash.cells, fw, fpga, safe, checkRev)
      ensures OnlySlots(unit.flash.Image(), old(unit.flash.Image()), fpga.Some?, fw.Some?, safe)
      ensures !safe ==> SafeSlotsKept(unit.flash.Image(), old(unit.flash.Image()))
      ensures fpga.Some? && !RevisionFits(unit.hwRev, fpga.value.path, checkRev) ==>
                && r in {WrongRevision, UnknownRevision, Timeout} && (unit.lossless ==> !r.Timeout?)
                && unit.flash.Image() == old(unit.flash.Image())
      ensures r.WrongRevision? || r.UnknownRevision? ==>
                && fpga.Some? && !RevisionFits(unit.hwRev, fpga.value.path, checkRev)
                && (r.WrongRevision? <==> unit.hwRev in REVISIONS)
      ensures unit.lossless && Fits(fw, fpga, safe, checkRev) ==> r.Done?
      ensures old(unit.flash.bytesRead) <= unit.flash.bytesRead
      ensures r.Done? ==> old(unit.flash.bytesRead) + SizeOf(fpga, fw) <= unit.flash.bytesRead
    {
      hide FpgaFits, FwFits, RevisionFits, SizeOf;
      hide FpgaBurned, FwBurned, OnlySlots, SafeSlotsKept, Flash.Valid;
      ghost var was := unit.flash.Image();
      SlotsUntouched(was, safe);
      r := GetFlashInfo();
      if r != Done {
        return;
      }
      var rev := GetHwRev();
      if rev == None {
        return Timeout;
      }
      r := BurnBoth(fw, fpga, rev.value, safe, checkRev);
      ProductionKeepsSafe(unit.flash.Image(), was, fpga.Some?, fw.Some?);
    }

    /** The two halves of burn_fw. */
    method BurnBoth(fw: Option<Bytes>, fpga: Option<FpgaFile>, hwRev: int, safe: bool, checkRev: bool)
      returns (r: Outcome)
      requires Valid() && Knows() && hwRev == unit.hwRev
      modifies this, unit.flash
      ensures Valid() && r != VerifyFailed && r != InvalidReply && r != NotReset
      ensures r.Done? && fpga.Some? ==> FpgaBurned(unit.flash.Image(), unit.hwRev, fpga.value, safe, checkRev)
      ensures r.Done? && fw.Some? ==> FwBurned(unit.flash.Image(), fw.value, safe)
      ensures r.Done? && (fpga.Some? || fw.Some?) ==> unit.flash.cells == unit.flash.Image()
      ensures OnlySlots(unit.flash.Image(), old(unit.flash.Image()), fpga.Some?, fw.Some?, safe)
      ensures fpga.Some? && !RevisionFits(unit.hwRev, fpga.value.path, checkRev) ==>
                r in {WrongRevision, UnknownRevision} && unit.flash.Image() == old(unit.flash.Image())
      ensures r.WrongRevision? || r.UnknownRevision? ==>
                && fpga.Some? && !RevisionFits(unit.hwRev, fpga.value.path, checkRev)
                && (r.WrongRevision? <==> unit.hwRev in REVISIONS)
      ensures && unit.lossless
              && (fpga.Some? ==> FpgaFits(fpga.value, unit.flash.memory, unit.hwRev, safe, checkRev))
              && (fw.Some? ==> FwFits(fw.value, unit.flash.memory, safe)) ==>
                r.Done?
      ensures r.Done? && fpga.Some? ==> FpgaFits(fpga.value, unit.flash.memory, unit.hwRev, safe, checkRev)
      ensures r.Done? && fw.Some? ==> FwFits(fw.value, unit.flash.memory, safe)
      ensures old(unit.flash.bytesRead) <= unit.flash.bytesRead
      ensures r.Done? ==> old(unit.flash.bytesRead) + SizeOf(fpga, fw) <= unit.flash.bytesRead
    {
      hide FpgaFits, FwFits, RevisionFits;
      hide FpgaBurned, FwBurned, OnlySlots, Flash.Valid, Flash.Image;
      ghost var was := unit.flash.Image();
      SlotsUntouched(was, safe);
      r := Done;
      if fpga.Some? {
        r := BurnFpga(fpga.value, hwRev, safe, checkRev);
        if r != Done {
          SlotsJoin(unit.flash.Image(), unit.flash.Image(), was, true, fw.Some?, safe);
          return;
        }
        unit.flash.IdleImage();
      }
      ghost var between := unit.flash.Image();
      if fw.Some? {
        r := BurnFirmware(fw.value, safe);
        SlotsJoin(unit.flash.Image(), between, was, fpga.Some?, true, safe);
        if r != Done {
          return;
        }
        unit.flash.IdleImage();
        if fpga.Some? {
          FpgaStays(unit.flash.Image(), between, unit.hwRev, fpga.value, safe, checkRev);
        }
      }
    }

    /** The FPGA half of burn_fw. Each refusal has its exact condition, and changes nothing. */
    method BurnFpga(file: FpgaFile, hwRev: int, safe: bool, checkRev: bool) returns (r: Outcome)
      requires Valid() && Knows() && hwRev == unit.hwRev
      modifies this, unit.flash
      ensures Valid() && Knows()
      ensures r in {Done, Timeout, UnknownRevision, WrongRevision, TooLarge, InvalidImage, PastEnd}
      ensures OnlySlots(unit.flash.Image(), old(unit.flash.Image()), true, false, safe)
      ensures r.Done? ==> unit.flash.erasing == None && FpgaBurned(unit.flash.Image(), hwRev, file, safe, checkRev)
      ensures r.UnknownRevision? <==> checkRev && hwRev != 0 && hwRev !in REVISIONS
      ensures r.WrongRevision? <==> !RevisionFits(hwRev, file.path, checkRev) && hwRev in REVISIONS
      ensures r.TooLarge? <==> RevisionFits(hwRev, file.path, checkRev) && |file.image| > FPGA_IMAGE_SIZE
      ensures r.InvalidImage? <==> && RevisionFits(hwRev, file.path, checkRev) && |file.image| <= FPGA_IMAGE_SIZE
                                   && !HasSync(file.image)
      ensures r.PastEnd? <==> && RevisionFits(hwRev, file.path, checkRev) && |file.image| <= FPGA_IMAGE_SIZE
                              && HasSync(file.image) && FpgaAddr(safe) + FPGA_IMAGE_SIZE > unit.flash.memory
      ensures r in {UnknownRevision, WrongRevision} <==> !RevisionFits(hwRev, file.path, checkRev)
      ensures r.Done? || r.Timeout? <==> FpgaFits(file, unit.flash.memory, hwRev, safe, checkRev)
      ensures !r.Done? && !r.Timeout? ==> unit.flash.Image() == old(unit.flash.Image())
      ensures unit.lossless ==> !r.Timeout?
      ensures old(unit.flash.bytesRead) <= unit.flash.bytesRead
      ensures r.Done? ==> old(unit.flash.bytesRead) + |file.image| <= unit.flash.bytesRead
    {
      CheckIsRevisionFits(hwRev, file.path, checkRev);
      SyncIsSomewhere(file.image, 0);
      hide RevisionFits, RevisionCheck, HasSync;
      hide Flash.Valid, Flash.Image, Flash.EraseStart, Flash.EraseEnd;
      hide Programmed, Erased, Padded, Holds, IsValidFpgaImage;
      r := RevisionCheck(hwRev, file.path, checkRev);
      if r != Done {
        return;
      }
      if |file.image| > FPGA_IMAGE_SIZE {
        return TooLarge;
      }
      if !IsValidFpgaImage(file.image) {
        return InvalidImage;
      }
      if |file.image| + FpgaAddr(safe) > memorySize {
        return PastEnd;
      }
      if FpgaAddr(safe) + FPGA_IMAGE_SIZE <= unit.flash.memory {
        unit.flash.EraseWithin(FpgaAddr(safe), FPGA_IMAGE_SIZE, FpgaAddr(safe), FpgaAddr(safe) + FPGA_IMAGE_SIZE);
      }
      r := BurnSlot(file.image, FpgaAddr(safe), FPGA_IMAGE_SIZE);
      if r == Done {
        HeldFits(unit.flash.Image(), FpgaAddr(safe), FPGA_IMAGE_SIZE, file.image);
        BootsWhatWasAccepted(unit.flash.Image(), FpgaAddr(safe), file.image);
      }
    }

    /** The firmware half of burn_fw. */
    method BurnFirmware(fw: Bytes, safe: bool) returns (r: Outcome)
      requires Valid() && Knows()
      modifies this, unit.flash
      ensures Valid() && Knows() && r != VerifyFailed && r != InvalidReply
      ensures OnlySlots(unit.flash.Image(), old(unit.flash.Image()), false, true, safe)
      ensures r.Done? ==> unit.flash.erasing == None && FwBurned(unit.flash.Image(), fw, safe)
      ensures r.TooLarge? <==> |fw| > FW_IMAGE_SIZE
      ensures r.InvalidImage? <==> |fw| <= FW_IMAGE_SIZE && !([0x0B, 0x0B, 0x0B, 0x0B] <= fw)
      ensures r.PastEnd? <==> && |fw| <= FW_IMAGE_SIZE && [0x0B, 0x0B, 0x0B, 0x0B] <= fw
                              && FwAddr(safe) + FW_IMAGE_SIZE > unit.flash.memory
      ensures r in {Done, Timeout, TooLarge, InvalidImage, PastEnd}
      ensures r.Done? || r.Timeout? <==> FwFits(fw, unit.flash.memory, safe)
      ensures !r.Done? && !r.Timeout? ==> unit.flash.Image() == old(unit.flash.Image())
      ensures unit.lossless ==> !r.Timeout?
      ensures old(unit.flash.bytesRead) <= unit.flash.bytesRead
      ensures r.Done? ==> old(unit.flash.bytesRead) + |fw| <= unit.flash.bytesRead
    {
      MagicIsPrefix(fw);
      hide Flash.Valid, Flash.Image, Flash.EraseStart, Flash.EraseEnd;
      hide Programmed, Erased, Padded, Holds, IsValidFwImage;
      if |fw| > FW_IMAGE_SIZE {
        return TooLarge;
      }
      if !IsValidFwImage(fw) {
        return InvalidImage;
      }
      if |fw| + FwAddr(safe) > memorySize {
        return PastEnd;
      }
      if FwAddr(safe) + FW_IMAGE_SIZE <= unit.flash.memory {
        unit.flash.EraseWithin(FwAddr(safe), FW_IMAGE_SIZE, FwSpan(safe), FwSpan(safe) + SPAN);
      }
      r := BurnSlot(fw, FwAddr(safe), FW_IMAGE_SIZE);
      if r == Done {
        HeldFits(unit.flash.Image(), FwAddr(safe), FW_IMAGE_SIZE, fw);
        BootsFirmwareThatWasAccepted(unit.flash.Image(), FwAddr(safe), fw);
      }
    }
  }

  // ---------- images and slots ----------

  datatype FpgaFile = FpgaFile(path: string, image: Bytes)

  /** How many bytes the images have. */
  function SizeOf(fpga: Option<FpgaFile>, fw: Option<Bytes>): nat {
    (if fpga.Some? then |fpga.value.image| else 0) + if fw.Some? then |fw.value| else 0
  }

  function FpgaAddr(safe: bool): nat { if safe then SAFE_FPGA_ADDR else PROD_FPGA_ADDR }

  function FwAddr(safe: bool): nat { if safe then SAFE_FW_ADDR else PROD_FW_ADDR }

  /** Where the largest sector that a firmware slot can lie in starts. */
  function FwSpan(safe: bool): nat { if safe then 0x3C_0000 else PROD_FW_ADDR }

  ghost predicate InFpgaSlot(safe: bool, i: nat) {
    FpgaAddr(safe) <= i < FpgaAddr(safe) + FPGA_IMAGE_SIZE
  }

  ghost predicate InFwSlot(safe: bool, i: nat) {
    FwSpan(safe) <= i < FwSpan(safe) + SPAN
  }

  /** Nothing has changed but the sectors of the slots that were chosen. */
  ghost predicate OnlySlots(now: Bytes, was: Bytes, fpga: bool, fw: bool, safe: bool) {
    && |now| == |was|
    && forall i :: 0 <= i < |now| && !(fpga && InFpgaSlot(safe, i)) && !(fw && InFwSlot(safe, i)) ==> now[i] == was[i]
  }

  /** Neither the safe FPGA image nor the safe firmware has changed. */
  ghost predicate SafeSlotsKept(now: Bytes, was: Bytes) {
    && |now| == |was|
    && (forall i :: SAFE_FPGA_ADDR <= i < SAFE_FPGA_ADDR + FPGA_IMAGE_SIZE && i < |now| ==> now[i] == was[i])
    && (forall i :: SAFE_FW_ADDR <= i < |now| ==> now[i] == was[i])
  }

  /** The slot holds the image, which passed every check, and which the bootloader takes. */
  ghost predicate FpgaBurned(cells: Bytes, hwRev: int, file: FpgaFile, safe: bool, checkRev: bool) {
    && RevisionFits(hwRev, file.path, checkRev) && IsValidFpgaImage(file.image)
    && Holds(cells, FpgaAddr(safe), FPGA_IMAGE_SIZE, file.image) && BootsFpga(cells, FpgaAddr(safe))
  }

  ghost predicate FwBurned(cells: Bytes, fw: Bytes, safe: bool) {
    && IsValidFwImage(fw)
    && Holds(cells, FwAddr(safe), FW_IMAGE_SIZE, fw) && BootsFw(cells, FwAddr(safe))
  }

  predicate Contains(s: string, part: string) {
    exists i :: 0 <= i <= |s| - |part| && OccursAt(s, part, i)
  }

  predicate OccursAt(s: string, part: string, i: nat)
    requires i + |part| <= |s|
  {
    s[i..i + |part|] == part
  }

  /** The check of the FPGA image's name against the revision of the hardware. */
  function RevisionCheck(hwRev: int, path: string, checkRev: bool): Outcome {
    if !checkRev || hwRev == 0 then Done
    else if hwRev !in REVISIONS then UnknownRevision
    else if exists k :: 0 <= k < |REVISIONS[hwRev]| && Contains(path, REVISIONS[hwRev][k]) then Done
    else WrongRevision
  }

  /** Unless the check is switched off, or the hardware has no revision, one of the names of the hardware's
      revision stands somewhere in the path. */
  ghost predicate RevisionFits(hwRev: int, path: string, checkRev: bool) {
    checkRev && hwRev != 0 ==>
      hwRev in REVISIONS && exists name, i: nat :: name in REVISIONS[hwRev] && i <= |path| && name <= path[i..]
  }

  lemma ContainsIsPrefix(s: string, part: string)
    ensures Contains(s, part) <==> exists i: nat :: i <= |s| && part <= s[i..]
  {
    if Contains(s, part) {
      var i :| 0 <= i <= |s| - |part| && OccursAt(s, part, i);
      assert s[i..][..|part|] == s[i..i + |part|];
    }
    if i: nat :| i <= |s| && part <= s[i..] {
      assert s[i..][..|part|] == s[i..i + |part|];
      assert OccursAt(s, part, i);
    }
  }

  lemma CheckIsRevisionFits(hwRev: int, path: string, checkRev: bool)
    ensures RevisionCheck(hwRev, path, checkRev) == Done <==> RevisionFits(hwRev, path, checkRev)
    ensures RevisionCheck(hwRev, path, checkRev) == UnknownRevision <==> checkRev && hwRev != 0 && hwRev !in REVISIONS
    ensures RevisionCheck(hwRev, path, checkRev) in {Done, UnknownRevision, WrongRevision}
  {
    hide Contains;
    if checkRev && hwRev != 0 && hwRev in REVISIONS {
      if RevisionFits(hwRev, path, checkRev) {
        var name, i: nat :| name in REVISIONS[hwRev] && i <= |path| && name <= path[i..];
        ContainsIsPrefix(path, name);
      }
      if k :| 0 <= k < |REVISIONS[hwRev]| && Contains(path, REVISIONS[hwRev][k]) {
        var name := REVISIONS[hwRev][k];
        ContainsIsPrefix(path, name);
        var i: nat :| i <= |path| && name <= path[i..];
        assert name in REVISIONS[hwRev];
      }
    }
  }

  /** The sync word stands among the first 64 bytes. */
  ghost predicate HasSync(image: Bytes) {
    exists k :: 0 <= k < 63 && SyncAt(image, k)
  }

  /** An FPGA image that is accepted, for a flash of this size. */
  ghost predicate FpgaFits(file: FpgaFile, memory: nat, hwRev: int, safe: bool, checkRev: bool) {
    && RevisionFits(hwRev, file.path, checkRev) && |file.image| <= FPGA_IMAGE_SIZE && HasSync(file.image)
    && FpgaAddr(safe) + FPGA_IMAGE_SIZE <= memory
  }

  ghost predicate FwFits(fw: Bytes, memory: nat, safe: bool) {
    |fw| <= FW_IMAGE_SIZE && [0x0B, 0x0B, 0x0B, 0x0B] <= fw && FwAddr(safe) + FW_IMAGE_SIZE <= memory
  }

  lemma MagicIsPrefix(fw: Bytes)
    ensures IsValidFwImage(fw) <==> [0x0B, 0x0B, 0x0B, 0x0B] <= fw
  {}

  /** The loop of is_valid_fpga_image: Python slices past the end are empty. */
  function SyncFrom(image: Bytes, i: nat): bool
    decreases 63 - i, image
  {
    if i >= 63 then false
    else if i < |image| && image[i] == 0xFF then SyncFrom(image, i + 1)
    else if i + 1 < |image| && image[i] == 0xAA && image[i + 1] == 0x99 then true
    else SyncFrom(image, i + 1)
  }

  predicate IsValidFpgaImage(image: Bytes) {
    SyncFrom(image, 0)
  }

  predicate IsValidFwImage(image: Bytes) {
    |image| >= 4 && image[..4] == [0x0B, 0x0B, 0x0B, 0x0B]
  }

  // ---------- what the bootloader makes of a slot ----------

  /** is_valid_fpga_image of the bootloader, on the 64 bytes it reads. */
  function BootSync(buffer: Bytes, i: nat): bool
    requires |buffer| == 64
    decreases 63 - i, buffer
  {
    if i >= 63 then false
    else if buffer[i] == 0xFF then BootSync(buffer, i + 1)
    else if buffer[i] == 0xAA && buffer[i + 1] == 0x99 then true
    else BootSync(buffer, i + 1)
  }

  predicate BootsFpga(cells: Bytes, addr: nat)
    requires addr + 64 <= |cells|
  {
    BootSync(cells[addr..addr + 64], 0)
  }

  predicate BootsFw(cells: Bytes, addr: nat)
    requires addr + 4 <= |cells|
  {
    cells[addr..addr + 4] == [0x0B, 0x0B, 0x0B, 0x0B]
  }

  lemma {:induction false} SyncIsSomewhere(image: Bytes, i: nat)
    ensures SyncFrom(image, i) <==> exists k :: i <= k < 63 && SyncAt(image, k)
    decreases 63 - i
  {
    if i < 63 {
      SyncIsSomewhere(image, i + 1);
      assert SyncAt(image, i) ==> SyncFrom(image, i);
      if SyncFrom(image, i) && !SyncAt(image, i) {
        var k :| i + 1 <= k < 63 && SyncAt(image, k);
        assert i <= k < 63;
      }
    }
  }

  predicate SyncAt(image: Bytes, k: nat) {
    k + 1 < |image| && image[k] == 0xAA && image[k + 1] == 0x99
  }

  lemma {:induction false} BootSyncIsSync(buffer: Bytes, i: nat)
    requires |buffer| == 64
    ensures BootSync(buffer, i) == SyncFrom(buffer, i)
    decreases 63 - i
  {
    if i < 63 {
      BootSyncIsSync(buffer, i + 1);
    }
  }

  lemma SlotBytes(cells: Bytes, addr: nat, size: nat, image: Bytes, k: nat)
    requires Holds(cells, addr, size, image) && k < size
    ensures k < |image| ==> cells[addr + k] == image[k]
    ensures k >= |image| ==> cells[addr + k] == 0 || cells[addr + k] == 0xFF
  {
    assert cells[addr + k] == SlotContents(image, size)[k];
  }

  /** Neither the zeros nor the ones that follow an image complete a sync word. */
  lemma BootsWhatWasAccepted(cells: Bytes, addr: nat, image: Bytes)
    requires Holds(cells, addr, FPGA_IMAGE_SIZE, image)
    ensures BootsFpga(cells, addr) <==> IsValidFpgaImage(image)
  {
    var slot := SlotContents(image, FPGA_IMAGE_SIZE);
    var buffer := cells[addr..addr + 64];
    BootSyncIsSync(buffer, 0);
    SyncIsSomewhere(buffer, 0);
    SyncIsSomewhere(image, 0);
    forall k | 0 <= k < 63 ensures SyncAt(buffer, k) <==> SyncAt(image, k) {
      SlotBytes(cells, addr, FPGA_IMAGE_SIZE, image, k);
      SlotBytes(cells, addr, FPGA_IMAGE_SIZE, image, k + 1);
    }
  }

  lemma BootsFirmwareThatWasAccepted(cells: Bytes, addr: nat, image: Bytes)
    requires Holds(cells, addr, FW_IMAGE_SIZE, image)
    ensures BootsFw(cells, addr) <==> IsValidFwImage(image)
  {
    forall k | 0 <= k < 4
      ensures k < |image| ==> cells[addr + k] == image[k]
      ensures k >= |image| ==> cells[addr + k] != 0x0B
    {
      SlotBytes(cells, addr, FW_IMAGE_SIZE, image, k);
    }
    assert cells[addr..addr + 4] == [cells[addr], cells[addr + 1], cells[addr + 2], cells[addr + 3]];
    if |image| >= 4 {
      assert image[..4] == [image[0], image[1], image[2], image[3]];
    }
  }

  /** The host accepts firmware of up to 31744 bytes, but the bootloader loads 16383: it loads the whole
      image if and only if the image is no longer than that. */
  lemma BootLoadsWholeFirmware(cells: Bytes, addr: nat, image: Bytes)
    requires Holds(cells, addr, FW_IMAGE_SIZE, image)
    ensures image <= cells[addr..addr + BOOT_FW_SIZE] <==> |image| <= 0x3FFF
  {
    forall k | 0 <= k < |image| && k < BOOT_FW_SIZE ensures cells[addr + k] == image[k] {
      SlotBytes(cells, addr, FW_IMAGE_SIZE, image, k);
    }
  }

  // ---------- lemmas for the burner ----------

  lemma BurnedSlot(was: Bytes, lo: nat, hi: nat, addr: nat, size: nat, image: Bytes)
    requires lo <= addr && addr + size <= hi <= |was| && |Padded(image)| <= size
    ensures SameOutside(Erased(was, lo, hi), was, lo, hi)
    ensures Holds(Programmed(Erased(was, lo, hi), addr, Padded(image)), addr, size, image)
  {
    hide Padded, Programmed, Erased;
    var e := Erased(was, lo, hi);
    ProgramErased(e, addr, Padded(image));
    assert Replaced(e, addr, Padded(image))[addr..addr + size] == SlotContents(image, size);
  }

  lemma StillWithin(now: Bytes, between: Bytes, was: Bytes, lo: nat, hi: nat, addr: nat, n: nat)
    requires SameOutside(now, between, addr, addr + n) && SameOutside(between, was, lo, hi)
    requires lo <= addr && addr + n <= hi
    ensures SameOutside(now, was, lo, hi)
  {}

  lemma SlotsUntouched(was: Bytes, safe: bool)
    ensures forall fpga, fw :: OnlySlots(was, was, fpga, fw, safe)
    ensures SafeSlotsKept(was, was)
  {}

  lemma ProductionKeepsSafe(now: Bytes, was: Bytes, fpga: bool, fw: bool)
    ensures OnlySlots(now, was, fpga, fw, false) ==> SafeSlotsKept(now, was)
  {}

  lemma SlotsJoin(now: Bytes, between: Bytes, was: Bytes, fpga: bool, fw: bool, safe: bool)
    requires OnlySlots(now, between, false, fw, safe) || now == between
    requires OnlySlots(between, was, fpga, false, safe)
    ensures OnlySlots(now, was, fpga, fw, safe)
  {}

  lemma HeldFits(cells: Bytes, addr: nat, size: nat, image: Bytes)
    requires Holds(cells, addr, size, image)
    ensures addr + size <= |cells|
  {}

  lemma StillHolds(now: Bytes, before: Bytes, addr: nat, size: nat, image: Bytes)
    requires Holds(before, addr, size, image)
    requires |now| == |before| && forall i :: addr <= i < addr + size ==> now[i] == before[i]
    ensures Holds(now, addr, size, image)
  {
    assert now[addr..addr + size] == before[addr..addr + size];
  }

  /** The firmware lies outside the FPGA slots. */
  lemma FpgaStays(now: Bytes, before: Bytes, hwRev: int, file: FpgaFile, safe: bool, checkRev: bool)
    requires FpgaBurned(before, hwRev, file, safe, checkRev) && OnlySlots(now, before, false, true, safe)
    ensures FpgaBurned(now, hwRev, file, safe, checkRev)
  {
    StillHolds(now, before, FpgaAddr(safe), FPGA_IMAGE_SIZE, file.image);
    BootsWhatWasAccepted(now, FpgaAddr(safe), file.image);
  }

  lemma HoldsImage(cells: Bytes, addr: nat, size: nat, image: Bytes)
    requires Holds(cells, addr, size, image)
    ensures addr + |image| <= |cells| && cells[addr..addr + |image|] == image
  {
    assert cells[addr..addr + size][..|image|] == cells[addr..addr + |image|];
  }

  lemma PaddedFits(addr: nat, image: Bytes, memory: nat)
    requires addr % PACKET_SIZE == 0 && memory % PACKET_SIZE == 0 && addr + |image| <= memory
    ensures addr + |Padded(image)| <= memory
  {
    PaddedIsPackets(image);
  }

  /** `done` bytes make whole packets of the image. */
  ghost predicate Packets(image: Bytes, done: nat) {
    done % PACKET_SIZE == 0 && done <= |Padded(image)|
  }

  lemma MorePackets(image: Bytes, done: nat)
    requires Packets(image, done) && done < |image|
    ensures Packets(image, done + PACKET_SIZE)
  {
    PaddedIsPackets(image);
    NextWhole(|Padded(image)|, done);
  }

  lemma NextWhole(n: nat, done: nat)
    requires n % PACKET_SIZE == 0 && done % PACKET_SIZE == 0 && done < n
    ensures done + PACKET_SIZE <= n && (done + PACKET_SIZE) % PACKET_SIZE == 0
  {}

  lemma AllPackets(image: Bytes, done: nat)
    requires Packets(image, done) && done >= |image|
    ensures done == |Padded(image)|
  {
    PaddedIsPackets(image);
  }

  /** What is in the flash once `done` bytes of packets have been sent: all of them, unless the last one ended
      past the memory. */
  ghost predicate StoredUpTo(now: Bytes, was: Bytes, addr: nat, image: Bytes, done: nat) {
    var landed := if addr + done <= |was| || done < PACKET_SIZE then done else done - PACKET_SIZE;
    && landed <= |Padded(image)| && addr + landed <= |was|
    && now == Programmed(was, addr, Padded(image)[..landed])
  }

  /** The unit refuses data that ends past its memory. */
  function Landed(f: Bytes, a: nat, packet: Bytes): (r: Bytes)
    ensures |r| == |f|
  {
    if a + |packet| <= |f| then Programmed(f, a, packet) else f
  }

  /** What a packet does, be it handled or lost. */
  lemma PacketLands(was: Bytes, addr: nat, image: Bytes, done: nat, packet: Bytes)
    requires done < |image| && addr + |image| <= |was|
    requires |packet| == PACKET_SIZE && done + PACKET_SIZE <= |Padded(image)|
    requires Padded(image)[..done] + packet == Padded(image)[..done + PACKET_SIZE]
    ensures var before := Programmed(was, addr, Padded(image)[..done]);
            var now := Landed(before, addr + done, packet);
            && SameOutside(before, was, addr, addr + |Padded(image)|)
            && SameOutside(now, was, addr, addr + |Padded(image)|)
            && StoredUpTo(now, was, addr, image, done + PACKET_SIZE)
  {
    hide Programmed, Padded;
    ProgrammedPrefix(was, addr, Padded(image), done);
    if addr + done + PACKET_SIZE <= |was| {
      ProgrammedPrefix(was, addr, Padded(image), done + PACKET_SIZE);
      ProgrammedTwice(was, addr, Padded(image)[..done], packet);
    }
  }

  lemma NothingStored(was: Bytes, addr: nat, image: Bytes)
    requires addr + |image| <= |was|
    ensures StoredUpTo(was, was, addr, image, 0)
  {
    ProgramNothing(was, addr);
    assert Padded(image)[..0] == [];
  }

  /** While some of the image is left to send, everything has been stored. */
  lemma StoredSoFar(now: Bytes, was: Bytes, addr: nat, image: Bytes, done: nat)
    requires StoredUpTo(now, was, addr, image, done) && done < |image| && addr + |image| <= |was|
    ensures now == Programmed(was, addr, Padded(image)[..done])
    ensures SameOutside(now, was, addr, addr + |Padded(image)|)
  {
    hide Programmed, Padded;
    ProgrammedPrefix(was, addr, Padded(image), done);
  }

  lemma StoredWithin(now: Bytes, was: Bytes, addr: nat, image: Bytes, done: nat)
    requires StoredUpTo(now, was, addr, image, done)
    ensures SameOutside(now, was, addr, addr + |Padded(image)|)
  {
    hide Programmed, Padded;
    var landed := if addr + done <= |was| || done < PACKET_SIZE then done else done - PACKET_SIZE;
    ProgrammedPrefix(was, addr, Padded(image), landed);
  }

  lemma AlignedIsStored(now: Bytes, was: Bytes, addr: nat, image: Bytes)
    requires StoredUpTo(now, was, addr, image, |Padded(image)|) && addr + |image| <= |was|
    requires addr % PACKET_SIZE == 0 && |was| % PACKET_SIZE == 0
    ensures addr + |Padded(image)| <= |was| && now == Programmed(was, addr, Padded(image))
  {
    PaddedFits(addr, image, |was|);
    assert Padded(image)[..|Padded(image)|] == Padded(image);
  }

  lemma ProgrammedPrefix(f: Bytes, a: nat, d: Bytes, n: nat)
    requires n <= |d| && a + n <= |f|
    ensures SameOutside(Programmed(f, a, d[..n]), f, a, a + |d|)
  {}

  /** The packet sent for what is left of the image from `done` on. */
  lemma NextPacket(image: Bytes, done: nat)
    requires done < |image| && Packets(image, done)
    ensures done + PACKET_SIZE <= |Padded(image)|
    ensures Padded(image)[..done] + PacketOf(image[done..]) == Padded(image)[..done + PACKET_SIZE]
  {
    MorePackets(image, done);
    var padded, packet := Padded(image), PacketOf(image[done..]);
    forall k | 0 <= k < PACKET_SIZE ensures padded[done + k] == packet[k] {
      PaddedAt(image, done + k);
      PacketOfAt(image[done..], k);
    }
    hide Padded, PacketOf, Packets;
  }
}
