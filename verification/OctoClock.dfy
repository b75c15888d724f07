/** Burning an OctoClock over a network that may lose, repeat, reorder and delay packets: the host
    utility, the bootloader it talks to, and the link between them. */
module OctoClock {
  import opened Wrappers
  import opened Crc16

  const BLOCK_SIZE := 256
  const MAX_FIRMWARE_SIZE := 1024 * 120
  const FLASH_SIZE := 0x2_0000
  const UINT16 := 0x1_0000
  const UINT32 := 0x1_0000_0000

  /** The packets the host sends to the firmware port. Addresses and lengths are 16 bits wide. */
  datatype Request =
    | Prepare(sequence: nat, crc: bv16, len: nat)
    | Transfer(sequence: nat, addr: nat, data: Bytes)
    | Read(sequence: nat, addr: nat)
    | Finalize(sequence: nat)
  {
    predicate WellFormed() {
      match this
      case Prepare(_, _, n) => n < UINT16
      case Transfer(_, a, d) => a < UINT16 && a % BLOCK_SIZE == 0 && |d| == BLOCK_SIZE
      case Read(_, a) => a < UINT16 && a % BLOCK_SIZE == 0
      case Finalize(_) => true
    }
  }

  datatype Code = FwBurnReadyAck | FileTransferAck | ReadFwAck | FinalizeBurningAck

  datatype Reply = Reply(sequence: nat, code: Code, data: Bytes)

  datatype CrcInfo = CrcInfo(fwLen: nat, fwCrc: bv16)

  datatype BurnResult = Burned | NotReady | BurnFailed

  datatype VerifyResult = Verified | NoReply | Mismatch

  // ---------- the device ----------

  function Page(flash: Bytes, addr: nat): Bytes
    requires addr + BLOCK_SIZE <= |flash|
  {
    flash[addr..addr + BLOCK_SIZE]
  }

  function WithPage(flash: Bytes, addr: nat, data: Bytes): (f: Bytes)
    requires addr + BLOCK_SIZE <= |flash| && |data| == BLOCK_SIZE
    ensures |f| == |flash|
  {
    flash[..addr] + data + flash[addr + BLOCK_SIZE..]
  }

  /** Pages at distinct block addresses do not touch each other. */
  lemma PageOfWithPage(flash: Bytes, a: nat, data: Bytes, b: nat)
    requires a + BLOCK_SIZE <= |flash| && b + BLOCK_SIZE <= |flash| && |data| == BLOCK_SIZE
    requires a % BLOCK_SIZE == 0 && b % BLOCK_SIZE == 0
    ensures Page(WithPage(flash, a, data), b) == if a == b then data else Page(flash, b)
  {
    var f := WithPage(flash, a, data);
    if a != b {
      assert a + BLOCK_SIZE <= b || b + BLOCK_SIZE <= a;
      assert forall k :: 0 <= k < BLOCK_SIZE ==> Page(f, b)[k] == flash[b + k];
    }
  }

  lemma SamePage(flash: Bytes, a: nat)
    requires a + BLOCK_SIZE <= |flash|
    ensures WithPage(flash, a, Page(flash, a)) == flash
  {}

  /** The bootloader: its flash, and what the burning commands leave in RAM and EEPROM. */
  class Bootloader {
    var flash: Bytes
    var crcInfo: CrcInfo
    var eeprom: CrcInfo
    var receivedCmd: bool
    var doneBurning: bool
    var appChecked: bool
    /** Set once the bootloader has jumped to the application. */
    var started: bool

    ghost predicate Valid()
      reads this
    {
      |flash| == FLASH_SIZE && crcInfo.fwLen < UINT16 && eeprom.fwLen < UINT16
    }

    /** handle_udp_fw_packet */
    method Handle(r: Request) returns (reply: Reply)
      requires Valid() && r.WellFormed() && !started
      modifies this
      ensures Valid() && !started && appChecked == old(appChecked)
      ensures receivedCmd == (r.Prepare? || old(receivedCmd))
      ensures doneBurning == (r.Finalize? || (!r.Prepare? && old(doneBurning)))
      ensures reply.sequence == r.sequence
      ensures match r
              case Prepare(_, crc, len) =>
                crcInfo == CrcInfo(len, crc) && flash == old(flash) && eeprom == old(eeprom)
                && reply.code == FwBurnReadyAck
              case Transfer(_, addr, data) =>
                flash == WithPage(old(flash), addr, data) && crcInfo == old(crcInfo) && eeprom == old(eeprom)
                && reply.code == FileTransferAck
              case Read(_, addr) =>
                flash == old(flash) && crcInfo == old(crcInfo) && eeprom == old(eeprom)
                && reply.code == ReadFwAck && reply.data == Page(flash, addr)
              case Finalize(_) =>
                eeprom == old(crcInfo) && flash == old(flash) && crcInfo == old(crcInfo)
                && reply.code == FinalizeBurningAck
    {
      match r {
        case Prepare(s, crc, len) =>
          receivedCmd := true;
          doneBurning := false;
          crcInfo := CrcInfo(len, crc);
          reply := Reply(s, FwBurnReadyAck, []);
        case Transfer(s, addr, data) =>
          flash := WithPage(flash, addr, data);
          reply := Reply(s, FileTransferAck, []);
        case Read(s, addr) =>
          reply := Reply(s, ReadFwAck, Page(flash, addr));
        case Finalize(s) =>
          doneBurning := true;
          eeprom := crcInfo;
          reply := Reply(s, FinalizeBurningAck, []);
      }
    }

    /** valid_app: the check that gates leaving the bootloader. The CRC it computes overwrites the one
        that was announced. */
    method ValidApp() returns (ok: bool)
      requires Valid()
      modifies this`crcInfo
      ensures Valid() && (ok <==> AppIsValid())
      ensures crcInfo == CrcInfo(old(crcInfo).fwLen, Crc(flash[..eeprom.fwLen]))
    {
      var crc := CalculateCrc(flash, eeprom.fwLen);
      crcInfo := crcInfo.(fwCrc := crc);
      return crc == eeprom.fwCrc;
    }

    /** One turn of the main loop, apart from the packet it may handle. */
    method Poll(timePassed: bool)
      requires Valid() && !started
      modifies this
      ensures Valid() && flash == old(flash) && eeprom == old(eeprom) && receivedCmd == old(receivedCmd)
      ensures started <==> old(Checks(timePassed)) && AppIsValid()
      ensures doneBurning <==> old(doneBurning) && started
      ensures appChecked <==> old(appChecked) || (timePassed && !receivedCmd && !(old(doneBurning) && AppIsValid()))
      ensures crcInfo == if old(Checks(timePassed)) then CrcInfo(old(crcInfo).fwLen, Crc(flash[..eeprom.fwLen]))
                         else old(crcInfo)
    {
      if doneBurning {
        var ok := ValidApp();
        if ok {
          started := true;
          return;
        }
        doneBurning := false;
      }
      if !appChecked && !receivedCmd && timePassed {
        appChecked := true;
        started := ValidApp();
      }
    }

    predicate Checks(timePassed: bool)
      reads this
    {
      doneBurning || (!appChecked && !receivedCmd && timePassed)
    }

    ghost predicate AppIsValid()
      requires Valid()
      reads this
    {
      Crc(flash[..eeprom.fwLen]) == eeprom.fwCrc
    }
  }

  // ---------- what the host sends ----------

  /** read_firmware: the blocks of the image, the last one partial. */
  function NumBlocks(image: Bytes): nat {
    if |image| % BLOCK_SIZE != 0 then |image| / BLOCK_SIZE + 1 else |image| / BLOCK_SIZE
  }

  /** Whether 16 bits address the whole image. */
  predicate Fits16(image: Bytes) {
    |image| <= UINT16
  }

  /** Block i as copied out of the image buffer, which is zero beyond the image. */
  function Block(image: Bytes, i: nat): (b: Bytes)
    requires i < NumBlocks(image)
    ensures |b| == BLOCK_SIZE
  {
    if (i + 1) * BLOCK_SIZE <= |image| then image[i * BLOCK_SIZE..(i + 1) * BLOCK_SIZE]
    else image[i * BLOCK_SIZE..] + seq((i + 1) * BLOCK_SIZE - |image|, _ => 0)
  }

  /** A block holds its part of the image, and zeros beyond. */
  lemma BlockIsPart(image: Bytes, i: nat, o: nat)
    requires i < NumBlocks(image) && o < BLOCK_SIZE
    ensures Block(image, i)[o] == if i * BLOCK_SIZE + o < |image| then image[i * BLOCK_SIZE + o] else 0
  {}

  /** The address field of block i: `i*BLOCK_SIZE` cut to 16 bits. */
  function Addr(i: nat): (a: nat)
    ensures a < UINT16 && a % BLOCK_SIZE == 0 && a + BLOCK_SIZE <= UINT16
  {
    (i % 256) * BLOCK_SIZE
  }

  lemma AddrIsTruncated(i: nat)
    ensures Addr(i) == (i * BLOCK_SIZE) % UINT16
  {
    assert i == 256 * (i / 256) + i % 256;
    assert i * BLOCK_SIZE == UINT16 * (i / 256) + Addr(i);
  }

  function SeqAt(first: nat, k: nat): nat {
    (first + k) % UINT32
  }

  function BlockRequest(image: Bytes, first: nat, i: nat): Request
    requires i < NumBlocks(image)
  {
    Transfer(SeqAt(first, i + 1), Addr(i), Block(image, i))
  }

  /** Where a sequence number lies in a run of numbers starting after `first`. */
  function IndexOf(first: nat, sequence: nat): nat {
    (sequence - (first + 1)) % UINT32
  }

  lemma ModShift(i: nat, q: int)
    requires i < UINT32
    ensures (i - UINT32 * q) % UINT32 == i
  {}

  lemma IndexOfSeqAt(first: nat, i: nat)
    requires i < UINT32
    ensures IndexOf(first, SeqAt(first, i + 1)) == i
  {
    var q := (first + (i + 1)) / UINT32;
    assert SeqAt(first, i + 1) == first + (i + 1) - UINT32 * q;
    assert SeqAt(first, i + 1) - (first + 1) == i - UINT32 * q;
    ModShift(i, q);
  }

  predicate IsBlockRequest(image: Bytes, first: nat, r: Request) {
    var i := IndexOf(first, r.sequence);
    i < NumBlocks(image) && r == BlockRequest(image, first, i)
  }

  function ReadRequest(first: nat, i: nat): Request {
    Read(SeqAt(first, i + 1), Addr(i))
  }

  predicate IsReadRequest(blocks: nat, first: nat, r: Request) {
    var i := IndexOf(first, r.sequence);
    i < blocks && r == ReadRequest(first, i)
  }

  /** What PREPARE_FW_BURN_CMD announces: both the length and the length the CRC runs over are 16 bits. */
  function Info(image: Bytes): CrcInfo {
    CrcInfo(|image| % UINT16, Crc(image[..|image| % UINT16]))
  }

  // ---------- the link ----------

  /** The image being burned, the sequence number the burn started from, and that of the verification
      once it has begun. */
  datatype Session = Session(image: Bytes, first: nat, verifying: Option<nat>)

  /** p carries the sequence number of r and the acknowledgement r gets. */
  predicate Answers(p: Reply, r: Request) {
    p.sequence == r.sequence && match r
      case Prepare(_, _, _) => p.code == FwBurnReadyAck
      case Transfer(_, _, _) => p.code == FileTransferAck
      case Read(_, _) => p.code == ReadFwAck
      case Finalize(_) => p.code == FinalizeBurningAck
  }

  /** Blocks of an image of at most 256 have pages of their own. */
  lemma DistinctPages(image: Bytes, first: nat, r: Request, t: Request)
    requires Fits16(image)
    requires r.Transfer? && t.Transfer? && IsBlockRequest(image, first, r) && IsBlockRequest(image, first, t)
    requires r.addr == t.addr
    ensures r == t
  {
    assert IndexOf(first, r.sequence) == IndexOf(first, t.sequence);
  }

  /** What the network makes of one exchange. Anything: every request ever sent may reach the device, any number
      of times, and any reply ever produced the host. Lost: the request may reach the device, but no reply comes.
      Prompt: the request reaches the device and its reply the host, and nothing else does. */
  datatype Exchange = Anything | Lost | Prompt

  type Plan = nat -> Exchange

  /** What the host does for a request reaches the device's flash only by a block. */
  function FlashAfter(flash: Bytes, r: Request): (f: Bytes)
    requires |flash| == FLASH_SIZE && r.WellFormed()
    ensures |f| == FLASH_SIZE
  {
    if r.Transfer? then WithPage(flash, r.addr, r.data) else flash
  }

  /** The network between the host and the device, whose exchanges go as planned. */
  class Link {
    const dev: Bootloader
    const plan: Plan
    var exchanges: nat
    var sent: set<Request>
    var replies: set<Reply>
    /** How often each request has been sent, and which ones the device has handled. */
    ghost var log: multiset<Request>
    ghost var handled: set<Request>

    ghost predicate Valid()
      reads this, dev
    {
      && dev.Valid() && handled <= sent
      && (forall r :: r in sent ==> r.WellFormed())
      && (forall p :: p in replies ==> exists r :: r in handled && Answers(p, r))
      && (forall p :: p in replies && p.code == ReadFwAck ==> |p.data| == BLOCK_SIZE)
    }

    constructor (dev: Bootloader, plan: Plan)
      requires dev.Valid()
      ensures this.dev == dev && this.plan == plan && Valid()
      ensures sent == {} && replies == {} && log == multiset{} && handled == {} && exchanges == 0
    {
      this.dev, this.plan, exchanges := dev, plan, 0;
      sent, replies, log, handled := {}, {}, multiset{}, {};
    }

    /** The device has been told of the burn, and waits for what comes. */
    predicate Ready()
      reads dev
    {
      dev.receivedCmd && !dev.doneBurning && !dev.started
    }

    /** What handling r, with a reply, has made of the device. */
    twostate predicate HandledNow(r: Request, reply: Reply)
      requires old(dev.Valid()) && dev.Valid() && r.WellFormed()
      reads dev
    {
      && Answers(reply, r) && !dev.started
      && dev.flash == FlashAfter(old(dev.flash), r)
      && dev.receivedCmd == (r.Prepare? || old(dev.receivedCmd))
      && dev.doneBurning == (r.Finalize? || (!r.Prepare? && old(dev.doneBurning)))
      && dev.crcInfo == (if r.Prepare? then CrcInfo(r.len, r.crc) else old(dev.crcInfo))
      && dev.eeprom == (if r.Finalize? then old(dev.crcInfo) else old(dev.eeprom))
      && (r.Read? ==> reply.data == Page(dev.flash, r.addr))
    }

    /** Every write that may still arrive has already been made. */
    ghost predicate Settled()
      requires Valid()
      reads this, dev
    {
      forall r :: r in sent && r.Transfer? ==> Page(dev.flash, r.addr) == r.data
    }

    /** Everything sent belongs to the session, and what the device has handled shows in its state. */
    ghost predicate InSession(s: Session)
      reads this, dev
    {
      && Valid()
      && (forall r :: r in sent ==> Admissible(s, r))
      && (forall r :: r in handled && r.Prepare? ==> dev.receivedCmd)
      && (dev.doneBurning ==> exists r :: r in handled && r.Finalize?)
      && (Fits16(s.image) ==> Consistent(s))
      && (s.verifying.Some? && Fits16(s.image) ==> Settled())
      && (s.verifying.Some? && Fits16(s.image) ==>
            forall p :: p in replies && p.code == ReadFwAck ==>
              p.data == Page(dev.flash, Addr(IndexOf(s.verifying.value, p.sequence))))
    }

    /** What an image that 16 bits can address adds: blocks stay where they were put, what was announced
        stays announced, and once the end of the burn has been sent the flash holds the image. */
    ghost predicate Consistent(s: Session)
      requires Valid()
      reads this, dev
    {
      && (forall r :: r in handled && r.Transfer? ==> Page(dev.flash, r.addr) == r.data)
      && (forall r :: r in handled && r.Prepare? ==> dev.crcInfo == Info(s.image))
      && (forall r :: r in sent && r.Finalize? ==> Complete(s))
      && (forall r :: r in handled && r.Finalize? ==> dev.eeprom == Info(s.image))
      && (dev.started && dev.receivedCmd ==> Complete(s))
    }

    ghost predicate Complete(s: Session)
      reads this, dev
    {
      Announced() && s.image <= dev.flash
    }

    ghost predicate Announced()
      reads this
    {
      exists r :: r in handled && r.Prepare?
    }

    /** The device handles a request, unless it has left the bootloader, and its reply joins those that
        may reach the host. */
    method Deliver(ghost s: Session, r: Request) returns (reply: Option<Reply>)
      requires InSession(s) && r in sent
      modifies this`replies, this`handled, dev
      ensures InSession(s) && old(handled) <= handled && old(replies) <= replies
      ensures dev.flash[UINT16..] == old(dev.flash)[UINT16..]
      ensures s.verifying.Some? && Fits16(s.image) ==> dev.flash == old(dev.flash)
      ensures old(dev.started) ==> reply == None && dev.started && dev.flash == old(dev.flash)
      ensures !old(dev.started) ==> reply.Some? && reply.value in replies && r in handled
      ensures !old(dev.started) ==> HandledNow(r, reply.value)
    {
      if dev.started {
        return None;
      }
      var answer;
      if r.Transfer? {
        answer := DeliverBlock(s, r);
      } else {
        answer := DeliverOther(s, r);
      }
      return Some(answer);
    }

    method DeliverBlock(ghost s: Session, r: Request) returns (reply: Reply)
      requires InSession(s) && r in sent && r.Transfer? && !dev.started
      modifies this`replies, this`handled, dev
      ensures InSession(s) && old(handled) <= handled && r in handled
      ensures old(replies) <= replies && reply in replies && HandledNow(r, reply)
      ensures dev.flash[UINT16..] == old(dev.flash)[UINT16..]
      ensures s.verifying.Some? && Fits16(s.image) ==> dev.flash == old(dev.flash)
    {
      ghost var was := dev.flash;
      if s.verifying.Some? && Fits16(s.image) {
        SamePage(was, r.addr);
      }
      forall t | t in handled && t.Transfer? && Fits16(s.image)
        ensures Page(WithPage(was, r.addr, r.data), t.addr) == t.data
      {
        PageOfWithPage(was, r.addr, r.data, t.addr);
        if t.addr == r.addr {
          DistinctPages(s.image, s.first, r, t);
        }
      }
      reply := dev.Handle(r);
      replies := replies + {reply};
      handled := handled + {r};
    }

    method DeliverOther(ghost s: Session, r: Request) returns (reply: Reply)
      requires InSession(s) && r in sent && !r.Transfer? && !dev.started
      modifies this`replies, this`handled, dev
      ensures InSession(s) && old(handled) <= handled && r in handled && dev.flash == old(dev.flash)
      ensures old(replies) <= replies && reply in replies && HandledNow(r, reply)
    {
      reply := dev.Handle(r);
      replies := replies + {reply};
      handled := handled + {r};
    }

    /** The device turns its main loop. If it leaves the bootloader once the burn was announced, the flash
        holds the image. */
    method Idle(ghost s: Session)
      requires InSession(s)
      modifies dev
      ensures InSession(s) && dev.flash == old(dev.flash) && dev.eeprom == old(dev.eeprom)
      ensures old(Ready()) ==> Ready() && dev.crcInfo == old(dev.crcInfo)
      ensures old(dev.started) ==> dev.started
      ensures !old(dev.started) && old(dev.doneBurning) ==> (dev.started <==> dev.AppIsValid())
    {
      if dev.started {
        return;
      }
      ghost var finished := dev.doneBurning && Fits16(s.image);
      if finished {
        var n := |s.image| % UINT16;
        assert dev.flash[..n] == dev.flash[..|s.image|][..n] == s.image[..n];
      }
      var timePassed: bool := *;
      dev.Poll(timePassed);
    }

    /** The network delivers whatever it likes, in any order, while the device turns its loop. */
    method Storm(ghost s: Session)
      requires InSession(s)
      modifies this`replies, this`handled, dev
      ensures InSession(s) && old(handled) <= handled
      ensures dev.flash[UINT16..] == old(dev.flash)[UINT16..]
      ensures s.verifying.Some? && Fits16(s.image) ==> dev.flash == old(dev.flash)
      ensures s.verifying == None && old(Ready()) ==> Ready()
    {
      var events: nat := *;
      while events > 0
        invariant InSession(s) && old(handled) <= handled
        invariant dev.flash[UINT16..] == old(dev.flash)[UINT16..]
        invariant s.verifying.Some? && Fits16(s.image) ==> dev.flash == old(dev.flash)
        invariant s.verifying == None && old(Ready()) ==> Ready()
      {
        var idle: bool := *;
        if idle || sent == {} {
          Idle(s);
        } else {
          var some :| some in sent;
          var _ := Deliver(s, some);
        }
        events := events - 1;
      }
    }

    /** SHD_OCTOCLOCK_SEND_AND_RECV: the request is sent, and the host gets some reply or times out. */
    method SendAndRecv(ghost s: Session, req: Request) returns (r: Option<Reply>)
      requires InSession(s) && req.WellFormed() && Admissible(s, req)
      requires req.Finalize? && Fits16(s.image) ==> Complete(s)
      requires s.verifying.Some? ==> !req.Transfer?
      modifies this, dev
      ensures InSession(s) && exchanges == old(exchanges) + 1
      ensures sent == old(sent) + {req} && log == old(log) + multiset{req} && old(handled) <= handled
      ensures r.Some? ==> r.value in replies
      ensures dev.flash[UINT16..] == old(dev.flash)[UINT16..]
      ensures s.verifying.Some? && Fits16(s.image) ==> dev.flash == old(dev.flash)
      ensures s.verifying == None && old(Ready()) ==> Ready()
      ensures plan(old(exchanges)).Lost? ==> r == None && Silent(req)
      ensures plan(old(exchanges)).Prompt? ==> if old(dev.started) then r == None else Answered(req, r)
    {
      Send(s, req);
      match plan(exchanges - 1) {
        case Anything =>
          Storm(s);
          var timeout: bool := *;
          if timeout || replies == {} {
            return None;
          }
          var reply :| reply in replies;
          return Some(reply);
        case Lost =>
          Silence(s, req);
          return None;
        case Prompt =>
          r := Prompted(s, req);
      }
    }

    method Send(ghost s: Session, req: Request)
      requires InSession(s) && req.WellFormed() && Admissible(s, req)
      requires req.Finalize? && Fits16(s.image) ==> Complete(s)
      requires s.verifying.Some? ==> !req.Transfer?
      modifies this`sent, this`log, this`exchanges
      ensures InSession(s) && exchanges == old(exchanges) + 1
      ensures sent == old(sent) + {req} && log == old(log) + multiset{req}
    {
      sent := sent + {req};
      log := log + multiset{req};
      exchanges := exchanges + 1;
    }

    method Prompted(ghost s: Session, req: Request) returns (r: Option<Reply>)
      requires InSession(s) && req in sent
      modifies this`replies, this`handled, dev
      ensures InSession(s) && old(handled) <= handled
      ensures r.Some? ==> r.value in replies
      ensures dev.flash[UINT16..] == old(dev.flash)[UINT16..]
      ensures s.verifying.Some? && Fits16(s.image) ==> dev.flash == old(dev.flash)
      ensures s.verifying == None && old(Ready()) ==> Ready()
      ensures if old(dev.started) then r == None else Answered(req, r)
    {
      hide WithPage;
      r := Deliver(s, req);
      Idle(s);
    }

    /** An exchange without a reply leaves a waiting device waiting, and has stored a block at most. */
    twostate predicate Silent(req: Request)
      requires old(dev.Valid()) && dev.Valid() && req.WellFormed()
      reads dev
    {
      && dev.flash in {old(dev.flash), FlashAfter(old(dev.flash), req)}
      && (old(Ready()) && !req.Finalize? && !req.Prepare? ==>
            Ready() && dev.crcInfo == old(dev.crcInfo) && dev.eeprom == old(dev.eeprom))
    }

    /** A prompt exchange. After the end of a burn, the device leaves its bootloader if its application is valid. */
    twostate predicate Answered(req: Request, new r: Option<Reply>)
      requires old(dev.Valid()) && dev.Valid() && req.WellFormed()
      reads this, dev
    {
      && r.Some? && Answers(r.value, req)
      && dev.flash == FlashAfter(old(dev.flash), req)
      && (req.Read? ==> r.value.data == Page(dev.flash, req.addr))
      && (req.Finalize? ==> dev.eeprom == old(dev.crcInfo) && (dev.started <==> dev.AppIsValid()))
      && (req.Prepare? ==> Ready() && dev.crcInfo == CrcInfo(req.len, req.crc))
      && (old(Ready()) && !req.Finalize? && !req.Prepare? ==>
            Ready() && dev.crcInfo == old(dev.crcInfo) && dev.eeprom == old(dev.eeprom))
    }

    method Silence(ghost s: Session, req: Request)
      requires InSession(s) && req in sent
      modifies this`replies, this`handled, dev
      ensures InSession(s) && old(handled) <= handled
      ensures dev.flash[UINT16..] == old(dev.flash)[UINT16..]
      ensures s.verifying.Some? && Fits16(s.image) ==> dev.flash == old(dev.flash)
      ensures s.verifying == None && old(Ready()) ==> Ready()
      ensures Silent(req)
    {
      var arrives: bool := *;
      if arrives {
        var _ := Deliver(s, req);
      }
      Idle(s);
    }
  }

  /** The requests a session sends: one announcement, the blocks of the image, reads once the
      verification has begun, and the command to finish. */
  predicate Admissible(s: Session, r: Request) {
    match r
    case Prepare(_, crc, len) => CrcInfo(len, crc) == Info(s.image)
    case Transfer(_, _, _) => IsBlockRequest(s.image, s.first, r)
    case Read(_, _) => s.verifying.Some? && IsReadRequest(NumBlocks(s.image), s.verifying.value, r)
    case Finalize(_) => s.verifying.Some?
  }

  // ---------- the host ----------

  /** SHD_OCTOCLOCK_PACKET_MATCHES */
  predicate Matches(r: Option<Reply>, code: Code, sequence: nat) {
    r.Some? && r.value.sequence == sequence && r.value.code == code
  }

  /** A matching acknowledgement of a block means that the device has handled that very block. */
  lemma AckedBlockWasHandled(link: Link, s: Session, r: Option<Reply>, i: nat)
    requires link.InSession(s) && i < NumBlocks(s.image) <= UINT16
    requires r.Some? ==> r.value in link.replies
    requires Matches(r, FileTransferAck, SeqAt(s.first, i + 1))
    ensures BlockRequest(s.image, s.first, i) in link.handled
  {
    var t :| t in link.handled && Answers(r.value, t);
    IndexOfSeqAt(s.first, i);
    assert Admissible(s, t);
  }

  /** How many of the next n exchanges it takes until one is prompt. */
  function Tries(plan: Plan, e: nat, n: nat): (k: nat)
    ensures k <= n
    decreases n
  {
    if n == 0 then 0 else if plan(e).Prompt? then 1 else 1 + Tries(plan, e + 1, n - 1)
  }

  /** One of the next n exchanges is prompt. */
  predicate SomePrompt(plan: Plan, e: nat, n: nat) {
    exists k :: e <= k < e + n && plan(k).Prompt?
  }

  /** Nothing arrives out of turn. */
  ghost predicate Orderly(plan: Plan) {
    forall e :: !plan(e).Anything?
  }

  /** Of any six exchanges, one is prompt. */
  ghost predicate Fair(plan: Plan) {
    forall e :: SomePrompt(plan, e, 6)
  }

  ghost predicate Perfect(plan: Plan) {
    forall e :: plan(e).Prompt?
  }

  /** None of the next n exchanges is prompt. */
  predicate NonePrompt(plan: Plan, e: nat, n: nat) {
    forall k :: e <= k < e + n ==> !plan(k).Prompt?
  }

  lemma {:induction false} TriesMore(plan: Plan, e: nat, n: nat, m: nat)
    requires m < n && NonePrompt(plan, e, m)
    ensures plan(e + m).Prompt? ==> Tries(plan, e, n) == m + 1
    ensures m + 1 == n && !plan(e + m).Prompt? ==> Tries(plan, e, n) == n
    ensures Tries(plan, e, n) >= m + 1
    decreases n
  {
    if m > 0 {
      TriesMore(plan, e + 1, n - 1, m - 1);
    }
  }

  /** What n exchanges that ended in a success, or all six without one, tell of the plan. */
  ghost predicate Tried(plan: Plan, e: nat, n: nat, success: bool) {
    && (SomePrompt(plan, e, 6) ==> success && n <= Tries(plan, e, 6))
    && (Orderly(plan) ==> (success <==> SomePrompt(plan, e, 6)) && n == Tries(plan, e, 6))
  }

  lemma TriesEnd(plan: Plan, e: nat, n: nat, success: bool)
    requires if success then 1 <= n <= 6 && NonePrompt(plan, e, n - 1) else n == 6 && NonePrompt(plan, e, 6)
    requires success && Orderly(plan) ==> plan(e + n - 1).Prompt?
    ensures Tried(plan, e, n, success)
  {
    TriesMore(plan, e, 6, n - 1);
  }

  lemma NotPromptYet(plan: Plan, e: nat, n: nat)
    requires NonePrompt(plan, e, n) && !plan(e + n).Prompt?
    ensures NonePrompt(plan, e, n + 1)
  {}

  lemma SamePageTwice(flash: Bytes, a: nat, data: Bytes)
    requires a + BLOCK_SIZE <= |flash| && |data| == BLOCK_SIZE
    ensures WithPage(WithPage(flash, a, data), a, data) == WithPage(flash, a, data)
  {}

  /** The state of a device in the middle of a burn on an orderly network: it waits, knows what was announced, and
      has the flash expected. */
  ghost predicate Waits(dev: Bootloader, flash: Bytes, info: CrcInfo)
    reads dev
  {
    dev.receivedCmd && !dev.doneBurning && !dev.started && dev.flash == flash && dev.crcInfo == info
  }

  /** A block is sent once. */
  method TryBlock(link: Link, ghost s: Session, i: nat, request: Request) returns (success: bool)
    requires link.InSession(s) && s.verifying == None
    requires i < NumBlocks(s.image) <= UINT16 && request == BlockRequest(s.image, s.first, i) && request.WellFormed()
    requires IsBlockRequest(s.image, s.first, request)
    modifies link, link.dev
    ensures link.InSession(s) && old(link.handled) <= link.handled && link.exchanges == old(link.exchanges) + 1
    ensures link.log == old(link.log) + multiset{request}
    ensures success ==> request in link.handled
    ensures link.dev.flash[UINT16..] == old(link.dev.flash)[UINT16..]
    ensures old(link.Ready()) ==> link.Ready() && (link.plan(old(link.exchanges)).Prompt? ==> success)
    ensures link.plan(old(link.exchanges)).Lost? ==> !success
    ensures old(link.Ready()) && !link.plan(old(link.exchanges)).Anything? ==>
              && link.dev.crcInfo == old(link.dev.crcInfo)
              && link.dev.flash in {old(link.dev.flash), WithPage(old(link.dev.flash), request.addr, request.data)}
              && (success ==> link.dev.flash == WithPage(old(link.dev.flash), request.addr, request.data))
  {
    hide WithPage, Block;
    var reply := link.SendAndRecv(s, request);
    success := Matches(reply, FileTransferAck, request.sequence);
    if success {
      AckedBlockWasHandled(link, s, reply, i);
    }
  }

  /** One block of burn_firmware: sent until it is acknowledged, at most six times. A device that waits for it
      acknowledges it at the first prompt exchange, if not before; and on an orderly network, exactly then. */
  method BurnBlock(link: Link, ghost s: Session, i: nat, request: Request) returns (success: bool)
    requires link.InSession(s) && s.verifying == None
    requires i < NumBlocks(s.image) <= UINT16 && request == BlockRequest(s.image, s.first, i)
    modifies link, link.dev
    ensures link.InSession(s) && old(link.handled) <= link.handled
    ensures old(link.exchanges) < link.exchanges <= old(link.exchanges) + 6
    ensures link.log[request] == old(link.log)[request] + (link.exchanges - old(link.exchanges))
    ensures forall r :: r != request ==> link.log[r] == old(link.log)[r]
    ensures success ==> request in link.handled
    ensures link.dev.flash[UINT16..] == old(link.dev.flash)[UINT16..]
    ensures old(link.Ready()) ==> link.Ready()
    ensures old(link.Ready()) ==>
              Tried(link.plan, old(link.exchanges), link.exchanges - old(link.exchanges), success)
    ensures old(link.Ready()) && Orderly(link.plan) ==>
              && link.dev.crcInfo == old(link.dev.crcInfo)
              && (success ==> link.dev.flash == WithPage(old(link.dev.flash), request.addr, request.data))
  {
    success := false;
    var numTries := 0;
    ghost var e, was := link.exchanges, link.dev.flash;
    IndexOfSeqAt(s.first, i);
    SamePageTwice(was, request.addr, request.data);
    while numTries <= 5
      invariant numTries <= 6 && !success && link.exchanges == e + numTries
      invariant link.InSession(s) && old(link.handled) <= link.handled
      invariant link.log[request] == old(link.log)[request] + numTries
      invariant forall r :: r != request ==> link.log[r] == old(link.log)[r]
      invariant link.dev.flash[UINT16..] == was[UINT16..]
      invariant old(link.Ready()) ==> link.Ready() && NonePrompt(link.plan, e, numTries)
      invariant old(link.Ready()) && Orderly(link.plan) ==>
                  && link.dev.crcInfo == old(link.dev.crcInfo)
                  && link.dev.flash in {was, WithPage(was, request.addr, request.data)}
      decreases 6 - numTries
    {
      hide WithPage, Tried, NonePrompt, Block;
      success := TryBlock(link, s, i, request);
      if success {
        if old(link.Ready()) {
          TriesEnd(link.plan, e, numTries + 1, true);
        }
        return;
      }
      if old(link.Ready()) {
        NotPromptYet(link.plan, e, numTries);
      }
      numTries := numTries + 1;
    }
    if old(link.Ready()) {
      TriesEnd(link.plan, e, 6, false);
    }
  }

  lemma DistinctRequests(image: Bytes, first: nat, i: nat)
    requires i < NumBlocks(image) <= UINT16
    ensures forall j :: 0 <= j < NumBlocks(image) && j != i ==>
              BlockRequest(image, first, j) != BlockRequest(image, first, i)
  {
    hide IndexOf, SeqAt, Block;
    IndexOfSeqAt(first, i);
    forall j | 0 <= j < NumBlocks(image) && j != i
      ensures BlockRequest(image, first, j) != BlockRequest(image, first, i)
    {
      IndexOfSeqAt(first, j);
    }
  }

  /** The fields filled in for block i, one sequence number after the last. */
  lemma NextRequest(image: Bytes, first: nat, i: nat, sequence: nat)
    requires i < NumBlocks(image) && sequence == SeqAt(first, i)
    ensures (sequence + 1) % UINT32 == SeqAt(first, i + 1)
    ensures Transfer((sequence + 1) % UINT32, (i * BLOCK_SIZE) % UINT16, Block(image, i))
         == BlockRequest(image, first, i)
  {
    AddrIsTruncated(i);
    assert first + i == UINT32 * ((first + i) / UINT32) + sequence;
  }

  /** PREPARE_FW_BURN_CMD: the length, and a CRC over that length, both cut to 16 bits. */
  method Announce(link: Link, ghost s: Session, image: Bytes, sequence: nat) returns (ready: bool)
    requires link.InSession(s) && s.verifying == None && s.image == image
    modifies link, link.dev
    ensures link.InSession(s) && old(link.handled) <= link.handled
    ensures forall r: Request :: r.Transfer? ==> link.log[r] == old(link.log)[r]
    ensures ready ==> link.Announced()
    ensures link.dev.flash[UINT16..] == old(link.dev.flash)[UINT16..]
    ensures link.exchanges == old(link.exchanges) + 1
    ensures link.plan(old(link.exchanges)).Prompt? && !old(link.dev.started) ==>
              ready && Waits(link.dev, old(link.dev.flash), Info(image))
    ensures !link.plan(old(link.exchanges)).Anything? ==>
              (ready <==> link.plan(old(link.exchanges)).Prompt? && !old(link.dev.started))
  {
    var len := |image| % UINT16;
    var crc := CalculateCrc(image, len);
    var reply := link.SendAndRecv(s, Prepare(sequence, crc, len));
    ready := Matches(reply, FwBurnReadyAck, sequence);
    if ready {
      ghost var r :| r in link.handled && Answers(reply.value, r);
      assert r.Prepare?;
    }
  }

  /** The first n blocks have been handled. */
  ghost predicate FirstHandled(handled: set<Request>, image: Bytes, first: nat, n: nat) {
    n <= NumBlocks(image) && forall j :: 0 <= j < n ==> BlockRequest(image, first, j) in handled
  }

  /** Each of the first n blocks has been sent at most six times, and no other one. */
  ghost predicate SentSixTimes(log: multiset<Request>, was: multiset<Request>, image: Bytes, first: nat, n: nat) {
    forall j :: 0 <= j < NumBlocks(image) ==>
      log[BlockRequest(image, first, j)] <= was[BlockRequest(image, first, j)] + if j < n then 6 else 0
  }

  lemma OneMoreSent(log: multiset<Request>, before: multiset<Request>, was: multiset<Request>, image: Bytes, first: nat,
                    n: nat)
    requires n < NumBlocks(image) <= UINT16 && SentSixTimes(before, was, image, first, n)
    requires log[BlockRequest(image, first, n)] <= before[BlockRequest(image, first, n)] + 6
    requires forall r :: r != BlockRequest(image, first, n) ==> log[r] == before[r]
    ensures SentSixTimes(log, was, image, first, n + 1)
  {
    hide BlockRequest, NumBlocks;
    DistinctRequests(image, first, n);
  }

  /** The block loop of burn_firmware. */
  method BurnBlocks(link: Link, ghost s: Session, image: Bytes, rand: nat) returns (success: bool)
    requires s == Session(image, rand, None) && |image| <= MAX_FIRMWARE_SIZE
    requires link.InSession(s)
    modifies link, link.dev
    ensures link.InSession(s) && old(link.handled) <= link.handled
    ensures SentSixTimes(link.log, old(link.log), image, rand, NumBlocks(image))
    ensures success ==> AllHandled(link, image, rand)
    ensures link.dev.flash[UINT16..] == old(link.dev.flash)[UINT16..]
    ensures old(link.Ready()) && Fair(link.plan) ==> success
    ensures old(link.Ready()) && Orderly(link.plan) && success ==>
              Waits(link.dev, AfterBlocks(old(link.dev.flash), image, NumBlocks(image)), old(link.dev.crcInfo))
  {
    var sequence := rand % UINT32;
    for i := 0 to NumBlocks(image)
      invariant link.InSession(s) && old(link.handled) <= link.handled
      invariant sequence == SeqAt(rand, i) && FirstHandled(link.handled, image, rand, i)
      invariant SentSixTimes(link.log, old(link.log), image, rand, i)
      invariant link.dev.flash[UINT16..] == old(link.dev.flash)[UINT16..]
      invariant old(link.Ready()) ==> link.Ready()
      invariant old(link.Ready()) && Orderly(link.plan) ==>
                  Waits(link.dev, AfterBlocks(old(link.dev.flash), image, i), old(link.dev.crcInfo))
    {
      hide SeqAt, Block, BlockRequest, WithPage, SentSixTimes;
      NextRequest(image, rand, i, sequence);
      sequence := (sequence + 1) % UINT32;
      ghost var log := link.log;
      success := BurnBlock(link, s, i, Transfer(sequence, (i * BLOCK_SIZE) % UINT16, Block(image, i)));
      OneMoreSent(link.log, log, old(link.log), image, rand, i);
      if !success {
        AllSent(link.log, old(link.log), image, rand, i + 1);
        return;
      }
    }
    return true;
  }

  lemma AllSent(log: multiset<Request>, was: multiset<Request>, image: Bytes, first: nat, n: nat)
    requires SentSixTimes(log, was, image, first, n)
    ensures SentSixTimes(log, was, image, first, NumBlocks(image))
  {
    hide BlockRequest, NumBlocks;
  }

  /** burn_firmware. `rand` is the random number the sequence starts from. */
  method BurnFirmware(link: Link, image: Bytes, rand: nat) returns (r: BurnResult)
    requires |image| <= MAX_FIRMWARE_SIZE && rand < UINT32
    requires link.InSession(Session(image, rand, None))
    modifies link, link.dev
    ensures link.InSession(Session(image, rand, None))
    ensures SentSixTimes(link.log, old(link.log), image, rand, NumBlocks(image))
    ensures r.Burned? ==> AllHandled(link, image, rand) && link.Announced()
    ensures r.Burned? && Fits16(image) ==> link.Settled() && AllMatch(link.dev.flash, image)
    ensures link.dev.flash[UINT16..] == old(link.dev.flash)[UINT16..]
    ensures !old(link.dev.started) && link.plan(old(link.exchanges)).Prompt? && Fair(link.plan) ==> r.Burned?
    ensures r.Burned? && Orderly(link.plan) ==>
              Waits(link.dev, AfterBlocks(old(link.dev.flash), image, NumBlocks(image)), Info(image))
  {
    hide NumBlocks, Block, SeqAt, Addr, IndexOf, Info;
    ghost var s := Session(image, rand, None);
    var ready := Announce(link, s, image, rand);
    if !ready {
      return NotReady;
    }
    var success := BurnBlocks(link, s, image, rand);
    if !success {
      return BurnFailed;
    }
    if Fits16(image) {
      HandledMakesImage(link, s);
    }
    return Burned;
  }

  ghost predicate AllHandled(link: Link, image: Bytes, first: nat)
    reads link
  {
    forall i :: 0 <= i < NumBlocks(image) ==> BlockRequest(image, first, i) in link.handled
  }

  /** Once every block has been handled, the flash holds the image and nothing in flight can change it. */
  lemma HandledMakesImage(link: Link, s: Session)
    requires link.InSession(s) && Fits16(s.image)
    requires AllHandled(link, s.image, s.first)
    ensures link.Settled() && AllMatch(link.dev.flash, s.image)
  {
    forall r | r in link.sent && r.Transfer? ensures r in link.handled {
      assert Admissible(s, r);
    }
    forall i | 0 <= i < NumBlocks(s.image) ensures BlockMatches(link.dev.flash, s.image, i) {
      assert BlockRequest(s.image, s.first, i) in link.handled;
    }
  }

  ghost predicate AllMatch(flash: Bytes, image: Bytes)
    requires |flash| == FLASH_SIZE
  {
    forall i :: 0 <= i < NumBlocks(image) ==> BlockMatches(flash, image, i)
  }

  lemma BlocksMakeImage(flash: Bytes, image: Bytes)
    requires Fits16(image)
    requires |flash| == FLASH_SIZE && AllMatch(flash, image)
    ensures flash[..|image|] == image
  {
    forall k | 0 <= k < |image| ensures flash[k] == image[k] {
      var i, o := k / BLOCK_SIZE, k % BLOCK_SIZE;
      var n := CompareLength(image);
      assert i < NumBlocks(image) && Addr(i) == i * BLOCK_SIZE;
      assert o < n;
      assert BlockMatches(flash, image, i);
      assert Page(flash, Addr(i))[..n][o] == Block(image, i)[..n][o];
      assert Page(flash, Addr(i))[o] == flash[k] && Block(image, i)[o] == image[k];
    }
  }

  /** How much of each block verify_firmware compares. The code never advances `current_pos`, so it is
      the smaller of the image and a block, for every block. */
  function CompareLength(image: Bytes): (n: nat)
    ensures n <= BLOCK_SIZE
  {
    if |image| < BLOCK_SIZE then |image| else BLOCK_SIZE
  }

  ghost predicate BlockMatches(flash: Bytes, image: Bytes, i: nat)
    requires |flash| == FLASH_SIZE && i < NumBlocks(image)
  {
    Page(flash, Addr(i))[..CompareLength(image)] == Block(image, i)[..CompareLength(image)]
  }

  /** The first n blocks match. */
  ghost predicate FirstMatch(flash: Bytes, image: Bytes, n: nat) {
    |flash| == FLASH_SIZE && n <= NumBlocks(image) && forall i :: 0 <= i < n ==> BlockMatches(flash, image, i)
  }

  /** One read of verify_firmware, and the comparison with the image. */
  method VerifyBlock(link: Link, ghost s: Session, image: Bytes, i: nat, request: Request) returns (r: VerifyResult)
    requires link.InSession(s) && s.verifying.Some? && s.image == image
    requires i < NumBlocks(image) <= UINT16 && request == ReadRequest(s.verifying.value, i)
    modifies link, link.dev
    ensures link.InSession(s) && old(link.handled) <= link.handled
    ensures link.dev.flash[UINT16..] == old(link.dev.flash)[UINT16..]
    ensures Fits16(image) ==> link.dev.flash == old(link.dev.flash)
    ensures Fits16(image) && r.Verified? ==> BlockMatches(link.dev.flash, image, i)
    ensures Fits16(image) && r.Mismatch? ==> !BlockMatches(link.dev.flash, image, i)
    ensures link.exchanges == old(link.exchanges) + 1
    ensures old(link.Ready()) && link.plan(old(link.exchanges)).Prompt? ==>
              && Waits(link.dev, old(link.dev.flash), old(link.dev.crcInfo))
              && r == if BlockMatches(link.dev.flash, image, i) then Verified else Mismatch
  {
    IndexOfSeqAt(s.verifying.value, i);
    var reply := link.SendAndRecv(s, request);
    if !Matches(reply, ReadFwAck, request.sequence) {
      return NoReply;
    }
    var n := CompareLength(image);
    return if reply.value.data[..n] == Block(image, i)[..n] then Verified else Mismatch;
  }

  lemma NextRead(first: nat, i: nat, sequence: nat)
    requires sequence == SeqAt(first, i)
    ensures (sequence + 1) % UINT32 == SeqAt(first, i + 1)
    ensures Read((sequence + 1) % UINT32, (i * BLOCK_SIZE) % UINT16) == ReadRequest(first, i)
  {
    AddrIsTruncated(i);
    assert first + i == UINT32 * ((first + i) / UINT32) + sequence;
  }

  /** The block loop of verify_firmware. */
  method VerifyBlocks(link: Link, ghost s: Session, image: Bytes, rand: nat) returns (r: VerifyResult)
    requires s.image == image && s.verifying == Some(rand) && |image| <= MAX_FIRMWARE_SIZE && rand < UINT32
    requires link.InSession(s)
    modifies link, link.dev
    ensures link.InSession(s) && old(link.handled) <= link.handled
    ensures link.dev.flash[UINT16..] == old(link.dev.flash)[UINT16..]
    ensures Fits16(image) ==> link.dev.flash == old(link.dev.flash)
    ensures Fits16(image) && r == Verified ==> AllMatch(link.dev.flash, image)
    ensures Fits16(image) && r == Mismatch ==> !AllMatch(link.dev.flash, image)
    ensures old(link.Ready()) && Perfect(link.plan) ==>
              && Waits(link.dev, old(link.dev.flash), old(link.dev.crcInfo))
              && r == if AllMatch(link.dev.flash, image) then Verified else Mismatch
  {
    assert NumBlocks(image) <= UINT16 && SeqAt(rand, 0) == rand;
    var sequence := rand;
    for i := 0 to NumBlocks(image)
      invariant link.InSession(s) && old(link.handled) <= link.handled
      invariant link.dev.flash[UINT16..] == old(link.dev.flash)[UINT16..]
      invariant Fits16(image) ==> link.dev.flash == old(link.dev.flash)
      invariant sequence == SeqAt(rand, i)
      invariant Fits16(image) ==> FirstMatch(link.dev.flash, image, i)
      invariant old(link.Ready()) && Perfect(link.plan) ==>
                  && Waits(link.dev, old(link.dev.flash), old(link.dev.crcInfo))
                  && FirstMatch(link.dev.flash, image, i)
    {
      hide BlockMatches, NumBlocks;
      NextRead(rand, i, sequence);
      sequence := (sequence + 1) % UINT32;
      r := VerifyBlock(link, s, image, i, Read(sequence, (i * BLOCK_SIZE) % UINT16));
      if r != Verified {
        return;
      }
    }
    return Verified;
  }

  /** Nothing sent before is a read, so no reply to one can be outstanding. */
  lemma VerificationBegins(link: Link, image: Bytes, first: nat, rand: nat)
    requires link.InSession(Session(image, first, None))
    requires Fits16(image) ==> link.Settled()
    ensures link.InSession(Session(image, first, Some(rand)))
  {
    forall p | p in link.replies ensures p.code != ReadFwAck {
      var r :| r in link.handled && Answers(p, r);
      assert Admissible(Session(image, first, None), r);
    }
  }

  /** verify_firmware: one read of each block, without retry. */
  method VerifyFirmware(link: Link, image: Bytes, ghost first: nat, rand: nat) returns (r: VerifyResult)
    requires |image| <= MAX_FIRMWARE_SIZE && rand < UINT32
    requires link.InSession(Session(image, first, None))
    requires Fits16(image) ==> link.Settled()
    modifies link, link.dev
    ensures link.InSession(Session(image, first, Some(rand))) && old(link.handled) <= link.handled
    ensures link.dev.flash[UINT16..] == old(link.dev.flash)[UINT16..]
    ensures Fits16(image) ==> link.dev.flash == old(link.dev.flash)
    ensures Fits16(image) && r == Verified ==> link.dev.flash[..|image|] == image
    ensures Fits16(image) && r == Mismatch ==> !AllMatch(link.dev.flash, image)
    ensures old(link.Ready()) && Perfect(link.plan) ==>
              && Waits(link.dev, old(link.dev.flash), old(link.dev.crcInfo))
              && r == if AllMatch(link.dev.flash, image) then Verified else Mismatch
  {
    VerificationBegins(link, image, first, rand);
    r := VerifyBlocks(link, Session(image, first, Some(rand)), image, rand);
    if Fits16(image) && r == Verified {
      BlocksMakeImage(link.dev.flash, image);
    }
  }

  /** finalize: on acknowledgement the EEPROM holds the length and CRC of the image. */
  method FinalizeBurn(link: Link, ghost s: Session, rand: nat) returns (acked: bool)
    requires link.InSession(s) && s.verifying.Some? && (Fits16(s.image) ==> link.Complete(s))
    modifies link, link.dev
    ensures link.InSession(s)
    ensures link.dev.flash[UINT16..] == old(link.dev.flash)[UINT16..]
    ensures Fits16(s.image) ==> link.dev.flash == old(link.dev.flash)
    ensures acked && Fits16(s.image) ==> link.dev.eeprom == Info(s.image)
    ensures !old(link.dev.started) && link.plan(old(link.exchanges)).Prompt? ==>
              && acked && link.dev.flash == old(link.dev.flash) && link.dev.eeprom == old(link.dev.crcInfo)
              && (link.dev.started <==> link.dev.AppIsValid())
  {
    var reply := link.SendAndRecv(s, Finalize(rand));
    acked := Matches(reply, FinalizeBurningAck, rand);
    if acked {
      ghost var r :| r in link.handled && Answers(reply.value, r);
      assert r.Finalize?;
    }
  }

  lemma PerfectIsFair(plan: Plan)
    requires Perfect(plan)
    ensures Fair(plan) && Orderly(plan)
  {
    forall e: nat ensures SomePrompt(plan, e, 6) {
      assert plan(e).Prompt?;
    }
  }

  datatype Outcome = TooLarge | BurnError(burn: BurnResult) | VerifyError(verify: VerifyResult) | Finished(acked: bool)

  /** A link that carries nothing yet, to a bootloader that waits. */
  lemma FreshSession(link: Link, image: Bytes, first: nat)
    requires link.Valid() && link.sent == {} && link.replies == {} && !link.dev.doneBurning && !link.dev.started
    ensures link.InSession(Session(image, first, None))
  {}

  lemma ImageIsValid(dev: Bootloader, image: Bytes)
    requires dev.Valid() && Fits16(image) && dev.flash[..|image|] == image && dev.eeprom == Info(image)
    ensures dev.AppIsValid()
  {
    var n := |image| % UINT16;
    assert dev.flash[..n] == dev.flash[..|image|][..n] == image[..n];
  }

  lemma AboveDiffers(flash: Bytes, was: Bytes, image: Bytes)
    requires |flash| == |was| == FLASH_SIZE && UINT16 < |image| <= FLASH_SIZE && flash[UINT16..] == was[UINT16..]
    requires was[UINT16..|image|] != image[UINT16..]
    ensures flash[..|image|] != image
  {
    var n := |image| - UINT16;
    assert flash[..|image|][UINT16..] == flash[UINT16..][..n] == was[UINT16..][..n] == was[UINT16..|image|];
  }

  /** Burning, verification and end, in a session of their own. */
  method BurnInSession(link: Link, image: Bytes, rand1: nat, rand2: nat, rand3: nat) returns (r: Outcome)
    requires rand1 < UINT32 && rand2 < UINT32 && |image| <= MAX_FIRMWARE_SIZE
    requires link.InSession(Session(image, rand1, None)) && !link.dev.started
    modifies link, link.dev
    ensures link.dev.Valid() && !r.TooLarge?
    ensures Fits16(image) && r.Finished? ==> link.dev.flash[..|image|] == image
    ensures Fits16(image) && r.Finished? && r.acked ==> link.dev.eeprom == Info(image)
    ensures Fits16(image) ==> r != VerifyError(Mismatch)
    ensures Fits16(image) && link.dev.started && link.dev.receivedCmd ==> link.dev.flash[..|image|] == image
    ensures link.dev.flash[UINT16..] == old(link.dev.flash)[UINT16..]
    ensures Perfect(link.plan) ==>
              && r == (if RepeatsItself(image) then Finished(true) else VerifyError(Mismatch))
              && link.dev.flash == AfterBlocks(old(link.dev.flash), image, NumBlocks(image))
              && (r.Finished? ==> link.dev.eeprom == Info(image) && (link.dev.started <==> link.dev.AppIsValid()))
  {
    if Perfect(link.plan) {
      LosslessVerification(link.dev.flash, image);
      PerfectIsFair(link.plan);
    }
    hide NumBlocks, AfterBlocks, RepeatsItself, AllMatch, Fair, Orderly, SentSixTimes, AllHandled, Info;
    var burn := BurnFirmware(link, image, rand1);
    if burn != Burned {
      return BurnError(burn);
    }
    var verify := VerifyFirmware(link, image, rand1, rand2);
    if verify != Verified {
      return VerifyError(verify);
    }
    var acked := FinalizeBurn(link, Session(image, rand1, Some(rand2)), rand3);
    return Finished(acked);
  }

  /** The utility from read_firmware to finalize, on a link that carries nothing of an earlier burn.
      Whatever the network does: when it finishes, an image that 16 bits can address is in the flash, and
      if the end was acknowledged the bootloader will start it; the verification never rejects such an
      image; and no byte from 0x10000 on is ever written. */
  method BurnImage(link: Link, image: Bytes, rand1: nat, rand2: nat, rand3: nat) returns (r: Outcome)
    requires rand1 < UINT32 && rand2 < UINT32
    requires link.Valid() && link.sent == {} && link.replies == {}
    requires !link.dev.doneBurning && !link.dev.started
    modifies link, link.dev
    ensures link.dev.Valid()
    ensures r.TooLarge? <==> |image| > MAX_FIRMWARE_SIZE
    ensures Fits16(image) && r.Finished? ==> link.dev.flash[..|image|] == image
    ensures Fits16(image) && r.Finished? && r.acked ==> link.dev.eeprom == Info(image) && link.dev.AppIsValid()
    ensures Fits16(image) ==> r != VerifyError(Mismatch)
    ensures Fits16(image) && link.dev.started && link.dev.receivedCmd ==> link.dev.flash[..|image|] == image
    ensures link.dev.flash[UINT16..] == old(link.dev.flash)[UINT16..]
    ensures !Fits16(image) && !r.TooLarge? && old(link.dev.flash)[UINT16..|image|] != image[UINT16..] ==>
              link.dev.flash[..|image|] != image
    ensures Perfect(link.plan) && !r.TooLarge? ==>
              && r == (if RepeatsItself(image) then Finished(true) else VerifyError(Mismatch))
              && link.dev.flash == AfterBlocks(old(link.dev.flash), image, NumBlocks(image))
              && (r.Finished? ==> link.dev.eeprom == Info(image))
              && (r.Finished? && Fits16(image) ==> link.dev.started)
  {
    if |image| > MAX_FIRMWARE_SIZE {
      return TooLarge;
    }
    ghost var was := link.dev.flash;
    FreshSession(link, image, rand1);
    r := BurnInSession(link, image, rand1, rand2, rand3);
    if r == Finished(true) && Fits16(image) {
      ImageIsValid(link.dev, image);
    }
    if !Fits16(image) && was[UINT16..|image|] != image[UINT16..] {
      AboveDiffers(link.dev.flash, was, image);
    }
  }

  // ---------- images that 16 bits cannot address ----------

  /** The flash after blocks 0..n have been programmed once each, in order: the burn on a perfect network. */
  function AfterBlocks(flash: Bytes, image: Bytes, n: nat): (f: Bytes)
    requires |flash| == FLASH_SIZE && n <= NumBlocks(image)
    ensures |f| == FLASH_SIZE
  {
    if n == 0 then flash else WithPage(AfterBlocks(flash, image, n - 1), Addr(n - 1), Block(image, n - 1))
  }

  lemma AddrsMeet(k: nat, i: nat)
    requires k < 512 && i < 256
    ensures Addr(k) == Addr(i) <==> k == i || k == i + 256
  {}

  /** A page ends up with the later of the two blocks whose address falls on it. */
  lemma {:induction false} PageAfterBlocks(flash: Bytes, image: Bytes, n: nat, i: nat)
    requires |flash| == FLASH_SIZE && n <= NumBlocks(image) <= 512 && i < 256
    ensures Page(AfterBlocks(flash, image, n), Addr(i))
         == if i + 256 < n then Block(image, i + 256) else if i < n then Block(image, i) else Page(flash, Addr(i))
  {
    hide NumBlocks, Block, Page, WithPage, Addr;
    if n > 0 {
      PageAfterBlocks(flash, image, n - 1, i);
      PageOfWithPage(AfterBlocks(flash, image, n - 1), Addr(n - 1), Block(image, n - 1), Addr(i));
      AddrsMeet(n - 1, i);
    }
  }

  lemma FinalPage(flash: Bytes, image: Bytes, i: nat)
    requires |flash| == FLASH_SIZE && i < NumBlocks(image) <= 512
    ensures Page(AfterBlocks(flash, image, NumBlocks(image)), Addr(i))
         == if i + 256 < NumBlocks(image) then Block(image, i + 256) else Block(image, i)
  {
    hide NumBlocks, Block, Page, AfterBlocks;
    PageAfterBlocks(flash, image, NumBlocks(image), i % 256);
    assert i < 256 ==> i % 256 == i;
    assert i >= 256 ==> i % 256 + 256 == i;
    assert Addr(i) == Addr(i % 256);
  }

  /** Block i, and what is 64 KiB further on, if that is still in the image. */
  predicate Repeats(image: Bytes, i: nat)
    requires i < NumBlocks(image)
  {
    i + 256 < NumBlocks(image) ==> Block(image, i) == Block(image, i + 256)
  }

  predicate RepeatsItself(image: Bytes) {
    forall i :: 0 <= i < NumBlocks(image) ==> Repeats(image, i)
  }

  lemma WholeBlocks(flash: Bytes, image: Bytes, i: nat)
    requires |flash| == FLASH_SIZE && i < NumBlocks(image) && |image| >= BLOCK_SIZE
    ensures BlockMatches(flash, image, i) <==> Page(flash, Addr(i)) == Block(image, i)
  {
    hide NumBlocks, Block, Addr;
    assert Page(flash, Addr(i))[..BLOCK_SIZE] == Page(flash, Addr(i));
    assert Block(image, i)[..BLOCK_SIZE] == Block(image, i);
  }

  lemma MatchAfterBlocks(flash: Bytes, image: Bytes, i: nat)
    requires |flash| == FLASH_SIZE && i < NumBlocks(image) <= 512 && (NumBlocks(image) > 256 ==> |image| >= BLOCK_SIZE)
    ensures BlockMatches(AfterBlocks(flash, image, NumBlocks(image)), image, i)
       <==> Repeats(image, i)
  {
    hide NumBlocks, Block, Addr, Page, AfterBlocks;
    FinalPage(flash, image, i);
    if NumBlocks(image) > 256 {
      WholeBlocks(AfterBlocks(flash, image, NumBlocks(image)), image, i);
    }
  }

  lemma FewBlocks(image: Bytes)
    ensures Fits16(image) ==> NumBlocks(image) <= 256
    ensures |image| <= MAX_FIRMWARE_SIZE ==> NumBlocks(image) <= 480
    ensures NumBlocks(image) > 256 ==> |image| >= BLOCK_SIZE
  {}

  /** On a perfect network the verification passes if and only if the blocks beyond the first 64 KiB
      repeat the ones they overwrite. */
  lemma LosslessVerification(flash: Bytes, image: Bytes)
    requires |flash| == FLASH_SIZE && |image| <= MAX_FIRMWARE_SIZE
    ensures AllMatch(AfterBlocks(flash, image, NumBlocks(image)), image) <==> RepeatsItself(image)
  {
    FewBlocks(image);
    hide NumBlocks, Block, BlockMatches, AfterBlocks, Repeats;
    var n, f := NumBlocks(image), AfterBlocks(flash, image, NumBlocks(image));
    if AllMatch(f, image) {
      forall i | 0 <= i < n ensures Repeats(image, i) {
        assert BlockMatches(f, image, i);
        MatchAfterBlocks(flash, image, i);
      }
    }
    if RepeatsItself(image) {
      forall i | 0 <= i < n ensures BlockMatches(f, image, i) {
        MatchAfterBlocks(flash, image, i);
      }
    }
  }

  lemma AboveStays(flash: Bytes, image: Bytes, n: nat)
    requires |flash| == FLASH_SIZE && n <= NumBlocks(image)
    ensures AfterBlocks(flash, image, n)[UINT16..] == flash[UINT16..]
  {}

  lemma FittingBurn(flash: Bytes, image: Bytes)
    requires |flash| == FLASH_SIZE && Fits16(image)
    ensures AfterBlocks(flash, image, NumBlocks(image))[..|image|] == image
  {
    FewBlocks(image);
    hide NumBlocks, AfterBlocks;
    LosslessVerification(flash, image);
    BlocksMakeImage(AfterBlocks(flash, image, NumBlocks(image)), image);
  }

  lemma TruncatedBurn(flash: Bytes, image: Bytes)
    requires |flash| == FLASH_SIZE && UINT16 < |image| <= MAX_FIRMWARE_SIZE
    requires flash[UINT16] != image[UINT16]
    ensures AfterBlocks(flash, image, NumBlocks(image))[..|image|] != image
  {
    AboveStays(flash, image, NumBlocks(image));
    hide NumBlocks, AfterBlocks;
    var f := AfterBlocks(flash, image, NumBlocks(image));
    assert f[UINT16..][0] == flash[UINT16..][0];
    assert f[..|image|][UINT16] == f[UINT16];
  }

  /** A perfect network puts the image into the flash, whatever was there, if and only if 16 bits address
      the whole image. */
  lemma LosslessBurn(image: Bytes)
    requires |image| <= MAX_FIRMWARE_SIZE
    ensures (forall flash: Bytes :: |flash| == FLASH_SIZE ==>
               AfterBlocks(flash, image, NumBlocks(image))[..|image|] == image)
        <==> Fits16(image)
  {
    hide NumBlocks, AfterBlocks;
    if Fits16(image) {
      forall flash: Bytes | |flash| == FLASH_SIZE
        ensures AfterBlocks(flash, image, NumBlocks(image))[..|image|] == image
      {
        FittingBurn(flash, image);
      }
    } else {
      var flash: Bytes := seq(FLASH_SIZE, _ => if image[UINT16] == 0 then 1 else 0);
      TruncatedBurn(flash, image);
    }
  }

  /** The verification can therefore pass a burn that failed. */
  lemma WrongBurnVerifies()
    ensures exists flash: Bytes, image: Bytes ::
              && |flash| == FLASH_SIZE && |image| <= MAX_FIRMWARE_SIZE
              && AllMatch(AfterBlocks(flash, image, NumBlocks(image)), image)
              && AfterBlocks(flash, image, NumBlocks(image))[..|image|] != image
  {
    var image: Bytes := seq(UINT16 + BLOCK_SIZE, _ => 0);
    LosslessBurn(image);
    var flash: Bytes :| |flash| == FLASH_SIZE && AfterBlocks(flash, image, NumBlocks(image))[..|image|] != image;
    assert NumBlocks(image) == 257 && Block(image, 0) == Block(image, 256);
    LosslessVerification(flash, image);
  }

  // ---------- the gate ----------

  /** Once the EEPROM describes an image, damage to the flash within sixteen consecutive bits keeps the
      bootloader from starting it. */
  lemma GateStopsBursts(dev: Bootloader, image: Bytes, at: nat)
    requires dev.Valid() && |image| < UINT16 && dev.eeprom == Info(image)
    requires !(image <= dev.flash) && DifferWithin(dev.flash[..|image|], image, at, 16)
    ensures !dev.AppIsValid()
  {
    assert image[..|image|] == image;
    BurstsAreDetected(dev.flash[..|image|], image, at);
  }

  /** The first end of a burn starts the application exactly when the flash has the announced CRC. But the
      check that fails leaves its own CRC behind, and a second end - the packet may simply be repeated -
      stores that one: the application is then started whatever the flash holds. */
  method FinishTwice(dev: Bootloader, s1: nat, t1: bool, s2: nat, t2: bool) returns (first: bool)
    requires dev.Valid() && !dev.started
    modifies dev
    ensures first <==> Crc(old(dev.flash[..dev.crcInfo.fwLen])) == old(dev.crcInfo.fwCrc)
    ensures dev.started && dev.flash == old(dev.flash)
  {
    var _ := dev.Handle(Finalize(s1));
    dev.Poll(t1);
    first := dev.started;
    if !first {
      var _ := dev.Handle(Finalize(s2));
      dev.Poll(t2);
    }
  }
}
