/** Burning an FPGA image onto an X3x0 over Ethernet: the burner's sector and packet loops, the handler of
    programming packets on the board, and the flash behind it. */
module X3xxBurner {
  import opened Wrappers

  type Bytes = seq<bv8>
  type Words = seq<bv16>

  const BIN_SIZE := 15877916
  const BIT_MAX_SIZE := 15878032
  const SECTOR_SIZE := 131072
  const SECTOR_WORDS := 65536
  const PACKET_SIZE := 256
  const PACKET_WORDS := 128
  const SECTOR_START := 32
  const MAX_BUF_WRITES := 32
  /** The word that the image starts at. */
  const BASE := 0x20_0000
  /** Enough sectors for the largest image. */
  const LAST_SECTOR := 154

  // ---------- encoding ----------

  /** bitswap */
  function BitSwap(b: bv8): bv8 {
    var b1 := ((b & 0xF0) >> 4) | ((b & 0x0F) << 4);
    var b2 := ((b1 & 0xCC) >> 2) | ((b1 & 0x33) << 2);
    ((b2 & 0xAA) >> 1) | ((b2 & 0x55) << 1)
  }

  /** Bit i goes to bit 7 - i. */
  lemma BitSwapReverses(b: bv8)
    ensures BitSwap(b) & 0x80 != 0 <==> b & 0x01 != 0
    ensures BitSwap(b) & 0x40 != 0 <==> b & 0x02 != 0
    ensures BitSwap(b) & 0x20 != 0 <==> b & 0x04 != 0
    ensures BitSwap(b) & 0x10 != 0 <==> b & 0x08 != 0
    ensures BitSwap(b) & 0x08 != 0 <==> b & 0x10 != 0
    ensures BitSwap(b) & 0x04 != 0 <==> b & 0x20 != 0
    ensures BitSwap(b) & 0x02 != 0 <==> b & 0x40 != 0
    ensures BitSwap(b) & 0x01 != 0 <==> b & 0x80 != 0
  {}

  lemma BitSwapTwice(b: bv8)
    ensures BitSwap(BitSwap(b)) == b
  {}

  /** A word as the big-endian processor of the board reads it from two bytes. */
  function WordOf(first: bv8, second: bv8): bv16 {
    ((first as bv16) << 8) | (second as bv16)
  }

  function HighByte(w: bv16): bv8 { (w >> 8) as bv8 }

  function LowByte(w: bv16): bv8 { (w & 0xFF) as bv8 }

  lemma BytesOfWord(first: bv8, second: bv8)
    ensures HighByte(WordOf(first, second)) == first && LowByte(WordOf(first, second)) == second
  {}

  /** The image, continued with zeros. */
  function ByteAt(image: Bytes, i: nat): bv8 {
    if i < |image| then image[i] else 0
  }

  /** The 16-bit swap of a host whose byte order is the other one, and the bit swap. */
  function WireByte(image: Bytes, i: nat): bv8 {
    BitSwap(ByteAt(image, if i % 2 == 0 then i + 1 else i - 1))
  }

  /** Word n of the flash image. */
  function FlashWord(image: Bytes, n: nat): bv16 {
    WordOf(WireByte(image, 2 * n), WireByte(image, 2 * n + 1))
  }

  /** Reading the image back: the bytes of each word in the other order, with their bits swapped. */
  function ReadBack(words: Words, base: nat, i: nat): bv8
    requires base + i / 2 < |words|
  {
    var w := words[base + i / 2];
    BitSwap(if i % 2 == 0 then LowByte(w) else HighByte(w))
  }

  lemma ReadBackOfFlashWord(words: Words, base: nat, image: Bytes, i: nat)
    requires base + i / 2 < |words| && words[base + i / 2] == FlashWord(image, i / 2)
    ensures ReadBack(words, base, i) == ByteAt(image, i)
  {
    hide BitSwap, WordOf, HighByte, LowByte;
    var n := i / 2;
    BytesOfWord(WireByte(image, 2 * n), WireByte(image, 2 * n + 1));
    BitSwapTwice(ByteAt(image, i));
  }

  // ---------- packets ----------

  datatype Packet = Packet(verify: bool, erase: bool, sector: nat, index: nat, size: nat, data: Bytes)

  function NumPackets(size: nat): nat {
    (size + PACKET_SIZE - 1) / PACKET_SIZE
  }

  /** The bytes that packet k carries. */
  function WireData(image: Bytes, k: nat): (d: Bytes)
    ensures |d| == PACKET_SIZE
  {
    seq(PACKET_SIZE, o requires 0 <= o < PACKET_SIZE => WireByte(image, PACKET_SIZE * k + o))
  }

  /** Packet k of an image: 512 packets make a sector, and the first one of each sector erases it. */
  function PacketAt(image: Bytes, verify: bool, k: nat): Packet {
    Packet(verify, k % 512 == 0, SECTOR_START + k / 512, k % 512 * PACKET_WORDS, PACKET_WORDS, WireData(image, k))
  }

  function Packets(image: Bytes, verify: bool, n: nat): seq<Packet> {
    seq(n, k requires 0 <= k < n => PacketAt(image, verify, k))
  }

  /** The first word that a packet is written to. */
  function Target(p: Packet): nat {
    p.sector * SECTOR_WORDS + p.index
  }

  lemma TargetOfPacket(image: Bytes, verify: bool, k: nat)
    ensures Target(PacketAt(image, verify, k)) == BASE + PACKET_WORDS * k
    ensures k % 512 * PACKET_WORDS + PACKET_WORDS <= SECTOR_WORDS
  {
    assert k == 512 * (k / 512) + k % 512;
  }

  /** Every word up to the end of the last packet is the target of exactly one packet. */
  lemma PacketsTile(image: Bytes, verify: bool, a: nat, k: nat)
    requires k < NumPackets(|image|)
    ensures Target(PacketAt(image, verify, k)) <= a < Target(PacketAt(image, verify, k)) + PACKET_WORDS
       <==> a >= BASE && k == (a - BASE) / PACKET_WORDS
  {
    TargetOfPacket(image, verify, k);
  }

  /** A sector is erased by its first packet and by no other, so nothing written is ever erased. */
  lemma ErasesComeFirst(image: Bytes, verify: bool, j: nat, k: nat)
    requires PacketAt(image, verify, k).erase && PacketAt(image, verify, j).sector == PacketAt(image, verify, k).sector
    ensures k <= j && (j != k ==> !PacketAt(image, verify, j).erase)
  {
    assert j == 512 * (j / 512) + j % 512 && k == 512 * (k / 512);
  }

  // ---------- the flash ----------

  function WordsOf(data: Bytes, n: nat): (w: Words)
    requires |data| == 2 * n
    ensures |w| == n
  {
    seq(n, i requires 0 <= i < n => WordOf(data[2 * i], data[2 * i + 1]))
  }

  /** Programming clears bits. */
  function Over(under: bv16, w: bv16): bv16 { under & w }

  function ByteOver(under: bv8, b: bv8): bv8 { under & b }

  function And(a: Words, b: Words): (r: Words)
    requires |a| == |b|
    ensures |r| == |b|
  {
    seq(|b|, i requires 0 <= i < |b| => Over(a[i], b[i]))
  }

  lemma AndAt(a: Words, b: Words, i: nat)
    requires i < |a| == |b|
    ensures And(a, b)[i] == Over(a[i], b[i])
  {
    hide Over;
  }

  function Programmed(words: Words, at: nat, w: Words): (r: Words)
    requires at + |w| <= |words|
    ensures |r| == |words|
  {
    words[..at] + And(words[at..at + |w|], w) + words[at + |w|..]
  }

  function Erased(words: Words, sector: nat): (r: Words)
    requires (sector + 1) * SECTOR_WORDS <= |words|
    ensures |r| == |words|
  {
    words[..sector * SECTOR_WORDS] + seq(SECTOR_WORDS, _ => 0xFFFF) + words[(sector + 1) * SECTOR_WORDS..]
  }

  lemma ProgrammedTwice(words: Words, at: nat, w: Words, x: Words)
    requires at + |w| + |x| <= |words|
    ensures Programmed(Programmed(words, at, w), at + |w|, x) == Programmed(words, at, w + x)
  {}

  lemma ProgramNothing(words: Words, at: nat)
    requires at <= |words|
    ensures Programmed(words, at, []) == words
  {}

  predicate Fits(p: Packet, words: Words) {
    && (p.sector + 1) * SECTOR_WORDS <= |words| && p.index + p.size <= SECTOR_WORDS
    && |p.data| == 2 * p.size
  }

  /** What a packet does to the flash. */
  function AfterPacket(words: Words, p: Packet): (r: Words)
    requires Fits(p, words)
    ensures |r| == |words|
  {
    Programmed(if p.erase then Erased(words, p.sector) else words, Target(p), WordsOf(p.data, p.size))
  }

  /** The flash reads as the packet's data where that was written. */
  predicate Shows(words: Words, p: Packet)
    requires Fits(p, words)
  {
    words[Target(p)..Target(p) + p.size] == WordsOf(p.data, p.size)
  }

  ghost predicate SameOutsideSector(a: Words, b: Words, sector: nat) {
    && |a| == |b|
    && forall i :: 0 <= i < |a| && !(sector * SECTOR_WORDS <= i < (sector + 1) * SECTOR_WORDS) ==> a[i] == b[i]
  }

  // ---------- the board ----------

  function NumBufWrites(size: nat): (n: nat)
    ensures Pieces(size, n, 0, 0)
  {
    size / MAX_BUF_WRITES + if size % MAX_BUF_WRITES == 0 then 0 else 1
  }

  /** i of n buffered writes make `done` words of `size`. */
  predicate Pieces(size: nat, n: nat, i: nat, done: nat)
    ensures Pieces(size, n, i, done) ==> done <= size && (i >= n ==> done == size)
  {
    && size <= MAX_BUF_WRITES * n < size + MAX_BUF_WRITES
    && done == if i < n then MAX_BUF_WRITES * i else size
  }

  lemma NextPiece(size: nat, n: nat, i: nat, done: nat)
    requires Pieces(size, n, i, done) && i < n
    ensures done < size
    ensures Pieces(size, n, i + 1, if size - done >= MAX_BUF_WRITES then done + MAX_BUF_WRITES else size)
  {}

  class Board {
    var words: Words
    /** Whether the flash window has been set up, and the sector it shows. */
    var open: bool
    var window: nat
    /** What the window's registers were when it was last set up. */
    var cachedOpen: bool
    var cachedWindow: nat
    /** Whether no operation of this board fails. */
    const reliable: bool
    /** Whether what answers in place of a window that is not set up satisfies the polls: it reads as ones after
        an erase, and has the last word's bit 7 after a buffered write. Otherwise they may never end. */
    const settles: bool

    ghost predicate Valid()
      reads this
    {
      && |words| >= LAST_SECTOR * SECTOR_WORDS
      && (window + 1) * SECTOR_WORDS <= |words| && (cachedWindow + 1) * SECTOR_WORDS <= |words|
    }

    /** A board that has just been switched on. */
    constructor (words: Words, reliable: bool, settles: bool)
      requires |words| >= LAST_SECTOR * SECTOR_WORDS
      ensures Valid() && !open && this.words == words && this.reliable == reliable && this.settles == settles
    {
      this.words, this.reliable, this.settles := words, reliable, settles;
      open, window := false, 0;
      cachedOpen, cachedWindow := false, 0;
    }

    /** Nothing goes wrong in what the board does with a packet. */
    predicate Sound()
      reads this`open
    {
      reliable && (open || settles)
    }

    /** chinch_flash_init: sets the window up and tests it. When that fails, the window may be anything. */
    method FlashInit() returns (ok: bool)
      requires Valid()
      modifies this`open, this`cachedOpen, this`cachedWindow
      ensures Valid() && (ok ==> open) && (reliable ==> ok)
      ensures cachedOpen == old(open) && cachedWindow == window
    {
      cachedOpen, cachedWindow := open, window;
      ok := *;
      ok := ok || reliable;
      open := *;
      open := open || ok;
    }

    /** chinch_flash_cleanup: puts the registers back, unless the writes time out. */
    method FlashCleanup()
      requires Valid()
      modifies this`open, this`window
      ensures Valid()
      ensures open in {old(open), cachedOpen} && window in {old(window), cachedWindow}
      ensures reliable ==> open == cachedOpen && window == cachedWindow
    {
      var done0: bool, done1: bool := *, *;
      open := if done0 || reliable then cachedOpen else open;
      window := if done1 || reliable then cachedWindow else window;
    }

    /** chinch_flash_select_sector */
    method SelectSector(sector: nat) returns (ok: bool)
      requires Valid() && (sector + 1) * SECTOR_WORDS <= |words|
      modifies this`window
      ensures Valid() && (ok ==> window == sector) && (!ok ==> window == old(window)) && (reliable ==> ok)
    {
      ok := *;
      ok := ok || reliable;
      if ok {
        window := sector;
      }
    }

    /** An operation that failed half-way leaves anything in the sector it worked on. */
    method Spoil()
      requires Valid() && open
      modifies this`words
      ensures Valid() && SameOutsideSector(words, old(words), window)
    {
      var any: int -> bv16 := *;
      var first := window * SECTOR_WORDS;
      words := words[..first] + seq(SECTOR_WORDS, i => any(i)) + words[first + SECTOR_WORDS..];
    }

    /** chinch_flash_erase_sector */
    method EraseSector() returns (ok: bool)
      requires Valid()
      modifies this`words
      ensures Valid() && (!open ==> words == old(words)) && (Sound() ==> ok)
      ensures open ==> SameOutsideSector(words, old(words), window)
      ensures open && ok ==> words == Erased(old(words), window)
    {
      ok := *;
      ok := ok || Sound();
      if open {
        if ok {
          words := Erased(words, window);
        } else {
          Spoil();
        }
      }
    }

    /** chinch_flash_write_buf; the offset counts bytes. */
    method WriteBuf(offset: nat, buf: Words) returns (ok: bool)
      requires Valid() && offset % 2 == 0 && offset / 2 + |buf| <= SECTOR_WORDS
      modifies this`words
      ensures Valid() && (!open ==> words == old(words))
      ensures open ==> SameOutsideSector(words, old(words), window)
      ensures |buf| > 32 ==> !ok
      ensures Sound() && |buf| <= 32 ==> ok
      ensures open && ok ==> words == Programmed(old(words), window * SECTOR_WORDS + offset / 2, buf)
    {
      if |buf| > MAX_BUF_WRITES {
        return false;
      }
      ok := *;
      ok := ok || Sound();
      if open {
        if ok {
          words := Programmed(words, window * SECTOR_WORDS + offset / 2, buf);
        } else {
          Spoil();
        }
      }
    }

    /** chinch_flash_read_buf; a window that is not set up shows anything. */
    method ReadBuf(offset: nat, size: nat) returns (ok: bool, buf: Words)
      requires Valid() && offset % 2 == 0 && offset / 2 + size <= SECTOR_WORDS
      ensures |buf| == size && (reliable ==> ok)
      ensures open ==> buf == words[window * SECTOR_WORDS + offset / 2..window * SECTOR_WORDS + offset / 2 + size]
    {
      ok := *;
      ok := ok || reliable;
      if open {
        var first := window * SECTOR_WORDS + offset / 2;
        buf := words[first..first + size];
      } else {
        var any: int -> bv16 := *;
        buf := seq(size, i => any(i));
      }
    }

    /** The flash is as it was but for the sector shown, and without a window it is as it was. */
    ghost predicate Contained(was: Words)
      reads this
    {
      SameOutsideSector(words, was, window) && (!open ==> words == was)
    }

    /** The first `done` words of a packet's data have been written. */
    ghost predicate Written(was: Words, index: nat, data: Words, done: nat)
      requires Valid() && |was| == |words| && index + |data| <= SECTOR_WORDS && done <= |data|
      reads this
    {
      open ==> words == Programmed(was, window * SECTOR_WORDS + index, data[..done])
    }

    /** One buffered write of a packet, after the first `done` words of its data. */
    method WritePiece(ghost was: Words, index: nat, data: Words, done: nat) returns (ok: bool, next: nat)
      requires Valid() && index + |data| <= SECTOR_WORDS && done <= |data|
      requires Contained(was) && Written(was, index, data, done)
      modifies this`words
      ensures Valid() && Contained(was)
      ensures next == if |data| - done >= MAX_BUF_WRITES then done + MAX_BUF_WRITES else |data|
      ensures (ok ==> Written(was, index, data, next)) && (Sound() ==> ok)
    {
      hide Programmed;
      var n := if |data| - done >= MAX_BUF_WRITES then MAX_BUF_WRITES else |data| - done;
      ok := WriteBuf((index + done) * 2, data[done..done + n]);
      next := done + n;
      if open {
        ProgrammedTwice(was, window * SECTOR_WORDS + index, data[..done], data[done..next]);
        assert data[..done] + data[done..next] == data[..next];
      }
    }

    lemma NothingWritten(index: nat, data: Words)
      requires Valid() && index + |data| <= SECTOR_WORDS
      ensures Contained(words) && Written(words, index, data, 0)
    {
      assert data[..0] == [];
      if open {
        ProgramNothing(words, window * SECTOR_WORDS + index);
      }
    }

    /** The buffered writes of a packet: at most 32 words each, until one fails. */
    method WriteAll(index: nat, data: Words) returns (status: bool)
      requires Valid() && index + |data| <= SECTOR_WORDS
      modifies this`words
      ensures Valid() && Contained(old(words))
      ensures (status ==> Written(old(words), index, data, |data|)) && (Sound() ==> status)
    {
      ghost var was := words;
      var n := NumBufWrites(|data|);
      NothingWritten(index, data);
      status := true;
      var dataIndex: nat, i: nat := 0, 0;
      while i < n && status
        invariant Valid() && 0 <= i <= n && Pieces(|data|, n, i, dataIndex)
        invariant Contained(was) && (status ==> Written(was, index, data, dataIndex)) && (Sound() ==> status)
      {
        NextPiece(|data|, n, i, dataIndex);
        status, dataIndex := WritePiece(was, index, data, dataIndex);
        i := i + 1;
      }
    }

    /** The verification of a packet whose sector the window shows. */
    method ReadsBack(p: Packet, data: Words) returns (same: bool)
      requires Valid() && Fits(p, words) && data == WordsOf(p.data, p.size)
      ensures open && window == p.sector ==> (same ==> Shows(words, p)) && (reliable ==> (same <==> Shows(words, p)))
    {
      var ok, read := ReadBuf(p.index * 2, p.size);
      return ok && read == data;
    }

    /** handle_udp_fpga_prog, for a packet that carries data. Without an error, and with the window set up,
        the packet is in the flash, and if that is to be verified it reads back as its data; and only its sector
        is ever touched. Polls that never end are no answer. */
    method HandleData(p: Packet) returns (error: bool, answered: bool)
      requires Valid() && Fits(p, words)
      modifies this`words, this`window
      ensures Valid() && Fits(p, words) && (!open ==> words == old(words))
      ensures Sound() ==> answered && (!p.verify ==> !error)
      ensures !error && open ==> words == AfterPacket(old(words), p)
      ensures !error && open && p.verify ==> Shows(words, p)
      ensures Sound() && open ==>
                words == AfterPacket(old(words), p) && (error <==> p.verify && !Shows(words, p))
      ensures SameOutsideSector(words, old(words), p.sector)
    {
      hide Programmed, Erased, Shows;
      var data := WordsOf(p.data, p.size);
      assert data[..|data|] == data;
      var status := SelectSector(p.sector);
      if p.erase && status {
        status := EraseSector();
      }
      if status {
        status := WriteAll(p.index, data);
      }
      if p.verify {
        var same := ReadsBack(p, data);
        status := status && same;
      }
      error := !status;
      answered := *;
      answered := answered || Sound();
    }
  }

  // ---------- the flash after n packets ----------

  /** How many sectors n packets reach into. */
  function Sectors(n: nat): nat {
    (n + 511) / 512
  }

  /** The one packet, if any, that went wrong without the burner noticing: it never reached the board, or the
      board handled it with an error. */
  datatype Miss = Nothing | Lost(packet: nat) | Spoiled(packet: nat)

  predicate InSectorOf(a: nat, k: nat) {
    BASE + SECTOR_WORDS * (k / 512) <= a < BASE + SECTOR_WORDS * (k / 512 + 1)
  }

  predicate InPacket(a: nat, k: nat) {
    BASE + PACKET_WORDS * k <= a < BASE + PACKET_WORDS * (k + 1)
  }

  /** What a word is programmed over: a sector that n packets reach into has been erased, unless the packet that
      was to erase it was lost. */
  function Under(was: Words, n: nat, miss: Miss, a: nat): bv16
    requires a < |was|
  {
    if !(BASE <= a < BASE + SECTOR_WORDS * Sectors(n)) then was[a]
    else if miss.Lost? && miss.packet % 512 == 0 && InSectorOf(a, miss.packet) then was[a]
    else 0xFFFF
  }

  /** One word after n packets. */
  function WordAfter(was: Words, image: Bytes, n: nat, miss: Miss, a: nat): bv16
    requires a < |was|
  {
    var under := Under(was, n, miss, a);
    if BASE <= a < BASE + PACKET_WORDS * n && !(miss.Lost? && InPacket(a, miss.packet))
    then Over(under, FlashWord(image, a - BASE)) else under
  }

  /** The first n packets of the image, but for a lost one, are in the flash, over sectors they have erased;
      everything else is as it was. Of a sector in which the board made an error nothing is known. */
  ghost predicate HoldsPackets(words: Words, was: Words, image: Bytes, n: nat, miss: Miss) {
    && |words| == |was|
    && forall a :: 0 <= a < |words| && !(miss.Spoiled? && InSectorOf(a, miss.packet)) ==>
                     words[a] == WordAfter(was, image, n, miss, a)
  }

  /** If nothing went wrong: the words of the image, ones to the end of its last sector, and the rest as it was. */
  lemma NothingMissed(words: Words, was: Words, image: Bytes, n: nat)
    ensures HoldsPackets(words, was, image, n, Nothing) <==>
            && |words| == |was|
            && forall a :: 0 <= a < |words| ==>
                 words[a] == if BASE <= a < BASE + PACKET_WORDS * n then FlashWord(image, a - BASE)
                             else if BASE <= a < BASE + SECTOR_WORDS * Sectors(n) then 0xFFFF
                             else was[a]
  {
    hide Over, FlashWord;
    forall a | 0 <= a < |was|
      ensures WordAfter(was, image, n, Nothing, a)
           == if BASE <= a < BASE + PACKET_WORDS * n then FlashWord(image, a - BASE)
              else if BASE <= a < BASE + SECTOR_WORDS * Sectors(n) then 0xFFFF
              else was[a]
    {
      if BASE <= a < BASE + PACKET_WORDS * n {
        AndOnes(FlashWord(image, a - BASE));
        SectorsReach(n);
      }
    }
  }

  lemma AndOnes(w: bv16)
    ensures Over(0xFFFF, w) == w
  {}

  /** The words of packet k, as the board reads them off the wire. */
  lemma WordsOfPacket(image: Bytes, k: nat, i: nat)
    requires i < PACKET_WORDS
    ensures WordsOf(WireData(image, k), PACKET_WORDS)[i] == FlashWord(image, PACKET_WORDS * k + i)
  {
    hide WordOf, WireByte;
    assert WireData(image, k)[2 * i] == WireByte(image, 2 * (PACKET_WORDS * k + i));
    assert WireData(image, k)[2 * i + 1] == WireByte(image, 2 * (PACKET_WORDS * k + i) + 1);
  }

  lemma ErasedAt(words: Words, sector: nat, a: nat)
    requires (sector + 1) * SECTOR_WORDS <= |words| && a < |words|
    ensures Erased(words, sector)[a]
         == if sector * SECTOR_WORDS <= a < (sector + 1) * SECTOR_WORDS then 0xFFFF else words[a]
  {}

  lemma ProgrammedAt(words: Words, at: nat, w: Words, a: nat)
    requires at + |w| <= |words| && a < |words|
    ensures Programmed(words, at, w)[a] == if at <= a < at + |w| then Over(words[a], w[a - at]) else words[a]
  {
    hide Over;
    var before := words[at..at + |w|];
    if at <= a < at + |w| {
      AndAt(before, w, a - at);
      assert Programmed(words, at, w)[a] == And(before, w)[a - at];
    }
  }

  /** Where packet k goes, and which words its sector has. */
  lemma PlaceOfPacket(k: nat)
    ensures (SECTOR_START + k / 512) * SECTOR_WORDS == BASE + SECTOR_WORDS * (k / 512)
    ensures k % 512 == 0 ==> BASE + PACKET_WORDS * k == BASE + SECTOR_WORDS * (k / 512)
    ensures k % 512 == 0 ==> Sectors(k) == k / 512 && Sectors(k + 1) == k / 512 + 1
    ensures k % 512 != 0 ==> Sectors(k) == Sectors(k + 1) == k / 512 + 1
    ensures SECTOR_WORDS * (k / 512) <= PACKET_WORDS * k
    ensures PACKET_WORDS * (k + 1) <= SECTOR_WORDS * (k / 512 + 1)
  {
    var s := k / 512;
    assert k == 512 * s + k % 512;
  }

  lemma SectorsReach(n: nat)
    ensures PACKET_WORDS * n <= SECTOR_WORDS * Sectors(n)
  {}

  /** A packet before packet k, where packet k begins a sector, lies in another one. */
  lemma EarlierSector(k: nat, j: nat)
    requires j < k && k % 512 == 0
    ensures j / 512 + 1 <= k / 512
  {}

  /** One word after packet k, in terms of what it was before. */
  lemma PacketWord(words: Words, image: Bytes, verify: bool, k: nat, a: nat)
    requires Fits(PacketAt(image, verify, k), words) && a < |words|
    ensures var ready := if k % 512 == 0 && InSectorOf(a, k) then 0xFFFF else words[a];
            AfterPacket(words, PacketAt(image, verify, k))[a]
            == if InPacket(a, k) then Over(ready, FlashWord(image, a - BASE)) else ready
  {
    var p := PacketAt(image, verify, k);
    TargetOfPacket(image, verify, k);
    PlaceOfPacket(k);
    hide Over, FlashWord, WordsOf, Erased, Programmed, WireData, Target;
    if p.erase {
      ErasedAt(words, p.sector, a);
    }
    var e := if p.erase then Erased(words, p.sector) else words;
    ProgrammedAt(e, Target(p), WordsOf(p.data, p.size), a);
    if InPacket(a, k) {
      WordsOfPacket(image, k, a - Target(p));
    }
  }

  lemma UnderOneMore(was: Words, k: nat, miss: Miss, a: nat)
    requires a < |was| && (!miss.Nothing? ==> miss.packet < k)
    ensures Under(was, k + 1, miss, a) == if k % 512 == 0 && InSectorOf(a, k) then 0xFFFF else Under(was, k, miss, a)
  {
    hide Over, Sectors;
    PlaceOfPacket(k);
    if k % 512 == 0 && !miss.Nothing? {
      EarlierSector(k, miss.packet);
    }
  }

  /** What one more packet makes of a word. */
  lemma WordOneMore(was: Words, image: Bytes, k: nat, miss: Miss, a: nat)
    requires a < |was| && (!miss.Nothing? ==> miss.packet < k)
    ensures var ready := if k % 512 == 0 && InSectorOf(a, k) then 0xFFFF else WordAfter(was, image, k, miss, a);
            WordAfter(was, image, k + 1, miss, a)
            == if InPacket(a, k) then Over(ready, FlashWord(image, a - BASE)) else ready
  {
    hide Over, FlashWord, Sectors, Under;
    UnderOneMore(was, k, miss, a);
    PlaceOfPacket(k);
  }

  /** Packet k turns a flash that holds k packets into one that holds k + 1. */
  lemma HoldsOneMore(words: Words, was: Words, image: Bytes, verify: bool, k: nat, miss: Miss)
    requires HoldsPackets(words, was, image, k, miss) && (!miss.Nothing? ==> miss.packet < k)
    requires Fits(PacketAt(image, verify, k), words)
    ensures HoldsPackets(AfterPacket(words, PacketAt(image, verify, k)), was, image, k + 1, miss)
  {
    hide Over, FlashWord, AfterPacket, PacketAt, WordAfter, InPacket, InSectorOf;
    forall a | 0 <= a < |words| && !(miss.Spoiled? && InSectorOf(a, miss.packet))
      ensures AfterPacket(words, PacketAt(image, verify, k))[a] == WordAfter(was, image, k + 1, miss, a)
    {
      PacketWord(words, image, verify, k, a);
      WordOneMore(was, image, k, miss, a);
    }
  }

  /** Over an erased sector, a packet reads back as its data. */
  lemma PacketShows(words: Words, was: Words, image: Bytes, verify: bool, k: nat, miss: Miss)
    requires HoldsPackets(words, was, image, k, miss) && Fits(PacketAt(image, verify, k), words)
    requires miss.Nothing? || (miss.Lost? && miss.packet < k && miss.packet % 512 != 0)
    ensures Shows(AfterPacket(words, PacketAt(image, verify, k)), PacketAt(image, verify, k))
  {
    var p := PacketAt(image, verify, k);
    var after, data := AfterPacket(words, p), WordsOf(p.data, p.size);
    TargetOfPacket(image, verify, k);
    hide Over, FlashWord, AfterPacket, WordsOf, WireData, Target;
    forall i | 0 <= i < PACKET_WORDS ensures after[Target(p) + i] == data[i] {
      PacketWord(words, image, verify, k, Target(p) + i);
      ReadyIsErased(words, was, image, k, miss, Target(p) + i);
      AndOnes(FlashWord(image, PACKET_WORDS * k + i));
      WordsOfPacket(image, k, i);
    }
    assert after[Target(p)..Target(p) + p.size] == data;
  }

  /** Packet k finds ones where it goes. */
  lemma ReadyIsErased(words: Words, was: Words, image: Bytes, k: nat, miss: Miss, a: nat)
    requires HoldsPackets(words, was, image, k, miss) && a < |words| && InPacket(a, k)
    requires miss.Nothing? || (miss.Lost? && miss.packet < k && miss.packet % 512 != 0)
    ensures (if k % 512 == 0 && InSectorOf(a, k) then 0xFFFF else words[a]) == 0xFFFF
  {
    hide Over, FlashWord, Sectors;
    PlaceOfPacket(k);
  }

  /** Losing packet k leaves a flash that holds k + 1 packets but for that one. */
  lemma HoldsAllButLost(words: Words, was: Words, image: Bytes, k: nat)
    requires HoldsPackets(words, was, image, k, Nothing)
    ensures HoldsPackets(words, was, image, k + 1, Lost(k))
  {
    hide Over, FlashWord, Sectors;
    PlaceOfPacket(k);
  }

  /** An error in packet k spoils its sector at worst. */
  lemma HoldsAllButSpoiled(words: Words, before: Words, was: Words, image: Bytes, k: nat)
    requires HoldsPackets(before, was, image, k, Nothing) && SameOutsideSector(words, before, SECTOR_START + k / 512)
    ensures HoldsPackets(words, was, image, k + 1, Spoiled(k))
  {
    hide Over, FlashWord, Sectors;
    PlaceOfPacket(k);
  }

  // ---------- reading it back ----------

  /** The flash reads back as the image. */
  ghost predicate HoldsImage(words: Words, image: Bytes) {
    forall i :: 0 <= i < |image| ==> BASE + i / 2 < |words| && ReadBack(words, BASE, i) == image[i]
  }

  /** What the flash holds reads back as the image, filled up with zeros to a whole packet. */
  lemma ReadBackIsImage(words: Words, was: Words, image: Bytes, n: nat, i: nat)
    requires HoldsPackets(words, was, image, n, Nothing)
    requires i < PACKET_SIZE * n && BASE + PACKET_WORDS * n <= |words|
    ensures ReadBack(words, BASE, i) == if i < |image| then image[i] else 0
  {
    hide Over, FlashWord;
    NothingMissed(words, was, image, n);
    assert words[BASE + i / 2] == FlashWord(image, BASE + i / 2 - BASE);
    ReadBackOfFlashWord(words, BASE, image, i);
  }

  /** What reads back as byte i of the image after a burn that lost packet k: in that packet what was there, or
      ones if its sector had been erased; in the rest of a sector that was never erased, the image where the
      flash had ones; elsewhere the image. */
  function ByteWithout(was: Words, image: Bytes, k: nat, i: nat): bv8
    requires i < |image| && BASE + i / 2 < |was|
  {
    if i / PACKET_SIZE == k then (if k % 512 == 0 then ReadBack(was, BASE, i) else 0xFF)
    else if k % 512 == 0 && i / SECTOR_SIZE == k / 512 then ByteOver(ReadBack(was, BASE, i), image[i])
    else image[i]
  }

  /** Losing packet k does no harm: its bytes are what its place in the flash holds without it. */
  ghost predicate Harmless(was: Words, image: Bytes, k: nat) {
    forall i :: 0 <= i < |image| ==> BASE + i / 2 < |was| && ByteWithout(was, image, k, i) == image[i]
  }

  lemma SwapOfAnd(x: bv16, y: bv16)
    ensures BitSwap(LowByte(Over(x, y))) == ByteOver(BitSwap(LowByte(x)), BitSwap(LowByte(y)))
    ensures BitSwap(HighByte(Over(x, y))) == ByteOver(BitSwap(HighByte(x)), BitSwap(HighByte(y)))
  {}

  /** Undoing both swaps respects the bits. */
  lemma ReadBackOfAnd(words: Words, was: Words, image: Bytes, i: nat)
    requires BASE + i / 2 < |words| == |was|
    requires words[BASE + i / 2] == Over(was[BASE + i / 2], FlashWord(image, i / 2))
    ensures ReadBack(words, BASE, i) == ByteOver(ReadBack(was, BASE, i), ByteAt(image, i))
  {
    var flash := was[BASE + i / 2 := FlashWord(image, i / 2)];
    ReadBackOfFlashWord(flash, BASE, image, i);
    SwapOfAnd(was[BASE + i / 2], flash[BASE + i / 2]);
    hide Over, ByteOver, FlashWord, BitSwap, LowByte, HighByte, ByteAt;
  }

  lemma OnesReadBack(words: Words, i: nat)
    requires BASE + i / 2 < |words| && words[BASE + i / 2] == 0xFFFF
    ensures ReadBack(words, BASE, i) == 0xFF
  {
    assert BitSwap(LowByte(0xFFFF)) == 0xFF && BitSwap(HighByte(0xFFFF)) == 0xFF;
  }

  lemma PlaceOfByte(i: nat, k: nat)
    ensures InPacket(BASE + i / 2, k) <==> i / PACKET_SIZE == k
    ensures InSectorOf(BASE + i / 2, k) <==> i / SECTOR_SIZE == k / 512
  {}

  lemma SameReadBack(words: Words, was: Words, i: nat)
    requires BASE + i / 2 < |words| == |was| && words[BASE + i / 2] == was[BASE + i / 2]
    ensures ReadBack(words, BASE, i) == ReadBack(was, BASE, i)
  {}

  /** The word that byte i of the image belongs to, after a burn that lost packet k. */
  lemma WordWithout(was: Words, image: Bytes, n: nat, k: nat, i: nat)
    requires BASE + i / 2 < |was| && i < PACKET_SIZE * n && k < n
    ensures WordAfter(was, image, n, Lost(k), BASE + i / 2)
         == if i / PACKET_SIZE == k then (if k % 512 == 0 then was[BASE + i / 2] else 0xFFFF)
            else if k % 512 == 0 && i / SECTOR_SIZE == k / 512 then Over(was[BASE + i / 2], FlashWord(image, i / 2))
            else FlashWord(image, i / 2)
  {
    hide Over, FlashWord;
    PlaceOfByte(i, k);
    SectorsReach(n);
    hide InPacket, InSectorOf, Sectors;
    AndOnes(FlashWord(image, i / 2));
    PacketInSector(i, k);
  }

  lemma PacketInSector(i: nat, k: nat)
    ensures i / PACKET_SIZE == k ==> i / SECTOR_SIZE == k / 512
  {}

  /** Each byte after a burn of n packets that lost packet k. */
  lemma ReadBackWithout(words: Words, was: Words, image: Bytes, n: nat, k: nat, i: nat)
    requires HoldsPackets(words, was, image, n, Lost(k)) && k < n
    requires i < |image| <= PACKET_SIZE * n && BASE + PACKET_WORDS * n <= |words|
    ensures ReadBack(words, BASE, i) == ByteWithout(was, image, k, i)
  {
    assert words[BASE + i / 2] == WordAfter(was, image, n, Lost(k), BASE + i / 2);
    WordWithout(was, image, n, k, i);
    hide ByteOver, Over, FlashWord, ReadBack, WordAfter, HoldsPackets;
    if i / PACKET_SIZE == k {
      if k % 512 == 0 {
        SameReadBack(words, was, i);
      } else {
        OnesReadBack(words, i);
      }
    } else if k % 512 == 0 && i / SECTOR_SIZE == k / 512 {
      ReadBackOfAnd(words, was, image, i);
    } else {
      ReadBackOfFlashWord(words, BASE, image, i);
    }
  }

  // ---------- the burner ----------

  datatype Outcome = Done | TooLarge | InitFailed | NoAck | Failed

  datatype Ack = Timeout | Reply(error: bool)

  /** What becomes of a packet and the reply to it. A late reply comes after the time it is waited for. */
  datatype Fate = RequestLost | ReplyLost | ReplyLate | Answered

  /** Any network that delivers requests in order, if at all, and duplicates nothing; or one that delivers
      everything in order and in time, but for the data packet numbered `lost`. */
  datatype Net = Any | Good(lost: Option<nat>)

  /** What the wire carries of a packet buffer after its last loop has swapped each pair. */
  method PreparePacket(buffer: array<bv8>, image: Bytes, position: nat) returns (newPosition: nat)
    requires buffer.Length == PACKET_SIZE && position % PACKET_SIZE == 0 && position < |image|
    modifies buffer
    ensures buffer[..] == WireData(image, position / PACKET_SIZE)
    ensures newPosition == if position + PACKET_SIZE > |image| then |image| else position + PACKET_SIZE
  {
    newPosition := if position + PACKET_SIZE > |image| then |image| else position + PACKET_SIZE;
    var n := newPosition - position;
    hide BitSwap;
    for k := 0 to PACKET_SIZE
      invariant forall i :: 0 <= i < k ==> buffer[i] == ByteAt(image, position + i)
    {
      buffer[k] := if k < n then image[position + k] else 0;
    }
    for k := 0 to PACKET_SIZE
      invariant forall i :: 0 <= i < PACKET_SIZE ==>
                  buffer[i] == if i < k then BitSwap(ByteAt(image, position + i)) else ByteAt(image, position + i)
    {
      buffer[k] := BitSwap(buffer[k]);
    }
    ghost var straight := buffer[..];
    SwapPairs(buffer);
    SwappedIsWireData(buffer[..], straight, image, position / PACKET_SIZE);
  }

  ghost predicate Swapped(b: Bytes, was: Bytes, n: nat)
    requires |b| == |was| == PACKET_SIZE && n <= PACKET_WORDS
  {
    forall k :: 0 <= k < n ==> b[2 * k] == was[2 * k + 1] && b[2 * k + 1] == was[2 * k]
  }

  lemma SameParity(n: nat, i: nat)
    ensures (PACKET_SIZE * n + i) % 2 == i % 2
  {
    assert PACKET_SIZE * n + i == 2 * (PACKET_WORDS * n + i / 2) + i % 2;
  }

  lemma WireDataAt(image: Bytes, n: nat, i: nat)
    requires i < PACKET_SIZE
    ensures WireData(image, n)[i] == BitSwap(ByteAt(image, PACKET_SIZE * n + if i % 2 == 0 then i + 1 else i - 1))
  {
    hide BitSwap, ByteAt;
    assert WireData(image, n)[i] == WireByte(image, PACKET_SIZE * n + i) by {
      hide WireByte;
    }
    SameParity(n, i);
  }

  lemma SwappedIsWireData(b: Bytes, straight: Bytes, image: Bytes, n: nat)
    requires |b| == |straight| == PACKET_SIZE && Swapped(b, straight, PACKET_WORDS)
    requires forall i :: 0 <= i < PACKET_SIZE ==> straight[i] == BitSwap(ByteAt(image, PACKET_SIZE * n + i))
    ensures b == WireData(image, n)
  {
    hide BitSwap, ByteAt, WireByte, WireData;
    forall i | 0 <= i < PACKET_SIZE ensures b[i] == WireData(image, n)[i] {
      WireDataAt(image, n, i);
      var k := i / 2;
      assert i == 2 * k || i == 2 * k + 1;
      assert b[2 * k] == straight[2 * k + 1] && b[2 * k + 1] == straight[2 * k];
    }
  }

  /** htonx on each 16-bit word. */
  method SwapPairs(buffer: array<bv8>)
    requires buffer.Length == PACKET_SIZE
    modifies buffer
    ensures Swapped(buffer[..], old(buffer[..]), PACKET_WORDS)
  {
    for k := 0 to PACKET_WORDS
      invariant Swapped(buffer[..], old(buffer[..]), k)
      invariant forall i :: 2 * k <= i < PACKET_SIZE ==> buffer[i] == old(buffer[i])
    {
      buffer[2 * k], buffer[2 * k + 1] := buffer[2 * k + 1], buffer[2 * k];
    }
  }

  /** The burner's socket. Replies carry an error flag and nothing that tells them apart, so one that came late
      is taken for the next. */
  class Transport {
    /** A reply that is still in the socket, or on its way to it. */
    var unread: Option<bool>

    constructor ()
      ensures unread == None
    {
      unread := None;
    }

    /** recv, after the reply `own` has been sent. */
    method Receive(own: Option<bool>, inTime: bool) returns (ack: Ack)
      modifies this
      ensures ack.Reply? ==> || (old(unread) == Some(ack.error) && unread == own)
                             || (own == Some(ack.error) && unread == old(unread))
      ensures inTime && (own.Some? || old(unread).Some?) ==> ack.Reply?
      ensures inTime && old(unread).Some? ==> ack == Reply(old(unread).value) && unread == own
    {
      var late: bool, ownFirst: bool := *, *;
      if (unread == None && own == None) || (late && !inTime) {
        return Timeout;
      }
      if unread == None || (ownFirst && own.Some? && !inTime) {
        return Reply(own.value);
      }
      ack := Reply(unread.value);
      unread := own;
    }
  }

  /** Data packet k is sent and its acknowledgement awaited. */
  method SendData(board: Board, transport: Transport, p: Packet, k: nat, net: Net)
    returns (ack: Ack, ghost miss: Miss)
    requires board.Valid() && Fits(p, board.words)
    modifies board`words, board`window, transport
    ensures board.Valid() && Fits(p, board.words) && (!board.open ==> board.words == old(board.words))
    ensures SameOutsideSector(board.words, old(board.words), p.sector)
    ensures miss in {Nothing, Lost(k), Spoiled(k)}
    ensures miss.Lost? ==> board.words == old(board.words)
    ensures miss.Nothing? && board.open ==> board.words == AfterPacket(old(board.words), p)
    ensures miss.Spoiled? && board.reliable && board.open ==> p.verify && !Shows(AfterPacket(old(board.words), p), p)
    ensures ack == Reply(false) ==> Accounted(miss, old(transport.unread), transport.unread)
    ensures && Untroubled(board, p.verify, net) && (net.lost == Some(k) ==> old(transport.unread) == Some(false))
            && (p.verify && net.lost != Some(k) ==> Shows(AfterPacket(old(board.words), p), p)) ==>
              && (old(transport.unread) != Some(true) ==> ack == Reply(false))
              && transport.unread == (if net.lost == Some(k) || old(transport.unread).None? then None else Some(false))
              && miss == (if net.lost == Some(k) then Lost(k) else Nothing)
  {
    hide AfterPacket;
    var fate: Fate := *;
    if net.Good? {
      fate := if net.lost == Some(k) then RequestLost else Answered;
    }
    if fate.RequestLost? {
      miss := Lost(k);
      ack := transport.Receive(None, net.Good?);
    } else {
      var error, answered := board.HandleData(p);
      miss := if error then Spoiled(k) else Nothing;
      var own := if fate.ReplyLost? || !answered then None else Some(error);
      ack := transport.Receive(own, net.Good?);
    }
  }

  /** How the unread reply changes when a packet is acknowledged: a packet that went wrong without notice has
      used up a good one. */
  predicate Accounted(miss: Miss, before: Option<bool>, after: Option<bool>) {
    && (after.Some? ==> before.Some?)
    && (before != Some(false) ==> miss.Nothing? && after == before)
    && (miss.Lost? ==> after == None)
    && (miss.Spoiled? ==> after != Some(false))
  }

  /** Neither the board nor the network is at fault, but for the packet that is lost. */
  ghost predicate Untroubled(board: Board, verify: bool, net: Net)
    reads board
  {
    board.Sound() && (verify ==> board.open) && net.Good?
  }

  /** The packet that opens the flash window. A timeout goes unnoticed: the reply buffer is still zero, and
      that carries no error flag. */
  method SendInit(board: Board, transport: Transport, fate: Fate) returns (error: bool)
    requires board.Valid() && transport.unread == None
    modifies board`open, board`cachedOpen, board`cachedWindow, transport
    ensures board.Valid()
    ensures fate.RequestLost? ==> board.open == old(board.open)
    ensures fate.Answered? && !error ==> board.open
    ensures board.reliable || fate != Answered ==> !error
    ensures board.reliable && fate != RequestLost ==> board.open
    ensures fate != RequestLost ==> board.cachedOpen == old(board.open) && board.cachedWindow == old(board.window)
    ensures transport.unread.Some? <==> fate.ReplyLate?
    ensures board.reliable && fate.ReplyLate? ==> transport.unread == Some(false)
  {
    if fate.RequestLost? {
      return false;
    }
    var ok := board.FlashInit();
    if fate.ReplyLate? {
      transport.unread := Some(!ok);
    }
    return fate.Answered? && !ok;
  }

  /** Nothing outside the sectors of the image has changed. */
  ghost predicate Untouched(words: Words, was: Words, size: nat) {
    && |words| == |was|
    && forall a :: 0 <= a < |words| && !(BASE <= a < BASE + SECTOR_WORDS * Sectors(NumPackets(size))) ==>
         words[a] == was[a]
  }

  lemma PacketFits(image: Bytes, verify: bool, k: nat, words: Words)
    requires k < NumPackets(|image|) && |image| <= BIT_MAX_SIZE && |words| >= LAST_SECTOR * SECTOR_WORDS
    ensures Fits(PacketAt(image, verify, k), words)
    ensures SECTOR_START <= PacketAt(image, verify, k).sector < SECTOR_START + Sectors(NumPackets(|image|))
  {}

  lemma StillUntouched(now: Words, before: Words, was: Words, size: nat, sector: nat)
    requires Untouched(before, was, size) && SameOutsideSector(now, before, sector)
    requires SECTOR_START <= sector < SECTOR_START + Sectors(NumPackets(size))
    ensures Untouched(now, was, size)
  {
    hide NumPackets, Sectors;
  }

  lemma QuotientAndRest(x: nat, d: nat, q: nat, r: nat)
    requires (d == 512 || d == SECTOR_SIZE) && r < d && x == d * q + r
    ensures x / d == q && x % d == r
  {}

  lemma FieldsOfPacket(i: nat, j: nat)
    requires i % SECTOR_SIZE == 0 && i <= j < i + SECTOR_SIZE && j % PACKET_SIZE == 0
    ensures (j == i) == (j / PACKET_SIZE % 512 == 0)
    ensures i / SECTOR_SIZE == j / PACKET_SIZE / 512
    ensures j % SECTOR_SIZE / 2 == j / PACKET_SIZE % 512 * PACKET_WORDS
  {
    var s, k := i / SECTOR_SIZE, j / PACKET_SIZE;
    assert i == SECTOR_SIZE * s && j == PACKET_SIZE * k;
    var r := k - 512 * s;
    QuotientAndRest(k, 512, s, r);
    QuotientAndRest(j, SECTOR_SIZE, s, j - i);
    assert j - i == PACKET_SIZE * r;
  }

  /** Where a burn has come to: k packets have been sent and acknowledged. `late` tells whether the reply to the
      first packet of the burn came late; one packet can then go wrong without notice, and uses it up. */
  ghost predicate Burned(board: Board, transport: Transport, image: Bytes, was: Words, k: nat, late: bool, miss: Miss)
    reads board, transport
  {
    && board.Valid() && Untouched(board.words, was, |image|)
    && (if board.open then HoldsPackets(board.words, was, image, k, miss) else board.words == was)
    && Missed(k, late, miss, transport.unread)
  }

  predicate Missed(k: nat, late: bool, miss: Miss, unread: Option<bool>) {
    && (unread.Some? ==> late)
    && (!miss.Nothing? ==> late && miss.packet < k && unread != Some(false))
    && (miss.Lost? ==> unread == None)
  }

  /** On a network that loses one data packet at most, that packet is what goes wrong. */
  predicate AsPlanned(lost: Option<nat>, k: nat, late: bool, miss: Miss, unread: Option<bool>) {
    && miss == (if lost.Some? && lost.value < k then Lost(lost.value) else Nothing)
    && unread == (if late && miss.Nothing? then Some(false) else None)
  }

  /** Nothing stands in the way of a burn, not even the packet that is lost. If the first one of a sector were,
      what is written to the rest of it might not read back, and be noticed if that is verified. */
  ghost predicate Smooth(board: Board, verify: bool, net: Net, late: bool)
    reads board
  {
    Untroubled(board, verify, net) && (net.lost.Some? ==> late && (verify ==> net.lost.value % 512 != 0))
  }

  lemma StillMissed(k: nat, late: bool, before: Miss, miss: Miss, unread: Option<bool>, unread': Option<bool>)
    requires Missed(k, late, before, unread) && Accounted(miss, unread, unread')
    requires miss in {Nothing, Lost(k), Spoiled(k)}
    ensures !miss.Nothing? ==> before.Nothing?
    ensures Missed(k + 1, late, if miss.Nothing? then before else miss, unread')
  {}

  /** What one exchange makes of the flash. */
  lemma FlashAfter(now: Words, words: Words, was: Words, image: Bytes, verify: bool, k: nat, before: Miss, miss: Miss)
    requires HoldsPackets(words, was, image, k, before) && (!before.Nothing? ==> before.packet < k)
    requires Fits(PacketAt(image, verify, k), words) && miss in {Nothing, Lost(k), Spoiled(k)}
    requires !miss.Nothing? ==> before.Nothing?
    requires miss.Nothing? ==> now == AfterPacket(words, PacketAt(image, verify, k))
    requires miss.Lost? ==> now == words
    requires SameOutsideSector(now, words, SECTOR_START + k / 512)
    ensures HoldsPackets(now, was, image, k + 1, if miss.Nothing? then before else miss)
  {
    hide HoldsPackets, AfterPacket, SameOutsideSector, Fits;
    match miss {
      case Nothing => HoldsOneMore(words, was, image, verify, k, before);
      case Lost(_) => HoldsAllButLost(words, was, image, k);
      case Spoiled(_) => HoldsAllButSpoiled(now, words, was, image, k);
    }
  }

  lemma NextPlanned(lost: Option<nat>, k: nat, late: bool, before: Miss, miss: Miss, unread: Option<bool>,
                    unread': Option<bool>)
    requires AsPlanned(lost, k, late, before, unread) && (lost.Some? ==> late)
    ensures unread != Some(true) && (lost == Some(k) ==> unread == Some(false))
    ensures miss == (if lost == Some(k) then Lost(k) else Nothing)
            && unread' == (if lost == Some(k) || unread == None then None else Some(false)) ==>
              AsPlanned(lost, k + 1, late, if miss.Nothing? then before else miss, unread')
  {}

  /** One packet and its acknowledgement. */
  method BurnData(board: Board, transport: Transport, ghost image: Bytes, verify: bool, p: Packet, k: nat, net: Net,
                  ghost was: Words, ghost late: bool, ghost miss0: Miss)
    returns (ack: Ack, ghost miss: Miss)
    requires k < NumPackets(|image|) && |image| <= BIT_MAX_SIZE && p == PacketAt(image, verify, k)
    requires Burned(board, transport, image, was, k, late, miss0)
    modifies board`words, board`window, transport
    ensures board.Valid() && Untouched(board.words, was, |image|) && (!board.open ==> board.words == was)
    ensures ack == Reply(false) ==> Burned(board, transport, image, was, k + 1, late, miss)
    ensures board.reliable && board.open && !miss0.Spoiled? ==> !miss.Spoiled?
    ensures Smooth(board, verify, net, late) && AsPlanned(net.lost, k, late, miss0, old(transport.unread)) ==>
              ack == Reply(false) && AsPlanned(net.lost, k + 1, late, miss, transport.unread)
  {
    PacketFits(image, verify, k, board.words);
    ghost var before, unread := board.words, transport.unread;
    if board.open && (miss0.Nothing? || (miss0.Lost? && miss0.packet % 512 != 0)) {
      PacketShows(before, was, image, verify, k, miss0);
    }
    hide Shows, HoldsPackets, AfterPacket, Untouched, SameOutsideSector, AsPlanned, Fits;
    ghost var what;
    ack, what := SendData(board, transport, p, k, net);
    StillUntouched(board.words, before, was, |image|, p.sector);
    if ack == Reply(false) {
      StillMissed(k, late, miss0, what, unread, transport.unread);
      if board.open {
        FlashAfter(board.words, before, was, image, verify, k, miss0, what);
      }
    }
    if Smooth(board, verify, net, late) && AsPlanned(net.lost, k, late, miss0, unread) {
      NextPlanned(net.lost, k, late, miss0, what, unread, transport.unread);
    }
    miss := if ack == Reply(false) && !what.Nothing? then what else miss0;
  }

  /** One round of the packet loop: fields, data, and acknowledgement. */
  method BurnPacket(board: Board, transport: Transport, buffer: array<bv8>, image: Bytes, verify: bool,
                    i: nat, j: nat, position: nat, net: Net, ghost was: Words, ghost late: bool, ghost miss0: Miss)
    returns (ack: Ack, newPosition: nat, p: Packet, ghost miss: Miss)
    requires buffer.Length == PACKET_SIZE && |image| <= BIT_MAX_SIZE
    requires i % SECTOR_SIZE == 0 && i <= j < i + SECTOR_SIZE && j % PACKET_SIZE == 0 && position == j < |image|
    requires Burned(board, transport, image, was, j / PACKET_SIZE, late, miss0)
    modifies board`words, board`window, transport, buffer
    ensures board.Valid() && Untouched(board.words, was, |image|) && (!board.open ==> board.words == was)
    ensures newPosition == if position + PACKET_SIZE > |image| then |image| else position + PACKET_SIZE
    ensures p == PacketAt(image, verify, j / PACKET_SIZE)
    ensures ack == Reply(false) ==> Burned(board, transport, image, was, j / PACKET_SIZE + 1, late, miss)
    ensures board.reliable && board.open && !miss0.Spoiled? ==> !miss.Spoiled?
    ensures && Smooth(board, verify, net, late)
            && AsPlanned(net.lost, j / PACKET_SIZE, late, miss0, old(transport.unread)) ==>
              ack == Reply(false) && AsPlanned(net.lost, j / PACKET_SIZE + 1, late, miss, transport.unread)
  {
    hide WireData, Burned, Smooth, AsPlanned;
    newPosition := PreparePacket(buffer, image, position);
    p := Packet(verify, j == i, SECTOR_START + i / SECTOR_SIZE, j % SECTOR_SIZE / 2, PACKET_SIZE / 2, buffer[..]);
    FieldsOfPacket(i, j);
    hide PacketAt;
    ack, miss := BurnData(board, transport, image, verify, p, j / PACKET_SIZE, net, was, late, miss0);
  }

  /** The packet loop has come to byte j of an image of this size. */
  predicate InSectorLoop(size: nat, i: nat, j: nat, position: nat) {
    && i % SECTOR_SIZE == 0 && i <= j <= i + SECTOR_SIZE && j % PACKET_SIZE == 0 && j < size + PACKET_SIZE
    && position == if j < size then j else size
  }

  lemma NextRound(size: nat, i: nat, j: nat, position: nat)
    requires InSectorLoop(size, i, j, position) && j < size && j < i + SECTOR_SIZE
    ensures var next := if position + PACKET_SIZE > size then size else position + PACKET_SIZE;
            InSectorLoop(size, i, j + PACKET_SIZE, next)
    ensures j / PACKET_SIZE < NumPackets(size) && (j + PACKET_SIZE) / PACKET_SIZE == j / PACKET_SIZE + 1
  {
    var s, q := i / SECTOR_SIZE, j / PACKET_SIZE;
    assert i == SECTOR_SIZE * s && j == PACKET_SIZE * q;
    assert q < 512 * s + 512;
    assert j + PACKET_SIZE == PACKET_SIZE * (q + 1);
  }

  lemma SectorLoopEnds(size: nat, i: nat, j: nat, position: nat)
    requires InSectorLoop(size, i, j, position) && i < size && (j >= size || j >= i + SECTOR_SIZE)
    ensures j / PACKET_SIZE == if i + SECTOR_SIZE < size then i / PACKET_SIZE + 512 else NumPackets(size)
    ensures j / PACKET_SIZE <= NumPackets(size)
    ensures position == if i + SECTOR_SIZE < size then i + SECTOR_SIZE else size
  {}

  lemma PacketsMore(image: Bytes, verify: bool, n: nat)
    ensures Packets(image, verify, n) + [PacketAt(image, verify, n)] == Packets(image, verify, n + 1)
  {
    hide PacketAt;
  }

  /** The packet loop for the sector that starts at byte i. */
  method BurnSector(board: Board, transport: Transport, buffer: array<bv8>, image: Bytes, verify: bool,
                    i: nat, position: nat, net: Net,
                    ghost was: Words, ghost late: bool, ghost miss0: Miss, ghost sent0: seq<Packet>)
    returns (r: Outcome, newPosition: nat, ghost sent: seq<Packet>, ghost miss: Miss)
    requires buffer.Length == PACKET_SIZE && |image| <= BIT_MAX_SIZE
    requires i % SECTOR_SIZE == 0 && position == i < |image|
    requires Burned(board, transport, image, was, i / PACKET_SIZE, late, miss0)
    requires sent0 == Packets(image, verify, i / PACKET_SIZE)
    modifies board`words, board`window, transport, buffer
    ensures board.Valid() && Untouched(board.words, was, |image|) && (!board.open ==> board.words == was)
    ensures r in {Done, NoAck, Failed}
    ensures |sent| <= NumPackets(|image|) && sent == Packets(image, verify, |sent|)
    ensures r.Done? ==> |sent| == if i + SECTOR_SIZE < |image| then i / PACKET_SIZE + 512 else NumPackets(|image|)
    ensures r.Done? ==> newPosition == if i + SECTOR_SIZE < |image| then i + SECTOR_SIZE else |image|
    ensures r.Done? ==> Burned(board, transport, image, was, |sent|, late, miss)
    ensures board.reliable && board.open && !miss0.Spoiled? ==> !miss.Spoiled?
    ensures Smooth(board, verify, net, late) && AsPlanned(net.lost, |sent0|, late, miss0, old(transport.unread)) ==>
              r.Done? && AsPlanned(net.lost, |sent|, late, miss, transport.unread)
  {
    var j := i;
    newPosition, sent, miss := position, sent0, miss0;
    hide NumPackets;
    while j < |image| && j < i + SECTOR_SIZE
      invariant InSectorLoop(|image|, i, j, newPosition)
      invariant |sent| == j / PACKET_SIZE && sent == Packets(image, verify, |sent|)
      invariant Burned(board, transport, image, was, |sent|, late, miss)
      invariant board.reliable && board.open && !miss0.Spoiled? ==> !miss.Spoiled?
      invariant Smooth(board, verify, net, late) && AsPlanned(net.lost, |sent0|, late, miss0, old(transport.unread)) ==>
                  AsPlanned(net.lost, |sent|, late, miss, transport.unread)
    {
      PacketsMore(image, verify, j / PACKET_SIZE);
      NextRound(|image|, i, j, newPosition);
      hide WireData, PacketAt, Packets, NumPackets, Burned, Smooth, AsPlanned;
      var ack, position', p;
      ack, position', p, miss := BurnPacket(board, transport, buffer, image, verify, i, j, newPosition, net,
                                            was, late, miss);
      sent := sent + [p];
      newPosition := position';
      if ack != Reply(false) {
        return if ack.Timeout? then NoAck else Failed, newPosition, sent, miss;
      }
      j := j + PACKET_SIZE;
    }
    SectorLoopEnds(|image|, i, j, newPosition);
    r := Done;
  }

  /** What a burn that returns has left: the image, if nothing went wrong. */
  lemma ReturnedBurn(words: Words, was: Words, image: Bytes, miss: Miss)
    requires |words| == |was| >= LAST_SECTOR * SECTOR_WORDS && |image| <= BIT_MAX_SIZE && !miss.Spoiled?
    requires HoldsPackets(words, was, image, NumPackets(|image|), miss)
    requires miss.Lost? ==> miss.packet < NumPackets(|image|)
    ensures HoldsImage(words, image) <==> miss.Nothing? || Harmless(was, image, miss.packet)
  {
    hide HoldsPackets, ReadBack, ByteWithout;
    var n := NumPackets(|image|);
    forall i | 0 <= i < |image|
      ensures ReadBack(words, BASE, i) == if miss.Nothing? then image[i] else ByteWithout(was, image, miss.packet, i)
    {
      if miss.Nothing? {
        ReadBackIsImage(words, was, image, n, i);
      } else {
        ReadBackWithout(words, was, image, n, miss.packet, i);
      }
    }
  }

  function MaxSize(isBit: bool): nat {
    if isBit then BIT_MAX_SIZE else BIN_SIZE
  }

  /** The sector loop. */
  method BurnSectors(board: Board, transport: Transport, image: Bytes, verify: bool, net: Net, ghost late: bool)
    returns (r: Outcome, ghost sent: seq<Packet>, ghost miss: Miss)
    requires board.Valid() && |image| <= BIT_MAX_SIZE && (transport.unread.Some? ==> late)
    modifies board`words, board`window, transport
    ensures board.Valid() && r in {Done, NoAck, Failed}
    ensures |sent| <= NumPackets(|image|) && sent == Packets(image, verify, |sent|)
    ensures r.Done? ==> |sent| == NumPackets(|image|)
    ensures r.Done? ==> Burned(board, transport, image, old(board.words), NumPackets(|image|), late, miss)
    ensures Untouched(board.words, old(board.words), |image|) && (!board.open ==> board.words == old(board.words))
    ensures board.reliable && board.open ==> !miss.Spoiled?
    ensures Smooth(board, verify, net, late) && old(transport.unread) == (if late then Some(false) else None) ==>
              r.Done? && AsPlanned(net.lost, NumPackets(|image|), late, miss, transport.unread)
  {
    ghost var was := board.words;
    sent, miss := [], Nothing;
    var buffer := new bv8[PACKET_SIZE];
    var i, position := 0, 0;
    NothingSent(was, image);
    while i < |image|
      invariant 0 <= i && i % SECTOR_SIZE == 0 && position == if i < |image| then i else |image|
      invariant |sent| == (if i < |image| then i / PACKET_SIZE else NumPackets(|image|))
      invariant sent == Packets(image, verify, |sent|)
      invariant Burned(board, transport, image, was, |sent|, late, miss)
      invariant board.reliable && board.open ==> !miss.Spoiled?
      invariant Smooth(board, verify, net, late) && old(transport.unread) == (if late then Some(false) else None) ==>
                  AsPlanned(net.lost, |sent|, late, miss, transport.unread)
    {
      hide HoldsPackets, PacketAt, Untouched, NumPackets, Packets;
      r, position, sent, miss := BurnSector(board, transport, buffer, image, verify, i, position, net,
                                            was, late, miss, sent);
      if r != Done {
        return;
      }
      i := i + SECTOR_SIZE;
    }
    r := Done;
  }

  lemma NothingSent(was: Words, image: Bytes)
    ensures HoldsPackets(was, was, image, 0, Nothing)
  {}

  /** The clean-up packet puts the window back to what it was before the burn. */
  method SendCleanup(board: Board, transport: Transport, net: Net) returns (r: Outcome)
    requires board.Valid()
    modifies board`open, board`window, transport
    ensures board.Valid() && r in {Done, NoAck, Failed}
    ensures net.Good? && old(transport.unread) != Some(true) ==> r.Done?
    ensures board.open in {old(board.open), old(board.cachedOpen)}
    ensures net.Good? && board.reliable ==>
              board.open == old(board.cachedOpen) && board.window == old(board.cachedWindow)
  {
    var fate: Fate := *;
    if net.Good? {
      fate := Answered;
    }
    var ack;
    if fate.RequestLost? {
      ack := transport.Receive(None, net.Good?);
    } else {
      board.FlashCleanup();
      ack := transport.Receive(if fate.ReplyLost? then None else Some(false), net.Good?);
    }
    return if ack.Timeout? then NoAck else if ack.error then Failed else Done;
  }

  /** ethernet_burn for .bit and .bin images. Every packet is sent once, in order, and no other sector is ever
      touched. `shown` tells whether the window was open for the data, and `miss` which packet went wrong without
      notice; there is at most one, and only if the reply to the first packet of the burn came late. */
  method EthernetBurn(board: Board, image: Bytes, isBit: bool, verify: bool, initFate: Fate, net: Net)
    returns (r: Outcome, ghost sent: seq<Packet>, ghost shown: bool, ghost miss: Miss)
    requires board.Valid()
    modifies board
    ensures board.Valid()
    ensures isBit ==> (r.TooLarge? <==> |image| > 15878032)
    ensures !isBit ==> (r.TooLarge? <==> |image| > 15877916)
    ensures |sent| <= NumPackets(|image|) && sent == Packets(image, verify, |sent|)
    ensures r.Done? ==> |sent| == NumPackets(|image|)
    ensures Untouched(board.words, old(board.words), |image|) && (!shown ==> board.words == old(board.words))
    ensures r.Done? && shown ==> HoldsPackets(board.words, old(board.words), image, NumPackets(|image|), miss)
    ensures r.Done? && !(shown && miss.Spoiled?) ==>
              (HoldsImage(board.words, image)
               <==> if shown then miss.Nothing? || Harmless(old(board.words), image, miss.packet)
                    else HoldsImage(old(board.words), image))
    ensures initFate.RequestLost? ==> shown == old(board.open)
    ensures r.Done? && initFate.Answered? ==> shown
    ensures r.Done? && !miss.Nothing? ==> initFate.ReplyLate? && miss.packet < NumPackets(|image|)
    ensures board.reliable && initFate != RequestLost && |image| <= MaxSize(isBit) ==> shown
    ensures board.reliable && shown ==> !miss.Spoiled?
    ensures r.Done? && net.Good? && board.reliable && initFate != RequestLost ==>
              board.open == old(board.open) && board.window == old(board.window)
    ensures && net.Good? && board.reliable && (shown || (board.settles && !verify)) && |image| <= MaxSize(isBit)
            && (net.lost.Some? ==> initFate.ReplyLate? && (verify ==> net.lost.value % 512 != 0)) ==>
              r.Done? && miss == if net.lost.Some? && net.lost.value < NumPackets(|image|) then Lost(net.lost.value)
                                 else Nothing
  {
    sent, shown, miss := [], board.open, Nothing;
    ghost var was := board.words;
    if |image| > MaxSize(isBit) {
      return TooLarge, [], shown, Nothing;
    }
    var transport := new Transport();
    var error := SendInit(board, transport, initFate);
    shown := board.open;
    if error {
      return InitFailed, [], shown, Nothing;
    }
    r, sent, miss := BurnSectors(board, transport, image, verify, net, initFate.ReplyLate?);
    if r.Done? {
      if shown && !miss.Spoiled? {
        ReturnedBurn(board.words, was, image, miss);
      }
      r := SendCleanup(board, transport, net);
    }
  }

  lemma UniformFlash(words: Words, cell: bv16, image: Bytes)
    requires |words| == LAST_SECTOR * SECTOR_WORDS && forall a :: 0 <= a < |words| ==> words[a] == cell
    requires |image| > 0 && cell == if image[0] == 0 then 0xFFFF else 0
    ensures !HoldsImage(words, image) && !Harmless(words, image, 0)
  {
    assert ReadBack(words, BASE, 0) == BitSwap(LowByte(cell));
    assert BitSwap(LowByte(0xFFFF)) == 0xFF && BitSwap(LowByte(0)) == 0;
    assert ByteWithout(words, image, 0, 0) == ReadBack(words, BASE, 0);
  }

  /** A flash that does not hold the image, nor would it for want of its first packet. */
  method WrongFlash(image: Bytes) returns (words: Words)
    requires |image| > 0
    ensures |words| == LAST_SECTOR * SECTOR_WORDS && !HoldsImage(words, image) && !Harmless(words, image, 0)
  {
    var cell: bv16 := if image[0] == 0 then 0xFFFF else 0;
    words := seq(LAST_SECTOR * SECTOR_WORDS, _ => cell);
    UniformFlash(words, cell, image);
  }

  /** For every non-empty image there is a board on which a burn whose first packet alone is lost returns as done
      and has stored nothing: one whose polls are satisfied by what answers in place of the window. */
  method LostInit(image: Bytes, isBit: bool) returns (board: Board, r: Outcome)
    requires 0 < |image| <= MaxSize(isBit)
    ensures fresh(board) && board.reliable && r.Done?
    ensures !HoldsImage(board.words, image)
  {
    var words := WrongFlash(image);
    board := new Board(words, true, true);
    ghost var sent, shown, miss;
    r, sent, shown, miss := EthernetBurn(board, image, isBit, false, RequestLost, Good(None));
  }

  /** For every non-empty image there is a board without any fault on which a burn returns as done and has not
      stored its first data packet, which was lost after a late reply. */
  method LateReply(image: Bytes, isBit: bool) returns (board: Board, r: Outcome)
    requires 0 < |image| <= MaxSize(isBit)
    ensures fresh(board) && board.reliable && r.Done?
    ensures !HoldsImage(board.words, image)
  {
    var words := WrongFlash(image);
    board := new Board(words, true, false);
    ghost var sent, shown, miss;
    r, sent, shown, miss := EthernetBurn(board, image, isBit, false, ReplyLate, Good(Some(0)));
  }
}
