/** What the bootloader of an OctoClock starts, over any run of packets and turns of its main loop. */
module OctoClockRuns {
  import opened Wrappers
  import opened Crc16
  import opened OctoClock

  datatype Event = Packet(request: Request) | Turn(timePassed: bool)

  /** The bootloader's state as a value. */
  datatype Device = Device(flash: Bytes, crcInfo: CrcInfo, eeprom: CrcInfo, receivedCmd: bool, doneBurning: bool,
                           appChecked: bool, started: bool)
  {
    ghost predicate Valid() {
      |flash| == FLASH_SIZE && crcInfo.fwLen < UINT16 && eeprom.fwLen < UINT16
    }

    predicate Checks(timePassed: bool) {
      doneBurning || (!appChecked && !receivedCmd && timePassed)
    }

    /** The CRC that a check computes. */
    function Computed(): bv16
      requires Valid()
    {
      Crc(flash[..eeprom.fwLen])
    }
  }

  ghost predicate WellFormed(events: seq<Event>) {
    forall e :: e in events && e.Packet? ==> e.request.WellFormed()
  }

  function AfterPacket(d: Device, r: Request): (d': Device)
    requires d.Valid() && r.WellFormed()
    ensures d'.Valid()
  {
    match r
    case Prepare(_, crc, len) => d.(receivedCmd := true, doneBurning := false, crcInfo := CrcInfo(len, crc))
    case Transfer(_, addr, data) => d.(flash := WithPage(d.flash, addr, data))
    case Read(_, _) => d
    case Finalize(_) => d.(doneBurning := true, eeprom := d.crcInfo)
  }

  function AfterTurn(d: Device, timePassed: bool): (d': Device)
    requires d.Valid()
    ensures d'.Valid()
  {
    var ok := d.Computed() == d.eeprom.fwCrc;
    if !d.Checks(timePassed) then d
    else
      d.(crcInfo := CrcInfo(d.crcInfo.fwLen, d.Computed()), started := ok, doneBurning := d.doneBurning && ok,
         appChecked := d.appChecked || (timePassed && !d.receivedCmd && !(d.doneBurning && ok)))
  }

  /** Nothing more happens here once the application has been started. */
  function Run(d: Device, events: seq<Event>): (d': Device)
    requires d.Valid() && WellFormed(events)
    ensures d'.Valid()
  {
    if events == [] then d
    else
      var before := Run(d, events[..|events| - 1]);
      if before.started then before
      else match events[|events| - 1]
        case Packet(r) => AfterPacket(before, r)
        case Turn(timePassed) => AfterTurn(before, timePassed)
  }

  ghost function StateOf(dev: Bootloader): Device
    reads dev
  {
    Device(dev.flash, dev.crcInfo, dev.eeprom, dev.receivedCmd, dev.doneBurning, dev.appChecked, dev.started)
  }

  lemma RunOneMore(d: Device, events: seq<Event>, i: nat)
    requires d.Valid() && WellFormed(events) && i < |events|
    ensures WellFormed(events[..i]) && WellFormed(events[..i + 1]) && WellFormed([events[i]])
    ensures var before := Run(d, events[..i]);
            Run(d, events[..i + 1]) == if before.started then before else Run(before, [events[i]])
    ensures Run(d, events[..i]).started ==> Run(d, events[..i + 1]).started
  {
    assert events[..i + 1][..i] == events[..i];
    var before := Run(d, events[..i]);
    assert Run(before, [events[i]][..0]) == before;
  }

  /** The bootloader goes through any run as the functions say. */
  method AnyRun(dev: Bootloader, events: seq<Event>)
    requires dev.Valid() && WellFormed(events)
    modifies dev
    ensures dev.Valid() && StateOf(dev) == Run(old(StateOf(dev)), events)
  {
    ghost var d := StateOf(dev);
    for i := 0 to |events|
      invariant dev.Valid() && WellFormed(events[..i]) && StateOf(dev) == Run(d, events[..i])
    {
      hide Run;
      RunOneMore(d, events, i);
      if !dev.started {
        OneEvent(dev, events[i]);
      }
    }
    assert events[..|events|] == events;
  }

  method OneEvent(dev: Bootloader, e: Event)
    requires dev.Valid() && WellFormed([e]) && !dev.started
    modifies dev
    ensures dev.Valid() && StateOf(dev) == Run(old(StateOf(dev)), [e])
  {
    assert e in [e];
    assert [e][..0] == [];
    match e {
      case Packet(r) => var _ := dev.Handle(r);
      case Turn(timePassed) => dev.Poll(timePassed);
    }
  }

  // ---------- what is started ----------

  /** The CRC that the last check of a run computed. */
  function LastCheck(d: Device, events: seq<Event>): Option<bv16>
    requires d.Valid() && WellFormed(events)
  {
    if events == [] then None
    else
      var init, e := events[..|events| - 1], events[|events| - 1];
      var before := Run(d, init);
      if !before.started && e.Turn? && before.Checks(e.timePassed) then Some(before.Computed())
      else LastCheck(d, init)
  }

  /** An announcement has just arrived. */
  ghost predicate JustAnnounced(d: Device) {
    d.Valid() && d.receivedCmd && !d.doneBurning && !d.started
  }

  ghost predicate NoAnnouncement(events: seq<Event>) {
    WellFormed(events) && forall e :: e in events && e.Packet? ==> !e.request.Prepare?
  }

  ghost predicate NoTransfer(events: seq<Event>) {
    forall e :: e in events && e.Packet? ==> !e.request.Transfer?
  }

  /** The CRC an end would store: the announced one until a check has overwritten it. */
  function Told(d: Device, events: seq<Event>): bv16
    requires d.Valid() && WellFormed(events)
  {
    if LastCheck(d, events).Some? then LastCheck(d, events).value else d.crcInfo.fwCrc
  }

  /** Event k is an end that is handled. */
  ghost predicate EndAt(d: Device, events: seq<Event>, k: nat)
    requires d.Valid() && WellFormed(events) && k < |events|
  {
    events[k].Packet? && events[k].request.Finalize? && !Run(d, events[..k]).started
  }

  /** Event k is the last end that is handled. */
  ghost predicate LastEndAt(d: Device, events: seq<Event>, k: nat)
    requires d.Valid() && WellFormed(events) && k < |events|
  {
    EndAt(d, events, k) && forall j :: k < j < |events| ==> !EndAt(d, events, j)
  }

  /** Event k is the last end, and what it found is what the EEPROM holds. */
  ghost predicate StoredAt(d: Device, events: seq<Event>, k: nat, eeprom: CrcInfo)
    requires d.Valid() && WellFormed(events)
  {
    k < |events| && LastEndAt(d, events, k) && eeprom == CrcInfo(d.crcInfo.fwLen, Told(d, events[..k]))
  }

  lemma StillStored(d: Device, events: seq<Event>, k: nat, eeprom: CrcInfo)
    requires d.Valid() && WellFormed(events) && events != [] && WellFormed(events[..|events| - 1])
    requires StoredAt(d, events[..|events| - 1], k, eeprom) && !EndAt(d, events, |events| - 1)
    ensures StoredAt(d, events, k, eeprom)
  {
    hide Told, Run;
    var init := events[..|events| - 1];
    assert init[..k] == events[..k];
    forall j | k < j < |events| - 1 ensures !EndAt(d, events, j) {
      assert init[..j] == events[..j];
      assert !EndAt(d, init, j);
    }
  }

  lemma EndStores(d: Device, events: seq<Event>)
    requires d.Valid() && NoAnnouncement(events) && events != [] && EndAt(d, events, |events| - 1)
    requires Run(d, events[..|events| - 1]).crcInfo == CrcInfo(d.crcInfo.fwLen, Told(d, events[..|events| - 1]))
    ensures StoredAt(d, events, |events| - 1, Run(d, events).eeprom)
  {}

  /** The effect of the last event, if it is no announcement. */
  lemma LastStep(d: Device, events: seq<Event>)
    requires d.Valid() && NoAnnouncement(events) && events != []
    requires Run(d, events[..|events| - 1]).receivedCmd
    ensures var s, s' := Run(d, events[..|events| - 1]), Run(d, events);
            && s'.receivedCmd && s'.crcInfo.fwLen == s.crcInfo.fwLen && (s.started ==> s' == s)
            && (s.crcInfo.fwCrc == Told(d, events[..|events| - 1]) ==> s'.crcInfo.fwCrc == Told(d, events))
            && (!EndAt(d, events, |events| - 1) ==>
                  s'.eeprom == s.eeprom && (s'.doneBurning || s'.started ==> s.doneBurning || s.started))
            && (s'.started && !s.started ==> s'.Computed() == s'.eeprom.fwCrc)
  {
    assert events[|events| - 1] in events;
  }

  /** After an announcement: what an end would store is announced or computed, and what has been stored is
      what the last end found. */
  lemma {:induction false} WhatIsStored(d: Device, events: seq<Event>)
    requires JustAnnounced(d) && NoAnnouncement(events)
    ensures var s := Run(d, events);
            && s.receivedCmd && s.crcInfo == CrcInfo(d.crcInfo.fwLen, Told(d, events))
            && (s.doneBurning || s.started ==> exists k :: StoredAt(d, events, k, s.eeprom))
            && (s.started ==> s.Computed() == s.eeprom.fwCrc)
  {
    if events != [] {
      var n := |events| - 1;
      var init := events[..n];
      WhatIsStored(d, init);
      LastStep(d, events);
      hide Told, StoredAt, EndAt, Run;
      var s, s' := Run(d, init), Run(d, events);
      if EndAt(d, events, n) {
        EndStores(d, events);
      } else if s'.doneBurning || s'.started {
        var k :| StoredAt(d, init, k, s.eeprom);
        StillStored(d, events, k, s.eeprom);
      }
    }
  }

  /** Whatever arrives after an announcement: if the application is started, its CRC is the one announced,
      unless a check has come before the last end; then it is the one the last such check computed. */
  lemma StartedWithWhatTheLastEndFound(d: Device, events: seq<Event>)
    requires JustAnnounced(d) && NoAnnouncement(events) && Run(d, events).started
    ensures exists k :: 0 <= k < |events| && LastEndAt(d, events, k)
                        && Crc(Run(d, events).flash[..d.crcInfo.fwLen]) == Told(d, events[..k])
  {
    WhatIsStored(d, events);
  }

  lemma {:induction false} NoCheckBefore(d: Device, events: seq<Event>, k: nat)
    requires d.Valid() && WellFormed(events) && k <= |events| && LastCheck(d, events).None?
    ensures LastCheck(d, events[..k]).None?
    decreases |events|
  {
    if k == |events| {
      assert events[..k] == events;
    } else {
      NoCheckBefore(d, events[..|events| - 1], k);
      assert events[..|events| - 1][..k] == events[..k];
    }
  }

  /** While no block arrives, every check after a failed one finds the same wrong CRC. */
  lemma {:induction false} FailedChecks(d: Device, events: seq<Event>)
    requires JustAnnounced(d) && NoAnnouncement(events) && NoTransfer(events)
    ensures var s, len := Run(d, events), d.crcInfo.fwLen;
            && s.flash == d.flash
            && (LastCheck(d, events).Some? ==> LastCheck(d, events) == Some(Crc(d.flash[..len])))
            && (LastCheck(d, events).Some? && !s.started ==> Crc(d.flash[..len]) != d.crcInfo.fwCrc)
  {
    if events != [] {
      var n := |events| - 1;
      var init := events[..n];
      assert events[n] in events;
      FailedChecks(d, init);
      WhatIsStored(d, init);
      var s := Run(d, init);
      if !s.started && s.doneBurning && LastCheck(d, init).None? {
        var k :| StoredAt(d, init, k, s.eeprom);
        NoCheckBefore(d, init, k);
      }
    }
  }

  /** If no block arrives after the announcement, the application is started with a CRC that was not announced
      exactly when an end arrives after a check. */
  lemma UnannouncedIffEndAfterCheck(d: Device, events: seq<Event>)
    requires JustAnnounced(d) && NoAnnouncement(events) && NoTransfer(events) && Run(d, events).started
    ensures Crc(d.flash[..d.crcInfo.fwLen]) != d.crcInfo.fwCrc
       <==> exists k :: 0 <= k < |events| && EndAt(d, events, k) && LastCheck(d, events[..k]).Some?
  {
    FailedChecks(d, events);
    StartedWithWhatTheLastEndFound(d, events);
    forall k | 0 <= k < |events| && EndAt(d, events, k) && LastCheck(d, events[..k]).Some?
      ensures Crc(d.flash[..d.crcInfo.fwLen]) != d.crcInfo.fwCrc
    {
      FailedChecks(d, events[..k]);
    }
  }

  /** A device that is left alone starts its application, if it is valid, one second after it was switched on, and
      never otherwise. */
  lemma {:induction false} LeftAlone(d: Device, events: seq<Event>)
    requires d.Valid() && !d.receivedCmd && !d.doneBurning && !d.appChecked && !d.started
    requires forall e :: e in events ==> e.Turn?
    ensures WellFormed(events)
    ensures var s := Run(d, events);
            && s.flash == d.flash && s.eeprom == d.eeprom && !s.receivedCmd && !s.doneBurning
            && (s.appChecked <==> Turn(true) in events)
            && (s.started <==> Turn(true) in events && d.Computed() == d.eeprom.fwCrc)
  {
    if events != [] {
      var init, e := events[..|events| - 1], events[|events| - 1];
      assert e in events && events == init + [e];
      LeftAlone(d, init);
    }
  }
}
