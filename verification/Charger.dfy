/** The battery charger driver of the E310: an interrupt handler that leaves a flag, a poll routine that picks
    it up and reads the chip's status and fault registers, and getters that use what was read once. Between
    any two accesses the chip may change and the handler may run. */
module Charger {
  // ---------- registers ----------

  predicate PowerGood(status: bv8) { status & 0x04 != 0 }

  function ChargeState(status: bv8): bv8 { (status & 0x30) >> 4 }

  predicate ChargeDone(status: bv8) { ChargeState(status) == 3 }

  function ChargeFault(fault: bv8): bv8 { (fault & 0x30) >> 4 }

  /** High impedance mode is switched off when the power source has gone. */
  function Controlled(control: bv8, before: bv8, after: bv8): bv8 {
    if PowerGood(before) && !PowerGood(after) then control & 0x7F else control
  }

  /** The event flags: PMU_CHARGER_EVENT_STATUS_CHANGE, _FAULT_CHANGE and _CHARGE_DONE. */
  datatype Flags = Flags(statusChange: bool, faultChange: bool, chargeDone: bool)

  const NO_FLAGS := Flags(false, false, false)

  datatype Health = Good | UnspecFail | Overvoltage | Overheat | Cold | SafetyTimerExpire | UnknownHealth

  datatype BatteryStatus = NotCharging | Charging | Full | Discharging

  function ChargerHealthOf(fault: bv8): Health {
    if fault & 0x40 != 0 then Overvoltage
    else match ChargeFault(fault)
      case 0 => Good
      case 1 => UnspecFail
      case 2 => Overheat
      case 3 => SafetyTimerExpire
      case _ => UnknownHealth
  }

  function BatteryHealthOf(fault: bv8): Health {
    if fault & 0x08 != 0 then Overvoltage
    else
      var ntc := fault & 0x07;
      if ntc == 0 then Good
      else if ntc == 1 || ntc == 3 || ntc == 5 then Cold
      else if ntc == 2 || ntc == 4 || ntc == 6 then Overheat
      else UnknownHealth
  }

  function BatteryStatusOf(fault: bv8, status: bv8): BatteryStatus {
    if !PowerGood(status) || ChargeFault(fault) != 0 then Discharging
    else match ChargeState(status)
      case 0 => NotCharging
      case 1 => Charging
      case 2 => Charging
      case 3 => Full
      case _ => NotCharging
  }

  // ---------- the bits of the registers ----------

  /** The fault register: bit 6 is a boost fault, bits 5 and 4 are the charge fault. */
  lemma ChargerHealthTable(fault: bv8)
    ensures ChargerHealthOf(fault) == Overvoltage <==> fault & 0x40 == 0x40
    ensures fault & 0x70 == 0 <==> ChargerHealthOf(fault) == Good
    ensures fault & 0x70 == 0x10 <==> ChargerHealthOf(fault) == UnspecFail
    ensures fault & 0x70 == 0x20 <==> ChargerHealthOf(fault) == Overheat
    ensures fault & 0x70 == 0x30 <==> ChargerHealthOf(fault) == SafetyTimerExpire
  {}

  /** Bit 3 is a battery fault, and bits 2 to 0 tell of the two thermistors. */
  lemma BatteryHealthTable(fault: bv8)
    ensures BatteryHealthOf(fault) == Overvoltage <==> fault & 0x08 == 0x08
    ensures BatteryHealthOf(fault) == Good <==> fault & 0x0F == 0
    ensures BatteryHealthOf(fault) == Cold <==> fault & 0x0F in {1, 3, 5}
    ensures BatteryHealthOf(fault) == Overheat <==> fault & 0x0F in {2, 4, 6}
    ensures BatteryHealthOf(fault) == UnknownHealth <==> fault & 0x0F == 7
  {}

  /** The status register: bit 2 is good power, and bits 5 and 4 are the state of charging. */
  lemma BatteryStatusTable(fault: bv8, status: bv8)
    ensures BatteryStatusOf(fault, status) == Discharging <==> status & 0x04 == 0 || fault & 0x30 != 0
    ensures BatteryStatusOf(fault, status) == Full <==> status & 0x34 == 0x34 && fault & 0x30 == 0
    ensures BatteryStatusOf(fault, status) == NotCharging <==> status & 0x34 == 0x04 && fault & 0x30 == 0
    ensures BatteryStatusOf(fault, status) == Charging <==> status & 0x34 in {0x14, 0x24} && fault & 0x30 == 0
  {}

  /** Bit 7 of the input source register is cleared, and no other bit is changed, exactly when good power has
      gone. */
  lemma HighImpedanceOff(control: bv8, before: bv8, after: bv8)
    ensures Controlled(control, before, after) & 0x7F == control & 0x7F
    ensures Controlled(control, before, after) & 0x80
         == if before & 0x04 == 0x04 && after & 0x04 == 0 then 0 else control & 0x80
  {}

  lemma DoneEntered(before: bv8, after: bv8)
    ensures EntersDone(before, after) <==> before & 0x30 != 0x30 && after & 0x30 == 0x30
  {}

  // ---------- entries into the done state ----------

  /** Two status values read one after the other, the second in the done state and the first not. */
  predicate EntersDone(before: bv8, after: bv8) {
    !ChargeDone(before) && ChargeDone(after)
  }

  function Entries(observed: seq<bv8>): nat {
    if |observed| < 2 then 0
    else Entries(observed[..|observed| - 1])
         + if EntersDone(observed[|observed| - 2], observed[|observed| - 1]) then 1 else 0
  }

  function DoneReports(reports: seq<Flags>): nat {
    if reports == [] then 0
    else DoneReports(reports[..|reports| - 1]) + if reports[|reports| - 1].chargeDone then 1 else 0
  }

  /** What each check reported, about the statuses that it and the check before it observed. */
  ghost predicate Tells(reports: seq<Flags>, observed: seq<bv8>)
    ensures Tells(reports, observed) ==> |observed| == |reports| + 1
  {
    && |observed| == |reports| + 1
    && forall k :: 0 <= k < |reports| ==>
         && reports[k].chargeDone == EntersDone(observed[k], observed[k + 1])
         && reports[k].statusChange == (observed[k] != observed[k + 1])
  }

  lemma {:induction false} OneReportPerEntry(reports: seq<Flags>, observed: seq<bv8>)
    requires Tells(reports, observed)
    ensures DoneReports(reports) == Entries(observed)
  {
    if reports != [] {
      var n := |reports| - 1;
      OneReportPerEntry(reports[..n], observed[..n + 1]);
      assert observed[..n + 1] == observed[..|observed| - 1];
    }
  }

  lemma TellsOneMore(reports: seq<Flags>, observed: seq<bv8>, flags: Flags, s: bv8)
    requires Tells(reports, observed)
    requires flags.chargeDone == EntersDone(observed[|observed| - 1], s)
    requires flags.statusChange == (observed[|observed| - 1] != s)
    ensures Tells(reports + [flags], observed + [s])
  {}

  // ---------- the driver and the chip ----------

  /** How far a check has come, and what it has read but not yet recorded. */
  datatype Phase = Idle | Taken | HasStatus(status: bv8) | StatusRecorded | HasFault(fault: bv8)

  lemma DoneWhenChanged(before: bv8, after: bv8)
    ensures (before & 0x30 != after & 0x30 && ChargeState(after) == 3) <==> EntersDone(before, after)
  {}

  class System {
    /** Whether interrupts are prompt: the line stays low until the handler has run, and the chip changes while it
        is low only if that is noticed all the same. */
    const prompt: bool

    // The chip.
    var hwStatus: bv8
    var hwFault: bv8
    var inputControl: bv8
    /** The interrupt line is low, and a pin change interrupt is pending. */
    var line: bool
    var pending: bool

    // The driver.
    var status: bv8
    var fault: bv8
    var batteryStatusValid: bool
    var batteryHealthValid: bool
    var chargerHealthValid: bool
    var event: bool

    /** Whether the handler has ever set the flag and how often, how often the chip has changed, the status values
        that checks have read, and what they returned. */
    ghost var handled: bool
    ghost var raised: nat
    ghost var changes: nat
    ghost var observed: seq<bv8>
    ghost var reports: seq<Flags>

    /** bq2419x_init */
    constructor (prompt: bool, hwStatus: bv8, hwFault: bv8, inputControl: bv8)
      ensures this.prompt == prompt && Valid(Idle) && Recorded()
      ensures this.hwStatus == hwStatus && this.hwFault == hwFault && observed == [0]
      ensures !line && !pending && !event && !handled && status == 0 && fault == 0
    {
      this.prompt := prompt;
      this.hwStatus, this.hwFault, this.inputControl := hwStatus, hwFault, inputControl;
      line, pending, event, handled := false, false, false, false;
      status, fault := 0, 0;
      batteryStatusValid, batteryHealthValid, chargerHealthValid := false, false, false;
      changes, raised, observed, reports := 0, 0, [0], [];
    }

    /** Once an interrupt has been handled, whatever the chip says that is not yet recorded will be: an
        interrupt is about to be handled, the flag is up, or the check at work has it. */
    ghost predicate Valid(phase: Phase)
      reads this
    {
      && (event ==> handled)
      && (phase != Idle ==> handled)
      && (batteryStatusValid || batteryHealthValid || chargerHealthValid ==> handled)
      && (prompt && handled ==> (pending && line) || event || LeftRecorded(phase) == (hwStatus, hwFault))
    }

    /** The status and fault that will be recorded when the check at work has ended, if the chip stays as it is. */
    ghost function LeftRecorded(phase: Phase): (bv8, bv8)
      reads this
    {
      match phase
      case Idle => (status, fault)
      case Taken => (hwStatus, hwFault)
      case HasStatus(s) => (s, hwFault)
      case StatusRecorded => (status, hwFault)
      case HasFault(f) => (status, f)
    }

    /** Nothing is outstanding, but what is recorded will be wrong. */
    ghost predicate Lost(phase: Phase)
      reads this
    {
      Quiet() && LeftRecorded(phase) != (hwStatus, hwFault)
    }

    /** Between checks, the last report is about the last status observed, which is the one recorded. */
    ghost predicate Recorded()
      reads this
    {
      Tells(reports, observed) && status == observed[|observed| - 1]
    }

    ghost predicate Quiet()
      reads this
    {
      !pending && !event
    }

    /** A register that the check at work has read already, or that none will read, is to change. */
    predicate News(phase: Phase, newStatus: bv8, newFault: bv8)
      reads this
    {
      match phase
      case Idle => newStatus != status || newFault != fault
      case Taken => false
      case HasStatus(s) => newStatus != s
      case StatusRecorded => newStatus != status
      case HasFault(f) => newStatus != status || newFault != f
    }

    /** The registers may change to this without harm: the line is high, so that pulling it low is an edge, or
        the handler or a check is still to come, or the check at work will see it or has nothing to see. */
    predicate Noticed(phase: Phase, newStatus: bv8, newFault: bv8)
      reads this
    {
      !line || pending || event || !News(phase, newStatus, newFault)
    }

    /** The chip's registers change, and it pulls the line low. Only an edge raises an interrupt. */
    method Change(newStatus: bv8, newFault: bv8, ghost phase: Phase)
      requires Valid(phase) && (prompt ==> Noticed(phase, newStatus, newFault))
      modifies this`hwStatus, this`hwFault, this`line, this`pending, this`changes
      ensures Valid(phase) && hwStatus == newStatus && hwFault == newFault
      ensures line && pending == (old(pending) || !old(line))
      ensures changes == old(changes) + 1
    {
      hwStatus, hwFault := newStatus, newFault;
      pending := pending || !line;
      line := true;
      changes := changes + 1;
    }

    /** The chip lets go of the line, which is a pin change too. */
    method Release(ghost phase: Phase)
      requires Valid(phase) && (prompt ==> !pending)
      modifies this`line, this`pending
      ensures Valid(phase) && !line && pending == (old(pending) || old(line))
    {
      pending := pending || line;
      line := false;
    }

    /** bq2419x_irq_handler, when the interrupt is taken. */
    method Interrupt(ghost phase: Phase)
      requires Valid(phase) && pending
      modifies this`pending, this`event, this`handled, this`raised
      ensures Valid(phase) && !pending
      ensures event == (old(event) || line) && handled == (old(handled) || line)
      ensures raised == old(raised) + if line then 1 else 0
    {
      pending := false;
      if line {
        event := true;
        handled := true;
        raised := raised + 1;
      }
    }

    /** Anything may happen between two steps of the driver. */
    method Interleave(phase: Phase)
      requires Valid(phase)
      modifies this`hwStatus, this`hwFault, this`line, this`pending, this`changes, this`event, this`handled, this`raised
      ensures Valid(phase) && (old(handled) ==> handled) && old(changes) <= changes
      ensures changes == old(changes) ==> hwStatus == old(hwStatus) && hwFault == old(hwFault)
      ensures old(event) ==> event
      ensures old(raised) <= raised && (event ==> old(event) || raised > old(raised))
    {
      var steps: nat := *;
      while steps > 0
        invariant Valid(phase) && (old(handled) ==> handled) && old(changes) <= changes
        invariant changes == old(changes) ==> hwStatus == old(hwStatus) && hwFault == old(hwFault)
        invariant old(event) ==> event
        invariant old(raised) <= raised && (event ==> old(event) || raised > old(raised))
      {
        var change: bool, release: bool := *, *;
        var s: bv8, f: bv8 := *, *;
        if change && (!prompt || Noticed(phase, s, f)) {
          Change(s, f, phase);
        } else if release && (!prompt || !pending) {
          Release(phase);
        } else if pending {
          Interrupt(phase);
        }
        steps := steps - 1;
      }
    }

    /** bq2419x_pmu_charger_check_events. `ran` says whether it found the flag up, which it then takes. */
    method CheckEvents() returns (flags: Flags, ghost ran: bool)
      requires Valid(Idle) && Recorded()
      modifies this
      ensures Valid(Idle) && Recorded() && (old(handled) ==> handled)
      ensures !ran ==> flags == Flags(false, false, false) && Untouched() && !old(event) && !event
      ensures ran ==> Checked(flags) && (event ==> raised > old(raised))
      ensures ran && changes == old(changes) ==> status == hwStatus && fault == hwFault
    {
      hide Controlled, EntersDone, Tells;
      Interleave(Idle);
      ran := event;
      if event {
        event := false;
        flags := ReadAndRecord();
      } else {
        flags := NO_FLAGS;
      }
    }

    /** Which answers come from the recorded fault is as it was. */
    twostate predicate SameCached()
      reads this
    {
      && batteryStatusValid == old(batteryStatusValid) && batteryHealthValid == old(batteryHealthValid)
      && chargerHealthValid == old(chargerHealthValid)
    }

    twostate predicate Untouched()
      reads this
    {
      && status == old(status) && fault == old(fault) && inputControl == old(inputControl)
      && reports == old(reports) && observed == old(observed)
      && SameCached()
    }

    /** The effects of a check that found the flag up and returned `flags`. */
    twostate predicate Checked(flags: Flags)
      reads this
    {
      && observed == old(observed) + [status] && reports == old(reports) + [flags]
      && flags == Flags(status != old(status), fault != old(fault), EntersDone(old(status), status))
      && (if flags.faultChange then batteryStatusValid && batteryHealthValid && chargerHealthValid else SameCached())
      && inputControl == Controlled(old(inputControl), old(status), status)
    }

    /** A check records what the chip says, if it stays as it is; and the flag is up again only if the handler has
        raised it. */
    twostate predicate Undisturbed()
      reads this
    {
      && old(changes) <= changes && old(raised) <= raised && (event ==> old(event) || raised > old(raised))
      && (changes == old(changes) ==>
            (status, fault) == (old(hwStatus), old(hwFault)) == (hwStatus, hwFault))
    }

    /** What check_events does once it has taken the flag. */
    method ReadAndRecord() returns (flags: Flags)
      requires Valid(Taken) && Recorded()
      modifies this
      ensures Valid(Idle) && Recorded() && (old(handled) ==> handled)
      ensures Checked(flags) && Undisturbed()
    {
      flags := ReadBoth();
      TellsOneMore(reports, observed, flags, status);
      observed := observed + [status];
      reports := reports + [flags];
    }

    method ReadBoth() returns (flags: Flags)
      requires Valid(Taken)
      modifies this
      ensures Undisturbed()
      ensures Valid(Idle) && (old(handled) ==> handled) && observed == old(observed) && reports == old(reports)
      ensures flags == Flags(status != old(status), fault != old(fault), EntersDone(old(status), status))
      ensures if flags.faultChange then batteryStatusValid && batteryHealthValid && chargerHealthValid else SameCached()
      ensures inputControl == Controlled(old(inputControl), old(status), status)
    {
      Interleave(Taken);
      var s := hwStatus;
      Interleave(HasStatus(s));
      flags := RecordStatus(s);
      Interleave(StatusRecorded);
      var changed := RecordFault();
      flags := flags.(faultChange := changed);
    }

    /** The second read of check_events. */
    method RecordFault() returns (changed: bool)
      requires Valid(StatusRecorded)
      modifies this`fault, this`batteryStatusValid, this`batteryHealthValid, this`chargerHealthValid,
               this`hwStatus, this`hwFault, this`line, this`pending, this`changes, this`event, this`handled, this`raised
      ensures Valid(Idle) && (old(handled) ==> handled)
      ensures fault == old(hwFault) && changed == (fault != old(fault)) && old(changes) <= changes
      ensures changes == old(changes) ==> hwStatus == old(hwStatus) && hwFault == old(hwFault)
      ensures old(raised) <= raised && (event ==> old(event) || raised > old(raised))
      ensures if changed then batteryStatusValid && batteryHealthValid && chargerHealthValid else SameCached()
    {
      var f := hwFault;
      Interleave(HasFault(f));
      changed := f != fault;
      if changed {
        fault := f;
        batteryStatusValid, batteryHealthValid, chargerHealthValid := true, true, true;
      }
    }

    /** The part of check_events between its two reads. In host mode the chip must be told to let the battery
        supply the power when the power source goes. */
    method RecordStatus(s: bv8) returns (flags: Flags)
      requires Valid(HasStatus(s))
      modifies this`status, this`inputControl, this`hwStatus, this`hwFault, this`line, this`pending, this`changes,
               this`event, this`handled, this`raised
      ensures Valid(StatusRecorded) && status == s && (old(handled) ==> handled) && old(changes) <= changes
      ensures changes == old(changes) ==> hwStatus == old(hwStatus) && hwFault == old(hwFault)
      ensures old(raised) <= raised && (event ==> old(event) || raised > old(raised))
      ensures flags == Flags(s != old(status), false, EntersDone(old(status), s))
      ensures inputControl == Controlled(old(inputControl), old(status), s)
    {
      flags := NO_FLAGS;
      if s != status {
        if PowerGood(status) && !PowerGood(s) {
          var control := inputControl;
          Interleave(HasStatus(s));
          inputControl := control & 0x7F;
        }
        if status & 0x30 != s & 0x30 {
          if ChargeState(s) == 3 {
            flags := flags.(chargeDone := true);
          }
        }
        DoneWhenChanged(status, s);
        status := s;
        flags := flags.(statusChange := true);
      }
    }

    /** bq2419x_charger_get_health */
    method ChargerHealth() returns (r: Health)
      requires Valid(Idle)
      modifies this`chargerHealthValid
      ensures Valid(Idle) && !chargerHealthValid
      ensures r == ChargerHealthOf(if old(chargerHealthValid) then fault else hwFault)
      ensures prompt && Quiet() ==> r == ChargerHealthOf(hwFault)
    {
      var f := if chargerHealthValid then fault else hwFault;
      chargerHealthValid := false;
      return ChargerHealthOf(f);
    }

    /** bq2419x_battery_get_health */
    method BatteryHealth() returns (r: Health)
      requires Valid(Idle)
      modifies this`batteryHealthValid
      ensures Valid(Idle) && !batteryHealthValid
      ensures r == BatteryHealthOf(if old(batteryHealthValid) then fault else hwFault)
      ensures prompt && Quiet() ==> r == BatteryHealthOf(hwFault)
    {
      var f := if batteryHealthValid then fault else hwFault;
      batteryHealthValid := false;
      return BatteryHealthOf(f);
    }

    /** bq2419x_battery_get_status. Read from the chip, fault and status may be of different moments; but when
        nothing was outstanding and nothing changes meanwhile, the answer is about the chip as it is. */
    method GetBatteryStatus() returns (r: BatteryStatus)
      requires Valid(Idle)
      modifies this`batteryStatusValid, this`hwStatus, this`hwFault, this`line, this`pending, this`changes,
               this`event, this`handled, this`raised
      ensures Valid(Idle) && !batteryStatusValid && (old(handled) ==> handled)
      ensures r == if old(batteryStatusValid) then BatteryStatusOf(fault, status)
                   else BatteryStatusOf(old(hwFault), hwStatus)
      ensures prompt && old(Quiet()) && changes == old(changes) ==> r == BatteryStatusOf(hwFault, hwStatus)
    {
      if batteryStatusValid {
        batteryStatusValid := false;
        return BatteryStatusOf(fault, status);
      }
      var f := hwFault;
      Interleave(Idle);
      return BatteryStatusOf(f, hwStatus);
    }

    /** Any run of the main loop. No event is lost, and the end of charging is reported once for each time
        that it is observed to be entered. */
    method Run()
      requires Valid(Idle) && Recorded()
      modifies this
      ensures Valid(Idle) && Recorded()
      ensures prompt && handled && Quiet() ==> status == hwStatus && fault == hwFault
      ensures DoneReports(reports) == Entries(observed)
    {
      var turns: nat := *;
      while turns > 0
        invariant Valid(Idle) && Recorded()
      {
        var choice: nat := *;
        match choice {
          case 0 => var _, _ := CheckEvents();
          case 1 => var _ := ChargerHealth();
          case 2 => var _ := BatteryHealth();
          case 3 => var _ := GetBatteryStatus();
          case _ => Interleave(Idle);
        }
        turns := turns - 1;
      }
      OneReportPerEntry(reports, observed);
    }
  }

  /** One change at any moment, between two checks or at any point of one, with the line let go early or held, and
      the interrupt if there is one. It is lost exactly when the flag was down, it is news to the check at work or,
      between checks, to what is recorded, and the handler found the line high or was never called because the
      line had been low. */
  method OneChange(sys: System, phase: Phase, newStatus: bv8, newFault: bv8, early: bool)
    requires sys.Valid(phase) && !sys.prompt
    modifies sys
    ensures sys.Valid(phase) && sys.status == old(sys.status) && sys.fault == old(sys.fault)
    ensures sys.hwStatus == newStatus && sys.hwFault == newFault && (old(sys.Recorded()) ==> sys.Recorded())
    ensures sys.Lost(phase)
       <==> && !old(sys.event) && (early || (old(sys.line) && !old(sys.pending)))
            && old(sys.News(phase, newStatus, newFault))
  {
    sys.Change(newStatus, newFault, phase);
    if early {
      sys.Release(phase);
    }
    if sys.pending {
      sys.Interrupt(phase);
    }
  }

  /** On a system just started, whose chip says what the driver assumes, the first change can be lost. */
  method FirstChangeLost(newStatus: bv8) returns (sys: System)
    requires newStatus != 0
    ensures fresh(sys) && sys.Lost(Idle)
  {
    sys := new System(false, 0, 0, 0);
    OneChange(sys, Idle, newStatus, 0, true);
  }

  /** And so can a change at the line that is still low for the one before it, once a check has read the status. */
  method SecondChangeLost(first: bv8, second: bv8) returns (sys: System)
    requires first != second
    ensures fresh(sys) && sys.Lost(HasStatus(first))
  {
    sys := new System(false, 0, 0, 0);
    sys.Change(first, 0, Idle);
    sys.Interrupt(Idle);
    sys.event := false;
    OneChange(sys, HasStatus(sys.hwStatus), second, 0, false);
  }
}
