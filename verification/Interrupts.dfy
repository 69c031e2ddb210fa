/** Traps and timer interrupts over whole runs: one trap a signal, and no timer interrupt lost. */
module Interrupts {
  import opened Words
  import opened Bits
  import opened Isa
  import opened HostVm
  import opened Machine
  import opened Signals
  import opened Runs

  // ---- at most one trap a signal ----

  function SignalCount(events: seq<Event>): nat {
    if events == [] then 0
    else SignalCount(events[..|events| - 1]) + if events[|events| - 1].SignalArrives? then 1 else 0
  }

  lemma StepTraps(w: World, e: Event)
    requires Step(w, e).Some?
    ensures |Step(w, e).value.m.log| <= |w.m.log| + if e.SignalArrives? then 1 else 0
  {
    if e.SignalArrives? { AtMostOneTrap(w.m, e.s); }
    hide Handle, Flushes, RequestAfter;
  }

  /** A run never takes more traps than it received signals. */
  lemma {:induction false} TrapsAreBounded(boot: Machine, events: seq<Event>, w: World)
    requires Reaches(boot, events, w)
    ensures |w.m.log| <= SignalCount(events)
  {
    hide Step;
    if events != [] {
      var last := |events| - 1;
      var v := Run(Start(boot), events[..last]).value;
      TrapsAreBounded(boot, events[..last], v);
      StepTraps(v, events[last]);
    }
  }

  // ---- no timer interrupt is lost ----

  /** An owed interrupt is pending already, or the Linux timer is armed for exactly the delay asked for. */
  predicate TimerKept(w: World) {
    w.request.Some? ==> w.m.hart.csrs.stip || ArmedFor(w.m.timer, w.request.value)
  }

  /** set_timer leaves an interrupt owed exactly when the delay in nanoseconds fits 64 bits. */
  lemma SetTimerKeeps(m: Machine, s: Signal)
    requires IsSetTimer(m, s)
    ensures Dispatch(m, s).Next?
    ensures var m1 := Dispatch(m, s).m;
      m1.hart.csrs.stip || ArmedFor(m1.timer, RequestedDelay(m, s)) <==> RequestedDelay(m, s) < TWO_64
  {
    var deadline, now := m.hart.x[A0], s.time;
    if deadline > now {
      DelayIsExact(deadline, now);
      if TimerDelay(deadline, now) > 0 { TimerForDelay(TimerDelay(deadline, now)); }
    }
    hide TimerDelay, TimerFor;
  }

  lemma ExecuteKeepsStip(h: Hart, i: Instr)
    requires Execute(h, i).Some?
    requires !(i.CsrAccess? && CsrAt(i.csr) == Some(Sip) && Writes(i.op, i.src))
    ensures Execute(h, i).value.csrs.stip == h.csrs.stip
  {
    hide SatpModeSupported, Combine, StatusFields, VectorFields, TimerField, SpaceFields;
  }

  lemma PrivilegedKeepsTimer(m: Machine, code: Code)
    requires m.hart.mode == Supervisor && OnPrivileged(m, code).Next? && !WritesSip(m, IllegalInstruction(code))
    ensures OnPrivileged(m, code).m.timer == m.timer
    ensures OnPrivileged(m, code).m.hart.csrs.stip == m.hart.csrs.stip
  {
    ExecuteKeepsStip(m.hart, Decode(code).value);
    hide Decode, Execute, DropsTranslations;
  }

  /** Only set_timer and writes to sip can take a pending interrupt or an armed timer away. */
  lemma OthersKeepTimer(m: Machine, s: Signal)
    requires Dispatch(m, s).Next? && !IsSetTimer(m, s) && !WritesSip(m, s)
    ensures var m1 := Dispatch(m, s).m;
      (m1.timer == m.timer && m1.hart.csrs.stip == m.hart.csrs.stip) || m1.hart.csrs.stip
  {
    if s.IllegalInstruction? && m.hart.mode == Supervisor { PrivilegedKeepsTimer(m, s.code); }
    hide LookUp, Classify, PageFor, PageAddress, OnPrivileged, Pread, Pwrite, StoreSource, StoreLength, TrapTarget;
  }

  lemma DeliveryKeepsTimer(m: Machine)
    ensures var m1 := Flush(DeliverInterrupt(m)); m1.timer == m.timer && m1.hart.csrs.stip == m.hart.csrs.stip
  {
    hide UnmapAround, TrapTarget;
  }

  lemma TimerKeptStep(w: World, e: Event)
    requires TimerKept(w) && Step(w, e).Some?
    ensures TimerKept(Step(w, e).value)
  {
    if e.SignalArrives? {
      var s := e.s;
      DeliveryKeepsTimer(Dispatch(w.m, s).m);
      if IsSetTimer(w.m, s) {
        if RequestedDelay(w.m, s) < TWO_64 { SetTimerKeeps(w.m, s); }
      } else if !WritesSip(w.m, s) {
        OthersKeepTimer(w.m, s);
      }
      hide Dispatch, DeliverInterrupt, Flush, ArmedFor, WritesSip, RequestedDelay;
    }
  }

  /**
   * No timer interrupt is lost: in every run, unless the guest has written sip since its last
   * set_timer, either STIP is set or the Linux timer is armed for exactly the delay it asked for.
   * The one condition is that the delay in nanoseconds fits 64 bits.
   */
  lemma {:induction false} NoTimerInterruptIsLost(boot: Machine, events: seq<Event>, w: World)
    requires Reaches(boot, events, w)
    ensures TimerKept(w)
  {
    hide Step;
    if events != [] {
      var last := |events| - 1;
      var v := Run(Start(boot), events[..last]).value;
      NoTimerInterruptIsLost(boot, events[..last], v);
      TimerKeptStep(v, events[last]);
    }
  }
}
