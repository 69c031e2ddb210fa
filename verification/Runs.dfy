/**
 * Whole runs: the guest running natively between signals, any number of signals, and what has
 * happened since the last flush. The theorems hold at every point of every run from boot.
 */
module Runs {
  import opened Words
  import opened Memory
  import opened Isa
  import opened HostVm
  import opened Machine
  import opened Faults
  import opened Signals

  /** What translation depends on, and the privilege mode, at one moment. */
  datatype Snapshot = Snapshot(ram: Ram, space: AddressSpace, mode: Mode)

  function Now(m: Machine): Snapshot { Snapshot(m.ram, m.hart.csrs.satp, m.hart.mode) }

  /**
   * The machine with its history: every moment since the last flush, the number of flushes, and the
   * delay of the last timer request that is still owed an interrupt.
   */
  datatype World = World(m: Machine, epoch: seq<Snapshot>, flushes: nat, request: Option<int>)

  /** The guest runs natively, changing its pc, registers and RAM at will; or the kernel delivers a signal. */
  datatype Event = GuestRuns(pc: Word, x: Regs, ram: Ram) | SignalArrives(s: Signal)

  predicate Flushes(m: Machine, s: Signal)
    requires Dispatch(m, s).Next?
  {
    DeliverInterrupt(Dispatch(m, s).m).flushPending
  }

  predicate IsSetTimer(m: Machine, s: Signal) {
    s.Ecall? && s.number == 0 && m.hart.mode == Supervisor
  }

  /** The deadline asked for, less the time, in nanoseconds. */
  function RequestedDelay(m: Machine, s: Signal): int
    requires IsSetTimer(m, s)
  {
    (m.hart.x[A0] - s.time) * 1000
  }

  predicate WritesSip(m: Machine, s: Signal) {
    s.IllegalInstruction? && m.hart.mode == Supervisor &&
    match Decode(s.code)
    case Some(CsrAccess(op, csr, _, src)) => CsrAt(csr) == Some(Sip) && Writes(op, src)
    case _ => false
  }

  /** A request is owed an interrupt until the guest writes sip; a delay past 2^64 ns is promised nothing. */
  function RequestAfter(m: Machine, s: Signal, before: Option<int>): Option<int> {
    if IsSetTimer(m, s) then
      if RequestedDelay(m, s) < TWO_64 then Some(RequestedDelay(m, s)) else None
    else if WritesSip(m, s) then None
    else before
  }

  function Step(w: World, e: Event): Option<World> {
    match e
    case GuestRuns(pc, x, ram) =>
      var m := w.m.(hart := w.m.hart.(pc := pc, x := x), ram := ram);
      Some(w.(m := m, epoch := w.epoch + [Now(m)]))
    case SignalArrives(s) =>
      match Handle(w.m, s)
      case Halt => None
      case Next(m) =>
        var request := RequestAfter(w.m, s, w.request);
        if Flushes(w.m, s) then Some(World(m, [Now(m)], w.flushes + 1, request))
        else Some(World(m, w.epoch + [Now(m)], w.flushes, request))
  }

  function Run(w: World, events: seq<Event>): Option<World> {
    if events == [] then Some(w)
    else
      match Run(w, events[..|events| - 1])
      case None => None
      case Some(v) => Step(v, events[|events| - 1])
  }

  lemma TwoEvents(w: World, a: Event, b: Event)
    requires Step(w, a).Some?
    ensures Run(w, [a, b]) == Step(Step(w, a).value, b)
  {
    assert [a, b][..1] == [a] && [a][..0] == [];
    assert Run(w, [a]) == Step(w, a);
    hide Step;
  }

  /** A signal after which no interrupt can be delivered and no flush is due does just its own step. */
  lemma QuietSignal(w: World, s: Signal, m: Machine)
    requires Dispatch(w.m, s) == Next(m) && !m.flushPending && !TimerInterruptReady(m.hart)
    ensures Step(w, SignalArrives(s)).Some? && Step(w, SignalArrives(s)).value.m == m
  {
    hide Dispatch, TimerInterruptReady, RequestAfter;
  }

  lemma OneMore(w: World, events: seq<Event>, e: Event)
    ensures Run(w, events + [e])
      == match Run(w, events) case None => None case Some(v) => Step(v, e)
  {
    assert (events + [e])[..|events|] == events;
    hide Step;
  }

  /** A run is its first j events and then the others. */
  lemma {:induction false} PrefixRuns(w: World, events: seq<Event>, j: nat)
    requires Run(w, events).Some? && j <= |events|
    ensures Run(w, events[..j]).Some? && Run(Run(w, events[..j]).value, events[j..]) == Run(w, events)
    decreases |events|
  {
    if j == |events| {
      assert events[..j] == events && events[j..] == [];
      hide Step;
    } else {
      var last := |events| - 1;
      var front, e := events[..last], events[last];
      assert events == front + [e] && front[..j] == events[..j] && events[j..] == front[j..] + [e];
      OneMore(w, front, e);
      hide Run, Step;
      PrefixRuns(w, front, j);
      OneMore(Run(w, front[..j]).value, front[j..], e);
    }
  }

  function Start(boot: Machine): World { World(boot, [Now(boot)], 0, None) }

  /** A world some run from boot reaches. */
  predicate Reaches(boot: Machine, events: seq<Event>, w: World) {
    Booted(boot) && Run(Start(boot), events) == Some(w)
  }

  // ---- one translation context between flushes ----

  predicate OneContext(w: World) {
    && |w.epoch| > 0
    && w.epoch[|w.epoch| - 1] == Now(w.m)
    && (forall k :: 0 <= k < |w.epoch| ==> w.epoch[k].space == w.m.hart.csrs.satp && w.epoch[k].mode == w.m.hart.mode)
    && !w.m.flushPending
    && !(w.m.hart.csrs.stip && w.m.hart.csrs.stie && (w.m.hart.csrs.status.sie || w.m.hart.mode == User))
  }

  lemma InterruptContext(m: Machine)
    ensures SameContext(m, DeliverInterrupt(m)) || DeliverInterrupt(m).flushPending
    ensures m.flushPending ==> DeliverInterrupt(m).flushPending
    ensures DeliverInterrupt(m).vm == m.vm && DeliverInterrupt(m).ram == m.ram && DeliverInterrupt(m).stub == m.stub
  {
  }

  /** Without a flush the mappings are those of the signal's own step, and mode and satp are unchanged. */
  lemma HandleWithoutFlush(m: Machine, s: Signal)
    requires Handle(m, s).Next? && !Flushes(m, s)
    ensures Handle(m, s).m.vm == Dispatch(m, s).m.vm && SameContext(m, Handle(m, s).m)
  {
    ContextChangesFlush(m, s);
    InterruptContext(Dispatch(m, s).m);
    hide Dispatch, DeliverInterrupt, SameContext;
  }

  /** After a flush only the stub's pages are left. */
  lemma HandleWithFlush(m: Machine, s: Signal)
    requires Handle(m, s).Next? && Flushes(m, s) && ValidStub(m.stub)
    ensures Handle(m, s).m.vm == map p | p in Dispatch(m, s).m.vm && InStub(m.stub, p) :: Dispatch(m, s).m.vm[p]
  {
    InterruptContext(Dispatch(m, s).m);
    StubRangeStays(m, s);
    UnmapAroundKeepsExactlyStub(Dispatch(m, s).m.vm, m.stub);
    hide Dispatch, DeliverInterrupt, UnmapAround, InStub, ValidStub;
  }

  lemma OneContextStep(w: World, e: Event)
    requires OneContext(w) && Step(w, e).Some?
    ensures OneContext(Step(w, e).value)
  {
    if e.SignalArrives? {
      NothingIsLeftPending(w.m, e.s);
      if !Flushes(w.m, e.s) { HandleWithoutFlush(w.m, e.s); }
      hide Handle, Flushes, RequestAfter;
    }
  }

  // ---- the stub ----

  /** The stub's pages are as at boot, everything else mapped is RAM. */
  predicate StubPages(boot: Machine, vm: HostVm) {
    && (forall p :: 0 <= p < USER_END / PAGE && InStub(boot.stub, p) ==> p in boot.vm && p in vm && vm[p] == boot.vm[p])
    && (forall p :: p in vm && !InStub(boot.stub, p) ==> vm[p].RamPage?)
  }

  predicate StubIntact(boot: Machine, w: World) {
    w.m.stub == boot.stub && ValidStub(boot.stub) && StubPages(boot, w.m.vm)
  }

  lemma DispatchKeepsStub(boot: Machine, m: Machine, s: Signal)
    requires StubPages(boot, m.vm) && Dispatch(m, s).Next?
    ensures StubPages(boot, Dispatch(m, s).m.vm)
  {
    if Fills(m, s) {
      FillMapsOnePage(m, s);
      UserPage(s.va);
    } else {
      OthersMapNothing(m, s);
    }
    hide Dispatch, InStub, Fills, LookUp, PageOf, PageAddress;
  }

  lemma FlushKeepsStub(boot: Machine, vm: HostVm)
    requires StubPages(boot, vm)
    ensures StubPages(boot, map p | p in vm && InStub(boot.stub, p) :: vm[p])
  {
    hide InStub;
  }

  lemma StubIntactStep(boot: Machine, w: World, e: Event)
    requires StubIntact(boot, w) && Step(w, e).Some?
    ensures StubIntact(boot, Step(w, e).value)
  {
    if e.SignalArrives? {
      var m1 := Dispatch(w.m, e.s).m;
      InterruptContext(m1);
      StubRangeStays(w.m, e.s);
      DispatchKeepsStub(boot, w.m, e.s);
      if Flushes(w.m, e.s) {
        HandleWithFlush(w.m, e.s);
        FlushKeepsStub(boot, m1.vm);
      } else {
        HandleWithoutFlush(w.m, e.s);
      }
      hide Dispatch, DeliverInterrupt, UnmapAround, InStub, ValidStub, RequestAfter, StubPages;
    }
  }
}
