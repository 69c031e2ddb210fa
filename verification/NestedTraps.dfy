/**
 * Nested traps: supervisor code that saves sepc and sstatus on a stack, takes further traps, writes
 * both back and executes sret, to any depth.
 */
module NestedTraps {
  import opened Words
  import opened Isa
  import opened CsrLaws

  datatype Frame = Frame(sepc: Word, sstatus: Word)

  /** The hart and the stack of contexts that the guest's trap handlers keep in memory. */
  datatype State = State(hart: Hart, stack: seq<Frame>)

  datatype Op =
    | Take(cause: Word, tval: Word)
    | Save
    | Restore
    | Return
    | Run(pc: Word, x: Regs)
    | Write(csr: Csr, value: Word)

  /** Restoring from an empty stack is not a step. */
  function Apply(op: Op, s: State): Option<State> {
    match op
    case Take(cause, tval) => Some(s.(hart := Trap(s.hart, cause, tval)))
    case Save =>
      Some(s.(stack := s.stack + [Frame(ReadCsr(s.hart.csrs, Sepc), ReadCsr(s.hart.csrs, Sstatus))]))
    case Restore =>
      if s.stack == [] then None
      else
        var top := s.stack[|s.stack| - 1];
        var csrs := WriteCsr(WriteCsr(s.hart.csrs, Sepc, top.sepc), Sstatus, top.sstatus);
        Some(State(s.hart.(csrs := csrs), s.stack[..|s.stack| - 1]))
    case Return => Some(s.(hart := ReturnFromTrap(s.hart)))
    case Run(pc, x) => Some(s.(hart := s.hart.(pc := pc, x := x)))
    case Write(csr, value) => Some(s.(hart := s.hart.(csrs := WriteCsr(s.hart.csrs, csr, value))))
  }

  function Exec(ops: seq<Op>, s: State): Option<State> {
    if ops == [] then Some(s)
    else
      match Apply(ops[0], s)
      case None => None
      case Some(t) => Exec(ops[1..], t)
  }

  lemma {:induction false} ExecConcat(a: seq<Op>, b: seq<Op>, s: State)
    requires Exec(a, s).Some?
    ensures Exec(a + b, s) == Exec(b, Exec(a, s).value)
  {
    if a == [] {
      assert a + b == b;
    } else {
      assert (a + b)[1..] == a[1..] + b;
      ExecConcat(a[1..], b, Apply(a[0], s).value);
    }
  }

  // ---- well-bracketed runs ----

  /** What a handler does between saving and restoring: guest code, CSR writes, further traps. */
  datatype Activity = Running(pc: Word, x: Regs) | Writing(csr: Csr, value: Word) | Handling(trap: Handler)

  /** A trap with its handler; prologue and epilogue run before the save and after the restore. */
  datatype Handler = Handler(cause: Word, tval: Word, prologue: seq<Op>, body: seq<Activity>, epilogue: seq<Op>)

  /** Outside its saved section a handler runs code and writes CSRs other than sepc and sstatus. */
  predicate Harmless(op: Op) {
    op.Run? || (op.Write? && op.csr != Sepc && op.csr != Sstatus)
  }

  predicate WellFormedHandler(h: Handler) {
    && (forall i :: 0 <= i < |h.prologue| ==> Harmless(h.prologue[i]))
    && (forall i :: 0 <= i < |h.epilogue| ==> Harmless(h.epilogue[i]))
    && (forall i :: 0 <= i < |h.body| ==> h.body[i].Handling? ==> WellFormedHandler(h.body[i].trap))
  }

  predicate WellFormedBody(body: seq<Activity>) {
    forall i :: 0 <= i < |body| ==> body[i].Handling? ==> WellFormedHandler(body[i].trap)
  }

  function Ops(h: Handler): seq<Op>
    decreases h
  {
    [Take(h.cause, h.tval)] + h.prologue + [Save] + BodyOps(h.body) + [Restore] + h.epilogue + [Return]
  }

  function ActivityOps(a: Activity): seq<Op>
    decreases a
  {
    match a
    case Running(pc, x) => [Run(pc, x)]
    case Writing(csr, value) => [Write(csr, value)]
    case Handling(trap) => Ops(trap)
  }

  function BodyOps(body: seq<Activity>): seq<Op>
    decreases body
  {
    if body == [] then [] else ActivityOps(body[0]) + BodyOps(body[1..])
  }

  // ---- unwinding ----

  lemma {:induction false} HarmlessKeeps(ops: seq<Op>, s: State)
    requires forall i :: 0 <= i < |ops| ==> Harmless(ops[i])
    ensures var r := Exec(ops, s);
      && r.Some? && r.value.stack == s.stack
      && r.value.hart.csrs.sepc == s.hart.csrs.sepc && r.value.hart.csrs.status == s.hart.csrs.status
  {
    if ops != [] { HarmlessKeeps(ops[1..], Apply(ops[0], s).value); }
  }

  /** What is left of a trap once its handler has returned. */
  predicate Unwound(s: State, t: State) {
    && t.stack == s.stack
    && t.hart.mode == s.hart.mode
    && t.hart.pc == s.hart.pc
    && t.hart.csrs.status == s.hart.csrs.status.(spie := true, spp := User)
  }

  /** The restore and sret of a frame that was saved right after the trap from s. */
  lemma RestoreUnwinds(s: State, cause: Word, tval: Word, t: State, epilogue: seq<Op>)
    requires forall i :: 0 <= i < |epilogue| ==> Harmless(epilogue[i])
    requires var trapped := Trap(s.hart, cause, tval).csrs;
      t.stack == s.stack + [Frame(ReadCsr(trapped, Sepc), ReadCsr(trapped, Sstatus))]
    ensures var r := Exec([Restore] + epilogue + [Return], t); r.Some? && Unwound(s, r.value)
  {
    var trapped := Trap(s.hart, cause, tval).csrs;
    StatusFieldsOfImage(trapped.status);
    var restored := Apply(Restore, t).value;
    assert restored.stack == s.stack;
    assert restored.hart.csrs.sepc == s.hart.pc && restored.hart.csrs.status == trapped.status;
    HarmlessKeeps(epilogue, restored);
    var last := Exec(epilogue, restored).value;
    ExecConcat(epilogue, [Return], restored);
    assert Exec([Return], last) == Some(Apply(Return, last).value);
    assert [Restore] + epilogue + [Return] == [Restore] + (epilogue + [Return]);
    assert ([Restore] + (epilogue + [Return]))[1..] == epilogue + [Return];
  }

  /** Entry: the trap, the prologue and the save push exactly the frame of the trap. */
  lemma EntrySaves(s: State, h: Handler)
    requires WellFormedHandler(h)
    ensures var r := Exec([Take(h.cause, h.tval)] + h.prologue + [Save], s);
      var trapped := Trap(s.hart, h.cause, h.tval).csrs;
      r.Some? && r.value.stack == s.stack + [Frame(ReadCsr(trapped, Sepc), ReadCsr(trapped, Sstatus))]
  {
    var taken := Apply(Take(h.cause, h.tval), s).value;
    HarmlessKeeps(h.prologue, taken);
    var before := Exec(h.prologue, taken).value;
    ExecConcat(h.prologue, [Save], taken);
    assert Exec([Save], before) == Some(Apply(Save, before).value);
    assert [Take(h.cause, h.tval)] + h.prologue + [Save] == [Take(h.cause, h.tval)] + (h.prologue + [Save]);
    assert ([Take(h.cause, h.tval)] + (h.prologue + [Save]))[1..] == h.prologue + [Save];
  }

  /**
   * A handler that saves, takes any number of further traps nested to any depth, restores and
   * returns: the mode, pc and interrupt enable are those from before the trap, the stack is level,
   * and sstatus differs only in SPIE = 1 and SPP = U.
   */
  lemma {:induction false} TrapsUnwind(h: Handler, s: State)
    requires WellFormedHandler(h)
    ensures Exec(Ops(h), s).Some? && Unwound(s, Exec(Ops(h), s).value)
    decreases h
  {
    var entry := [Take(h.cause, h.tval)] + h.prologue + [Save];
    var exit := [Restore] + h.epilogue + [Return];
    EntrySaves(s, h);
    var saved := Exec(entry, s).value;
    BodyKeepsStack(h.body, saved);
    var done := Exec(BodyOps(h.body), saved).value;
    RestoreUnwinds(s, h.cause, h.tval, done, h.epilogue);
    ExecConcat(entry, BodyOps(h.body), s);
    ExecConcat(entry + BodyOps(h.body), exit, s);
    assert Ops(h) == entry + BodyOps(h.body) + exit;
  }

  lemma {:induction false} ActivityKeepsStack(a: Activity, s: State)
    requires a.Handling? ==> WellFormedHandler(a.trap)
    ensures Exec(ActivityOps(a), s).Some? && Exec(ActivityOps(a), s).value.stack == s.stack
    decreases a
  {
    match a
    case Handling(trap) => TrapsUnwind(trap, s);
    case Running(pc, x) => assert Exec([Run(pc, x)], s) == Some(Apply(Run(pc, x), s).value);
    case Writing(csr, value) => assert Exec([Write(csr, value)], s) == Some(Apply(Write(csr, value), s).value);
  }

  lemma {:induction false} BodyKeepsStack(body: seq<Activity>, s: State)
    requires WellFormedBody(body)
    ensures Exec(BodyOps(body), s).Some? && Exec(BodyOps(body), s).value.stack == s.stack
    decreases body
  {
    if body != [] {
      ActivityKeepsStack(body[0], s);
      ExecConcat(ActivityOps(body[0]), BodyOps(body[1..]), s);
      BodyKeepsStack(body[1..], Exec(ActivityOps(body[0]), s).value);
    }
  }
}
