/** The interpreter's machine (interp.rs): an explicit stack of frames, recycled frame
    buffers, and a call result that is stored when the callee returns. Everything an
    instruction does outside frames and globals (arithmetic, the heap, runtime calls) is
    one operation `prim` on an arbitrary `W`, and so is the value that StorePlace, Redim
    and DeleteLvalue leave in the variable they work on. */
module Machine {
  import opened Common

  const MAX_CALL_DEPTH := 10_000

  datatype Value = Data(data: int) | FnPtr(func: Option<nat>) | Null | Void
  {
    predicate IsTruthy() {
      match this
      case Data(d) => d != 0
      case FnPtr(f) => f.Some?
      case Null => false
      case Void => false
    }
  }

  /** A variable: its value, and whether that was deleted through this variable. */
  datatype Slot = Slot(value: Value, deleted: bool)

  /** The variable an instruction writes in place. */
  datatype Root = LocalRoot(local: nat) | GlobalRoot(global: nat)

  datatype InstKind =
    | Const(value: Value)
    | LoadLocal(local: nat)
    | StoreLocal(local: nat, reg: nat)
    | LoadGlobal(global: nat)
    | StoreGlobal(global: nat, reg: nat)
    | StorePlace(root: Root, op: nat, args: seq<nat>)
    | Redim(root: Root, op: nat, args: seq<nat>)
    | DeleteLvalue(root: Root, op: nat)
    | Prim(op: nat, args: seq<nat>)
    | Call(callee: nat, args: seq<nat>)
    | CallIndirect(calleeReg: nat, args: seq<nat>)

  datatype Inst = Inst(kind: InstKind, result: Option<nat>)

  datatype Terminator =
    | Goto(target: nat)
    | BranchIf(cond: nat, thenBlock: nat, elseBlock: nat)
    | Return(value: Option<nat>)
    | Halt(code: int)
    | Trap(kind: nat)

  datatype Block = Block(insts: seq<Inst>, term: Option<Terminator>)

  datatype Local = Local(isParam: bool, init: Value)

  datatype Function = Function(locals: seq<Local>, blocks: seq<Block>)

  datatype FuncKind = UserDefined(bodyIndex: nat) | Runtime(op: nat)

  datatype Error = StackOverflow | TrapError(kind: nat) | Unterminated | DoubleDelete | NullFnPtr | NotAFunction | PrimError(code: nat)

  datatype PrimResult<W> = PrimOk(value: Value, world: W) | PrimFail(error: Error)

  datatype Program<!W> = Program(funcTable: seq<FuncKind>, functions: seq<Function>,
                                 prim: (nat, seq<Value>, W) -> PrimResult<W>)

  /** How a program ends. `Panicked` is an index out of range in the Rust code. */
  datatype Stop = Finished(code: int) | Failed(error: Error) | Panicked

  // ── Registers, arguments, locals ───────────────────────────────────────

  function Fill(n: nat): (r: seq<Value>)
    ensures |r| == n && forall i | 0 <= i < n :: r[i] == Void
  {
    seq(n, _ => Void)
  }

  /** Store to a register, growing the file with `Void` when needed. */
  function SetReg(regs: seq<Value>, r: Option<nat>, v: Value): seq<Value> {
    if r.None? then regs
    else if r.value < |regs| then regs[r.value := v]
    else regs + Fill(r.value - |regs|) + [v]
  }

  /** A register file after a result: the register named holds it, those before the old end are as they were, those
      in between are `Void`. Without a register nothing changes. */
  ghost predicate Stored(before: seq<Value>, after: seq<Value>, r: Option<nat>, v: Value) {
    match r
    case None => after == before
    case Some(q) =>
      && |after| == (if q < |before| then |before| else q + 1) && after[q] == v
      && forall k | 0 <= k < |after| && k != q :: after[k] == if k < |before| then before[k] else Void
  }

  lemma SetRegStores(regs: seq<Value>, r: Option<nat>, v: Value)
    ensures Stored(regs, SetReg(regs, r, v), r, v)
  {
  }

  predicate RegsOk(regs: seq<Value>, args: seq<nat>) {
    forall i | 0 <= i < |args| :: args[i] < |regs|
  }

  function ReadArgs(regs: seq<Value>, args: seq<nat>): (vs: seq<Value>)
    requires RegsOk(regs, args)
    ensures |vs| == |args|
  {
    seq(|args|, i requires 0 <= i < |args| => regs[args[i]])
  }

  /** The locals of a fresh frame: parameters from the arguments, the rest from their defaults. */
  function FreshLocals(locals: seq<Local>, args: seq<Value>): (ls: seq<Slot>)
    ensures |ls| == |locals|
  {
    seq(|locals|, i requires 0 <= i < |locals| =>
      Slot(if i < |args| then args[i] else if locals[i].isParam then Void else locals[i].init, false))
  }

  function ReadRoot(root: Root, locals: seq<Slot>, globals: seq<Slot>): Option<Slot> {
    match root
    case LocalRoot(l) => if l < |locals| then Some(locals[l]) else None
    case GlobalRoot(g) => if g < |globals| then Some(globals[g]) else None
  }

  /** What one instruction does inside its frame, or the call it asks for. */
  datatype Effect<W> =
    | Continue(value: Value, locals: seq<Slot>, globals: seq<Slot>, world: W)
    | CallUser(bodyIndex: nat, args: seq<Value>)
    | Abort(stop: Stop)

  function Dispatch<W>(p: Program<W>, callee: nat, args: seq<Value>, locals: seq<Slot>, globals: seq<Slot>, world: W): Effect<W> {
    if callee >= |p.funcTable| then Abort(Panicked)
    else match p.funcTable[callee]
      case UserDefined(b) => CallUser(b, args)
      case Runtime(op) =>
        match p.prim(op, args, world)
        case PrimOk(v, w) => Continue(v, locals, globals, w)
        case PrimFail(e) => Abort(Failed(e))
  }

  /** The operation's value becomes the variable's, with the flag as given; the instruction itself yields nothing. */
  function Overwrite<W>(root: Root, r: PrimResult<W>, deleted: bool, locals: seq<Slot>, globals: seq<Slot>): Effect<W> {
    match r
    case PrimFail(e) => Abort(Failed(e))
    case PrimOk(v, w) =>
      match root
      case LocalRoot(l) => if l < |locals| then Continue(Void, locals[l := Slot(v, deleted)], globals, w) else Abort(Panicked)
      case GlobalRoot(g) => if g < |globals| then Continue(Void, locals, globals[g := Slot(v, deleted)], w) else Abort(Panicked)
  }

  function ExecInst<W>(p: Program<W>, kind: InstKind, regs: seq<Value>, locals: seq<Slot>, globals: seq<Slot>, world: W): Effect<W> {
    match kind
    case Const(v) => Continue(v, locals, globals, world)
    case LoadLocal(l) => if l < |locals| then Continue(locals[l].value, locals, globals, world) else Abort(Panicked)
    case StoreLocal(l, r) =>
      if r < |regs| && l < |locals| then Continue(Void, locals[l := Slot(regs[r], false)], globals, world) else Abort(Panicked)
    case LoadGlobal(g) => if g < |globals| then Continue(globals[g].value, locals, globals, world) else Abort(Panicked)
    case StoreGlobal(g, r) =>
      if r < |regs| && g < |globals| then Continue(Void, locals, globals[g := Slot(regs[r], false)], world) else Abort(Panicked)
    case StorePlace(root, op, args) =>
      var slot := ReadRoot(root, locals, globals);
      if !RegsOk(regs, args) || slot.None? then Abort(Panicked)
      else Overwrite(root, p.prim(op, [slot.value.value] + ReadArgs(regs, args), world), slot.value.deleted, locals, globals)
    case Redim(root, op, args) =>
      if !RegsOk(regs, args) then Abort(Panicked)
      else Overwrite(root, p.prim(op, ReadArgs(regs, args), world), false, locals, globals)
    case DeleteLvalue(root, op) =>
      var slot := ReadRoot(root, locals, globals);
      if slot.None? then Abort(Panicked)
      else if slot.value.deleted then Abort(Failed(DoubleDelete))
      else Overwrite(root, p.prim(op, [slot.value.value], world), true, locals, globals)
    case Prim(op, args) =>
      if !RegsOk(regs, args) then Abort(Panicked)
      else
        (match p.prim(op, ReadArgs(regs, args), world)
         case PrimOk(v, w) => Continue(v, locals, globals, w)
         case PrimFail(e) => Abort(Failed(e)))
    case Call(callee, args) =>
      if RegsOk(regs, args) then Dispatch(p, callee, ReadArgs(regs, args), locals, globals, world) else Abort(Panicked)
    case CallIndirect(c, args) =>
      if c >= |regs| then Abort(Panicked)
      else
        match regs[c]
        case FnPtr(Some(f)) =>
          if RegsOk(regs, args) then Dispatch(p, f, ReadArgs(regs, args), locals, globals, world) else Abort(Panicked)
        case FnPtr(None) => Abort(Failed(NullFnPtr))
        case Null => Abort(Failed(NullFnPtr))
        case _ => Abort(Failed(NotAFunction))
  }

  // ── The machine ────────────────────────────────────────────────────────

  datatype Frame = Frame(bodyIndex: nat, registers: seq<Value>, locals: seq<Slot>, block: nat, pc: nat, returnReg: Option<nat>)

  datatype FrameBuf = FrameBuf(registers: seq<Value>, locals: seq<Slot>)

  datatype State<W> = State(globals: seq<Slot>, callStack: seq<Frame>, framePool: seq<FrameBuf>, world: W)
  {
    function Top(): Frame
      requires callStack != []
    {
      callStack[|callStack| - 1]
    }

    function WithTop(f: Frame): State<W>
      requires callStack != []
    {
      this.(callStack := callStack[|callStack| - 1 := f])
    }
  }

  datatype StepResult<W> = Running(state: State<W>) | Stopped(stop: Stop)

  /** `push_frame`: the newest recycled buffer, emptied, then filled for this call. */
  function PushedFrame<W>(p: Program<W>, s: State<W>, bodyIndex: nat, args: seq<Value>, returnReg: Option<nat>): StepResult<W> {
    if |s.callStack| >= MAX_CALL_DEPTH then Stopped(Failed(StackOverflow))
    else if bodyIndex >= |p.functions| then Stopped(Panicked)
    else
      var n := |s.framePool|;
      var buf := if n > 0 then s.framePool[n - 1] else FrameBuf([], []);
      var pool := if n > 0 then s.framePool[..n - 1] else s.framePool;
      var registers, locals := buf.registers[..0], buf.locals[..0];
      var f := Frame(bodyIndex, registers, locals + FreshLocals(p.functions[bodyIndex].locals, args), 0, 0, returnReg);
      Running(s.(callStack := s.callStack + [f], framePool := pool))
  }

  /** The end of a block. */
  function StepTerminator<W>(s: State<W>, t: Option<Terminator>): StepResult<W>
    requires s.callStack != []
  {
    var f := s.Top();
    match t
    case None => Stopped(Failed(Unterminated))
    case Some(Goto(b)) => Running(s.WithTop(f.(block := b, pc := 0)))
    case Some(BranchIf(c, a, b)) =>
      if c >= |f.registers| then Stopped(Panicked)
      else Running(s.WithTop(f.(block := if f.registers[c].IsTruthy() then a else b, pc := 0)))
    case Some(Return(v)) =>
      if v.Some? && v.value >= |f.registers| then Stopped(Panicked)
      else StepReturn(s, if v.Some? then f.registers[v.value] else Void)
    case Some(Halt(code)) => Stopped(Finished(code))
    case Some(Trap(k)) => Stopped(Failed(TrapError(k)))
  }

  /** Pop the frame, recycle its buffers, and give the caller its value. */
  function StepReturn<W>(s: State<W>, v: Value): StepResult<W>
    requires s.callStack != []
  {
    var f := s.Top();
    var rest := s.callStack[..|s.callStack| - 1];
    var pool := s.framePool + [FrameBuf(f.registers, f.locals)];
    if rest == [] then Stopped(Finished(0))
    else
      var caller := rest[|rest| - 1];
      Running(s.(callStack := rest[|rest| - 1 := caller.(registers := SetReg(caller.registers, f.returnReg, v))],
                 framePool := pool))
  }

  /** One turn of `exec_loop`. */
  function Step<W>(p: Program<W>, s: State<W>): (r: StepResult<W>)
    requires s.callStack != []
    ensures r.Running? ==> r.state.callStack != []
  {
    var f := s.Top();
    if f.bodyIndex >= |p.functions| || f.block >= |p.functions[f.bodyIndex].blocks| then Stopped(Panicked)
    else
      var b := p.functions[f.bodyIndex].blocks[f.block];
      if f.pc >= |b.insts| then StepTerminator(s, b.term)
      else
        var inst := b.insts[f.pc];
        match ExecInst(p, inst.kind, f.registers, f.locals, s.globals, s.world)
        case Abort(stop) => Stopped(stop)
        case Continue(v, ls, gs, w) =>
          Running(State(gs, s.WithTop(f.(registers := SetReg(f.registers, inst.result, v), locals := ls, pc := f.pc + 1)).callStack,
                        s.framePool, w))
        case CallUser(body, args) =>
          PushedFrame(p, s.WithTop(f.(pc := f.pc + 1)), body, args, inst.result)
  }

  /** At most n turns. */
  function Run<W>(p: Program<W>, s: State<W>, n: nat): (r: StepResult<W>)
    requires s.callStack != []
    ensures r.Running? ==> r.state.callStack != []
    decreases n
  {
    if n == 0 then Running(s)
    else match Step(p, s)
      case Stopped(stop) => Stopped(stop)
      case Running(s') => Run(p, s', n - 1)
  }

  // ── The reference: a call is a recursive evaluation ────────────────────

  /** What is left of a call. `turns` is the number of machine turns it takes. */
  datatype Outcome<W> =
    | Returned(value: Value, globals: seq<Slot>, world: W, turns: nat)
    | Ended(stop: Stop)
    | OutOfTurns

  /** The activation of one function body. */
  datatype Activation = Activation(bodyIndex: nat, registers: seq<Value>, locals: seq<Slot>, block: nat, pc: nat)

  function Enter<W>(p: Program<W>, bodyIndex: nat, args: seq<Value>): Activation
    requires bodyIndex < |p.functions|
  {
    Activation(bodyIndex, [], FreshLocals(p.functions[bodyIndex].locals, args), 0, 0)
  }

  function After<W>(o: Outcome<W>, turns: nat): Outcome<W> {
    match o
    case Returned(v, gs, w, n) => Returned(v, gs, w, n + turns)
    case _ => o
  }

  /** Evaluate an activation to its result, with at most `fuel` turns; no stack, no buffers. */
  function Eval<W>(p: Program<W>, a: Activation, globals: seq<Slot>, world: W, depth: nat, fuel: nat): (o: Outcome<W>)
    ensures o.Returned? ==> 0 < o.turns <= fuel
    decreases fuel
  {
    if fuel == 0 then OutOfTurns
    else if a.bodyIndex >= |p.functions| || a.block >= |p.functions[a.bodyIndex].blocks| then Ended(Panicked)
    else
      var b := p.functions[a.bodyIndex].blocks[a.block];
      if a.pc >= |b.insts| then
        match b.term
        case None => Ended(Failed(Unterminated))
        case Some(Goto(t)) => After(Eval(p, a.(block := t, pc := 0), globals, world, depth, fuel - 1), 1)
        case Some(BranchIf(c, t, e)) =>
          if c >= |a.registers| then Ended(Panicked)
          else After(Eval(p, a.(block := if a.registers[c].IsTruthy() then t else e, pc := 0), globals, world, depth, fuel - 1), 1)
        case Some(Return(v)) =>
          if v.Some? && v.value >= |a.registers| then Ended(Panicked)
          else Returned(if v.Some? then a.registers[v.value] else Void, globals, world, 1)
        case Some(Halt(code)) => Ended(Finished(code))
        case Some(Trap(k)) => Ended(Failed(TrapError(k)))
      else
        var inst := b.insts[a.pc];
        match ExecInst(p, inst.kind, a.registers, a.locals, globals, world)
        case Abort(stop) => Ended(stop)
        case Continue(v, ls, gs, w) =>
          After(Eval(p, a.(registers := SetReg(a.registers, inst.result, v), locals := ls, pc := a.pc + 1), gs, w, depth, fuel - 1), 1)
        case CallUser(body, args) =>
          if depth >= MAX_CALL_DEPTH then Ended(Failed(StackOverflow))
          else if body >= |p.functions| then Ended(Panicked)
          else
            match Eval(p, Enter(p, body, args), globals, world, depth + 1, fuel - 1)
            case Returned(v, gs, w, n) =>
              After(Eval(p, a.(registers := SetReg(a.registers, inst.result, v), pc := a.pc + 1), gs, w, depth, fuel - 1 - n), 1 + n)
            case Ended(stop) => Ended(stop)
            case OutOfTurns => OutOfTurns
  }

  // ── The machine refines the evaluation ─────────────────────────────────

  function TopActivation<W>(s: State<W>): Activation
    requires s.callStack != []
  {
    var f := s.Top();
    Activation(f.bodyIndex, f.registers, f.locals, f.block, f.pc)
  }

  lemma {:induction false} RunAdd<W>(p: Program<W>, s: State<W>, m: nat, n: nat)
    requires s.callStack != []
    ensures Run(p, s, m + n) == match Run(p, s, m)
                                case Stopped(stop) => Stopped(stop)
                                case Running(s') => Run(p, s', n)
    decreases m
  {
    hide Step;
    if m > 0 {
      assert m + n - 1 == m - 1 + n;
      if Step(p, s).Running? {
        RunAdd(p, Step(p, s).state, m - 1, n);
      }
    }
  }

  /** `s'` is `s` after its top frame has returned `v`: the frame is gone, the caller has the
      value in the register it asked for and is otherwise as it was. */
  ghost predicate ReturnedTo<W>(s: State<W>, s': State<W>, v: Value, gs: seq<Slot>, w: W)
    requires |s.callStack| > 1
  {
    var rest := s.callStack[..|s.callStack| - 1];
    var caller := rest[|rest| - 1];
    s'.globals == gs && s'.world == w &&
    s'.callStack == rest[|rest| - 1 := caller.(registers := SetReg(caller.registers, s.Top().returnReg, v))]
  }

  /** The machine, run from `s`, does what the evaluation of its top frame says. */
  ghost predicate Follows<W>(p: Program<W>, s: State<W>, o: Outcome<W>, fuel: nat)
    requires s.callStack != []
  {
    match o
    case Returned(v, gs, w, n) =>
      if |s.callStack| == 1 then Run(p, s, n) == Stopped(Finished(0))
      else Run(p, s, n).Running? && ReturnedTo(s, Run(p, s, n).state, v, gs, w)
    case Ended(stop) => Run(p, s, fuel) == Stopped(stop)
    case OutOfTurns => Run(p, s, fuel).Running?
  }

  /** A turn that stays in the frame. */
  lemma StepThen<W>(p: Program<W>, s: State<W>, o: Outcome<W>, turns: nat, s1: State<W>, fuel: nat)
    requires s.callStack != [] && |s1.callStack| == |s.callStack| && turns <= fuel
    requires Run(p, s, turns) == Running(s1)
    requires s1.callStack[..|s.callStack| - 1] == s.callStack[..|s.callStack| - 1] && s1.Top().returnReg == s.Top().returnReg
    requires o.Returned? ==> o.turns <= fuel - turns
    requires Follows(p, s1, o, fuel - turns)
    ensures Follows(p, s, After(o, turns), fuel)
  {
    hide Step, Run;
    RunAdd(p, s, turns, fuel - turns);
    if o.Returned? {
      RunAdd(p, s, turns, o.turns);
    }
  }

  /** The explicit stack computes what the recursive evaluation computes, in the same number of turns. */
  lemma {:induction false} MachineRefinesEval<W>(p: Program<W>, s: State<W>, fuel: nat)
    requires s.callStack != []
    ensures Follows(p, s, Eval(p, TopActivation(s), s.globals, s.world, |s.callStack|, fuel), fuel)
    decreases fuel, 4
  {
    var f := s.Top();
    var a := TopActivation(s);
    if fuel > 0 && a.bodyIndex < |p.functions| && a.block < |p.functions[a.bodyIndex].blocks| {
      var b := p.functions[a.bodyIndex].blocks[a.block];
      if a.pc < |b.insts| {
        var e := ExecInst(p, b.insts[a.pc].kind, a.registers, a.locals, s.globals, s.world);
        if e.CallUser? {
          CallFollows(p, s, fuel);
        } else if e.Continue? {
          JumpFollows(p, s, fuel);
        }
      } else if b.term.Some? && (b.term.value.Goto? || b.term.value.BranchIf?) {
        if Step(p, s).Running? {
          JumpFollows(p, s, fuel);
        }
      } else if b.term.Some? && b.term.value.Return? {
        RunOne(p, s);
      }
    }
  }

  /** A turn that neither calls nor returns, as the evaluation makes it. */
  lemma JumpEvaluates<W>(p: Program<W>, s: State<W>, fuel: nat)
    requires s.callStack != [] && fuel > 0
    requires Step(p, s).Running? && |Step(p, s).state.callStack| == |s.callStack|
    ensures var s1 := Step(p, s).state;
      && s1.callStack[..|s.callStack| - 1] == s.callStack[..|s.callStack| - 1] && s1.Top().returnReg == s.Top().returnReg
      && Eval(p, TopActivation(s), s.globals, s.world, |s.callStack|, fuel)
         == After(Eval(p, TopActivation(s1), s1.globals, s1.world, |s1.callStack|, fuel - 1), 1)
  {
    hide ExecInst, FreshLocals, SetReg;
  }

  lemma {:induction false} JumpFollows<W>(p: Program<W>, s: State<W>, fuel: nat)
    requires s.callStack != [] && fuel > 0
    requires Step(p, s).Running? && |Step(p, s).state.callStack| == |s.callStack|
    ensures Follows(p, s, Eval(p, TopActivation(s), s.globals, s.world, |s.callStack|, fuel), fuel)
    decreases fuel, 3
  {
    hide Step, Eval, Run, Follows, ExecInst;
    var s1 := Step(p, s).state;
    JumpEvaluates(p, s, fuel);
    MachineRefinesEval(p, s1, fuel - 1);
    RunOne(p, s);
    StepThen(p, s, Eval(p, TopActivation(s1), s1.globals, s1.world, |s1.callStack|, fuel - 1), 1, s1, fuel);
  }

  /** The instruction the machine is at. */
  predicate AtInst<W>(p: Program<W>, s: State<W>)
    requires s.callStack != []
  {
    var f := s.Top();
    && f.bodyIndex < |p.functions| && f.block < |p.functions[f.bodyIndex].blocks|
    && f.pc < |p.functions[f.bodyIndex].blocks[f.block].insts|
  }

  function TheInst<W>(p: Program<W>, s: State<W>): Inst
    requires s.callStack != [] && AtInst(p, s)
  {
    p.functions[s.Top().bodyIndex].blocks[s.Top().block].insts[s.Top().pc]
  }

  function TheEffect<W>(p: Program<W>, s: State<W>): Effect<W>
    requires s.callStack != [] && AtInst(p, s)
  {
    ExecInst(p, TheInst(p, s).kind, s.Top().registers, s.Top().locals, s.globals, s.world)
  }

  lemma RunUnfolds<W>(p: Program<W>, s: State<W>, n: nat)
    requires s.callStack != [] && n > 0
    ensures Run(p, s, n) == match Step(p, s)
                            case Stopped(stop) => Stopped(stop)
                            case Running(s') => Run(p, s', n - 1)
  {
    hide Step;
  }

  lemma RunNone<W>(p: Program<W>, s: State<W>)
    requires s.callStack != []
    ensures Run(p, s, 0) == Running(s)
  {
    hide Step;
  }

  lemma RunOne<W>(p: Program<W>, s: State<W>)
    requires s.callStack != []
    ensures Run(p, s, 1) == Step(p, s)
  {
    hide Step;
    if Step(p, s).Running? {
      assert Run(p, Step(p, s).state, 0) == Step(p, s);
    }
  }

  /** The turn that starts a call: the caller is past it, the callee's frame is fresh. */
  lemma CallPushes<W>(p: Program<W>, s: State<W>)
    requires s.callStack != [] && AtInst(p, s) && TheEffect(p, s).CallUser?
    requires |s.callStack| < MAX_CALL_DEPTH && TheEffect(p, s).bodyIndex < |p.functions|
    ensures var r, f := Step(p, s), s.Top();
      && r.Running? && r.state.globals == s.globals && r.state.world == s.world
      && |r.state.callStack| == |s.callStack| + 1
      && r.state.callStack[..|s.callStack|] == s.WithTop(f.(pc := f.pc + 1)).callStack
      && r.state.Top().returnReg == TheInst(p, s).result
      && TopActivation(r.state) == Enter(p, TheEffect(p, s).bodyIndex, TheEffect(p, s).args)
  {
    hide ExecInst;
  }

  lemma CallComesBack<W>(p: Program<W>, s: State<W>, v: Value, gs: seq<Slot>, w: W, turns: nat, fuel: nat)
    requires s.callStack != [] && AtInst(p, s) && TheEffect(p, s).CallUser?
    requires |s.callStack| < MAX_CALL_DEPTH && TheEffect(p, s).bodyIndex < |p.functions|
    requires Eval(p, Enter(p, TheEffect(p, s).bodyIndex, TheEffect(p, s).args), s.globals, s.world, |s.callStack| + 1, fuel)
             == Returned(v, gs, w, turns)
    ensures var f := s.Top(); var r := Run(p, s, 1 + turns);
      && r.Running? && r.state.globals == gs && r.state.world == w
      && r.state.callStack == s.WithTop(f.(pc := f.pc + 1, registers := SetReg(f.registers, TheInst(p, s).result, v))).callStack
    decreases fuel, 5
  {
    var s1 := Step(p, s).state;
    CallPushes(p, s);
    MachineRefinesEval(p, s1, fuel);
    hide Step, Eval, ExecInst;
    RunOne(p, s);
    RunAdd(p, s, 1, turns);
  }

  /** A call that returns leaves the caller's frame as it was, except that it is past the call and has the result in
      the register the call names, and takes exactly the evaluation's turns. */
  lemma CallReturns<W>(p: Program<W>, s: State<W>, v: Value, gs: seq<Slot>, w: W, turns: nat, fuel: nat)
    requires s.callStack != [] && AtInst(p, s) && TheEffect(p, s).CallUser?
    requires |s.callStack| < MAX_CALL_DEPTH && TheEffect(p, s).bodyIndex < |p.functions|
    requires Eval(p, Enter(p, TheEffect(p, s).bodyIndex, TheEffect(p, s).args), s.globals, s.world, |s.callStack| + 1, fuel)
             == Returned(v, gs, w, turns)
    ensures var f, r, n := s.Top(), Run(p, s, 1 + turns), |s.callStack| - 1;
      && r.Running? && r.state.globals == gs && r.state.world == w
      && |r.state.callStack| == n + 1 && r.state.callStack[..n] == s.callStack[..n]
      && r.state.Top() == f.(pc := f.pc + 1, registers := r.state.Top().registers)
      && Stored(f.registers, r.state.Top().registers, TheInst(p, s).result, v)
  {
    CallComesBack(p, s, v, gs, w, turns, fuel);
    SetRegStores(s.Top().registers, TheInst(p, s).result, v);
    hide Stored, SetReg, Run, Eval, Enter, ExecInst;
  }

  /** The callee's evaluation, as the caller's evaluation at a call uses it. */
  function Callee<W>(p: Program<W>, s: State<W>, fuel: nat): Outcome<W>
    requires s.callStack != [] && AtInst(p, s) && TheEffect(p, s).CallUser? && TheEffect(p, s).bodyIndex < |p.functions|
  {
    Eval(p, Enter(p, TheEffect(p, s).bodyIndex, TheEffect(p, s).args), s.globals, s.world, |s.callStack| + 1, fuel)
  }

  lemma EvalCall<W>(p: Program<W>, s: State<W>, fuel: nat)
    requires s.callStack != [] && fuel > 0 && AtInst(p, s) && TheEffect(p, s).CallUser?
    requires |s.callStack| < MAX_CALL_DEPTH && TheEffect(p, s).bodyIndex < |p.functions|
    ensures var f, o := s.Top(), Callee(p, s, fuel - 1);
      Eval(p, TopActivation(s), s.globals, s.world, |s.callStack|, fuel) ==
        if o.Returned? then
          After(Eval(p, Activation(f.bodyIndex, SetReg(f.registers, TheInst(p, s).result, o.value), f.locals, f.block, f.pc + 1),
                     o.globals, o.world, |s.callStack|, fuel - 1 - o.turns), 1 + o.turns)
        else o
  {
    hide ExecInst;
  }

  lemma {:induction false} CallFollows<W>(p: Program<W>, s: State<W>, fuel: nat)
    requires s.callStack != [] && fuel > 0 && AtInst(p, s) && TheEffect(p, s).CallUser?
    ensures Follows(p, s, Eval(p, TopActivation(s), s.globals, s.world, |s.callStack|, fuel), fuel)
    decreases fuel, 3
  {
    if |s.callStack| < MAX_CALL_DEPTH && TheEffect(p, s).bodyIndex < |p.functions| {
      EvalCall(p, s, fuel);
      var o := Callee(p, s, fuel - 1);
      hide Step, ExecInst, Eval, Run, Follows, After;
      if o.Returned? {
        CallThenRest(p, s, fuel, o);
      } else {
        CallNeverReturns(p, s, fuel, o);
      }
    } else {
      hide ExecInst;
    }
  }

  lemma {:induction false} CallThenRest<W>(p: Program<W>, s: State<W>, fuel: nat, o: Outcome<W>)
    requires s.callStack != [] && fuel > 0 && AtInst(p, s) && TheEffect(p, s).CallUser?
    requires |s.callStack| < MAX_CALL_DEPTH && TheEffect(p, s).bodyIndex < |p.functions|
    requires o == Callee(p, s, fuel - 1) && o.Returned?
    ensures var f := s.Top();
      Follows(p, s, After(Eval(p, Activation(f.bodyIndex, SetReg(f.registers, TheInst(p, s).result, o.value), f.locals, f.block, f.pc + 1),
                               o.globals, o.world, |s.callStack|, fuel - 1 - o.turns), 1 + o.turns), fuel)
    decreases fuel, 2
  {
    hide ExecInst, Step, Run, Follows;
    assert o == Returned(o.value, o.globals, o.world, o.turns);
    hide Eval;
    CallComesBack(p, s, o.value, o.globals, o.world, o.turns, fuel - 1);
    hide *;
    var s2 := Run(p, s, 1 + o.turns).state;
    Resume(p, s, s2, fuel, o);
  }

  lemma {:induction false} Resume<W>(p: Program<W>, s: State<W>, s2: State<W>, fuel: nat, o: Outcome<W>)
    requires s.callStack != [] && fuel > 0 && AtInst(p, s) && o.Returned? && 0 < o.turns < fuel
    requires Run(p, s, 1 + o.turns) == Running(s2) && s2.globals == o.globals && s2.world == o.world
    requires var f := s.Top();
      s2.callStack == s.WithTop(f.(pc := f.pc + 1, registers := SetReg(f.registers, TheInst(p, s).result, o.value))).callStack
    ensures var f := s.Top();
      Follows(p, s, After(Eval(p, Activation(f.bodyIndex, SetReg(f.registers, TheInst(p, s).result, o.value), f.locals, f.block, f.pc + 1),
                               o.globals, o.world, |s.callStack|, fuel - 1 - o.turns), 1 + o.turns), fuel)
    decreases fuel, 1
  {
    MachineRefinesEval(p, s2, fuel - 1 - o.turns);
    hide Run, Eval, Follows, After, SetReg;
    StepThen(p, s, Eval(p, TopActivation(s2), s2.globals, s2.world, |s2.callStack|, fuel - 1 - o.turns), 1 + o.turns, s2, fuel);
  }

  lemma {:induction false} CallNeverReturns<W>(p: Program<W>, s: State<W>, fuel: nat, o: Outcome<W>)
    requires s.callStack != [] && fuel > 0 && AtInst(p, s) && TheEffect(p, s).CallUser?
    requires |s.callStack| < MAX_CALL_DEPTH && TheEffect(p, s).bodyIndex < |p.functions|
    requires o == Callee(p, s, fuel - 1) && !o.Returned?
    ensures Follows(p, s, o, fuel)
    decreases fuel, 1
  {
    CallPushes(p, s);
    hide Step, ExecInst;
    MachineRefinesEval(p, Step(p, s).state, fuel - 1);
    hide Eval;
  }

  /** A whole program: it stops within `fuel` turns exactly when its evaluation does, and the same way. */
  lemma ProgramRefinesEval<W>(p: Program<W>, main: nat, globals: seq<Slot>, world: W, fuel: nat)
    requires main < |p.functions|
    ensures var start := PushedFrame(p, State(globals, [], [], world), main, [], None);
      start.Running? && start.state.callStack != [] &&
      Run(p, start.state, fuel) == match Eval(p, Enter(p, main, []), globals, world, 1, fuel)
                                   case Returned(_, _, _, _) => Stopped(Finished(0))
                                   case Ended(stop) => Stopped(stop)
                                   case OutOfTurns => Run(p, start.state, fuel)
    ensures var start := PushedFrame(p, State(globals, [], [], world), main, [], None);
      Run(p, start.state, fuel).Running? <==> Eval(p, Enter(p, main, []), globals, world, 1, fuel).OutOfTurns?
  {
    hide Run, Eval, FreshLocals;
    var s := PushedFrame(p, State(globals, [], [], world), main, [], None).state;
    assert [] + FreshLocals(p.functions[main].locals, []) == FreshLocals(p.functions[main].locals, []);
    MachineRefinesEval(p, s, fuel);
    var o := Eval(p, Enter(p, main, []), globals, world, 1, fuel);
    assert TopActivation(s) == Enter(p, main, []);
    if o.Returned? {
      RunAdd(p, s, o.turns, fuel - o.turns);
    }
  }

  // ── Recycled buffers ───────────────────────────────────────────────────

  ghost predicate SameButPool<W>(r: StepResult<W>, q: StepResult<W>) {
    match (r, q)
    case (Running(s), Running(t)) => s.globals == t.globals && s.world == t.world && s.callStack == t.callStack
    case (Stopped(a), Stopped(b)) => a == b
    case _ => false
  }

  /** A frame is the same whichever buffer it is built in. */
  lemma PushIgnoresPool<W>(p: Program<W>, s: State<W>, pool: seq<FrameBuf>, bodyIndex: nat, args: seq<Value>, returnReg: Option<nat>)
    ensures SameButPool(PushedFrame(p, s, bodyIndex, args, returnReg), PushedFrame(p, s.(framePool := pool), bodyIndex, args, returnReg))
  {
  }

  /** No run depends on what recycled buffers hold: no register or local of an old frame leaks. */
  lemma {:induction false} RunIgnoresPool<W>(p: Program<W>, s: State<W>, t: State<W>, n: nat)
    requires s.callStack != [] && SameButPool(Running(s), Running(t))
    ensures SameButPool(Run(p, s, n), Run(p, t, n))
    decreases n
  {
    hide Step, Run;
    if n == 0 {
      RunNone(p, s);
      RunNone(p, t);
    } else {
      assert s.(framePool := t.framePool) == t;
      StepIgnoresPool(p, s, t.framePool);
      RunUnfolds(p, s, n);
      RunUnfolds(p, t, n);
      var r, q := Step(p, s), Step(p, t);
      if r.Running? && q.Running? {
        RunIgnoresPool(p, r.state, q.state, n - 1);
      }
    }
  }

  lemma StepIgnoresPool<W>(p: Program<W>, s: State<W>, pool: seq<FrameBuf>)
    requires s.callStack != []
    ensures SameButPool(Step(p, s), Step(p, s.(framePool := pool)))
  {
    hide ExecInst;
    if AtInst(p, s) && TheEffect(p, s).CallUser? {
      hide PushedFrame;
      PushIgnoresPool(p, s.WithTop(s.Top().(pc := s.Top().pc + 1)), pool, TheEffect(p, s).bodyIndex, TheEffect(p, s).args, TheInst(p, s).result);
    }
  }

  // ── The mutable form ───────────────────────────────────────────────────

  class Interpreter<W> {
    const program: Program<W>
    var globals: seq<Slot>
    var callStack: seq<Frame>
    var framePool: seq<FrameBuf>
    var world: W

    function View(): State<W>
      reads this
    {
      State(globals, callStack, framePool, world)
    }

    constructor (program: Program<W>, globals: seq<Slot>, world: W)
      ensures this.program == program && View() == State(globals, [], [], world)
    {
      this.program, this.globals, this.world := program, globals, world;
      callStack, framePool := [], [];
    }

    method PushFrame(bodyIndex: nat, args: seq<Value>, returnReg: Option<nat>) returns (stop: Option<Stop>)
      modifies this
      ensures match PushedFrame(program, old(View()), bodyIndex, args, returnReg)
              case Running(s) => stop == None && View() == s
              case Stopped(e) => stop == Some(e)
    {
      if |callStack| >= MAX_CALL_DEPTH {
        return Some(Failed(StackOverflow));
      }
      if bodyIndex >= |program.functions| {
        return Some(Panicked);
      }
      var func := program.functions[bodyIndex];
      var registers, locals := [], [];
      if |framePool| > 0 {
        var buf := framePool[|framePool| - 1];
        framePool := framePool[..|framePool| - 1];
        registers, locals := buf.registers, buf.locals;
      }
      registers, locals := registers[..0], locals[..0];
      for i := 0 to |func.locals|
        invariant |locals| == i
        invariant forall k | 0 <= k < i :: locals[k] == Slot(if func.locals[k].isParam then Void else func.locals[k].init, false)
      {
        locals := locals + [Slot(if func.locals[i].isParam then Void else func.locals[i].init, false)];
      }
      for i := 0 to |args|
        invariant |locals| == |func.locals|
        invariant forall k | 0 <= k < |locals| ::
          locals[k] == Slot(if k < i then args[k] else if func.locals[k].isParam then Void else func.locals[k].init, false)
      {
        if i < |locals| {
          locals := locals[i := Slot(args[i], false)];
        }
      }
      assert locals == FreshLocals(func.locals, args);
      assert [] + FreshLocals(func.locals, args) == FreshLocals(func.locals, args);
      callStack := callStack + [Frame(bodyIndex, registers, locals, 0, 0, returnReg)];
      stop := None;
    }

    /** `exec_loop`, for at most `turns` turns: `None` if the program is still running then. */
    method ExecLoop(turns: nat) returns (stop: Option<Stop>)
      requires callStack != []
      modifies this
      ensures match Run(program, old(View()), turns)
              case Running(s) => stop == None && View() == s
              case Stopped(e) => stop == Some(e)
    {
      ghost var start := View();
      var i := 0;
      while i < turns
        invariant 0 <= i <= turns && callStack != []
        invariant Run(program, start, turns) == Run(program, View(), turns - i)
      {
        RunUnfolds(program, View(), turns - i);
        hide Run, Step;
        stop := Turn();
        if stop.Some? {
          return stop;
        }
        i := i + 1;
      }
      stop := None;
    }

    method Turn() returns (stop: Option<Stop>)
      requires callStack != []
      modifies this
      ensures match Step(program, old(View()))
              case Running(s) => stop == None && View() == s
              case Stopped(e) => stop == Some(e)
    {
      var f := callStack[|callStack| - 1];
      if f.bodyIndex >= |program.functions| || f.block >= |program.functions[f.bodyIndex].blocks| {
        return Some(Panicked);
      }
      var b := program.functions[f.bodyIndex].blocks[f.block];
      if f.pc >= |b.insts| {
        stop := EndBlock(b.term);
        return;
      }
      var inst := b.insts[f.pc];
      var e := ExecInst(program, inst.kind, f.registers, f.locals, globals, world);
      match e {
        case Abort(s) => stop := Some(s);
        case Continue(v, ls, gs, w) =>
          globals, world := gs, w;
          callStack := callStack[|callStack| - 1 := f.(registers := SetReg(f.registers, inst.result, v), locals := ls, pc := f.pc + 1)];
          stop := None;
        case CallUser(body, args) =>
          callStack := callStack[|callStack| - 1 := f.(pc := f.pc + 1)];
          stop := PushFrame(body, args, inst.result);
      }
    }

    method EndBlock(term: Option<Terminator>) returns (stop: Option<Stop>)
      requires callStack != []
      modifies this
      ensures match StepTerminator(old(View()), term)
              case Running(s) => stop == None && View() == s
              case Stopped(e) => stop == Some(e)
    {
      var f := callStack[|callStack| - 1];
      match term {
        case None => stop := Some(Failed(Unterminated));
        case Some(Goto(b)) =>
          callStack := callStack[|callStack| - 1 := f.(block := b, pc := 0)];
          stop := None;
        case Some(BranchIf(c, a, b)) =>
          if c >= |f.registers| {
            return Some(Panicked);
          }
          callStack := callStack[|callStack| - 1 := f.(block := if f.registers[c].IsTruthy() then a else b, pc := 0)];
          stop := None;
        case Some(Return(v)) =>
          if v.Some? && v.value >= |f.registers| {
            return Some(Panicked);
          }
          var value := if v.Some? then f.registers[v.value] else Void;
          callStack := callStack[..|callStack| - 1];
          framePool := framePool + [FrameBuf(f.registers, f.locals)];
          if callStack == [] {
            return Some(Finished(0));
          }
          var caller := callStack[|callStack| - 1];
          callStack := callStack[|callStack| - 1 := caller.(registers := SetReg(caller.registers, f.returnReg, value))];
          stop := None;
        case Some(Halt(code)) => stop := Some(Finished(code));
        case Some(Trap(k)) => stop := Some(Failed(TrapError(k)));
      }
    }
  }
}
