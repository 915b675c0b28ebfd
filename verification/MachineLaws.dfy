/** What single turns of the machine do to registers, variables and frames, said place by place. */
module MachineLaws {
  import opened Common
  import opened Machine

  // ── Results ────────────────────────────────────────────────────────────

  /** An instruction that makes no call: its result arrives in its register, the frame is past it, and nothing else
      changes but what the instruction's effect says of variables and the world. */
  lemma StepStores<W>(p: Program<W>, s: State<W>)
    requires s.callStack != [] && AtInst(p, s) && TheEffect(p, s).Continue?
    ensures var f, e, r, n := s.Top(), TheEffect(p, s), Step(p, s), |s.callStack| - 1;
      && r.Running? && |r.state.callStack| == n + 1 && r.state.callStack[..n] == s.callStack[..n]
      && Stored(f.registers, r.state.Top().registers, TheInst(p, s).result, e.value)
      && r.state.Top() == f.(registers := r.state.Top().registers, locals := e.locals, pc := f.pc + 1)
      && r.state.globals == e.globals && r.state.world == e.world && r.state.framePool == s.framePool
  {
    hide ExecInst, SetReg, Stored;
    SetRegStores(s.Top().registers, TheInst(p, s).result, TheEffect(p, s).value);
  }

  /** A Return: the frame goes to the pool, and the caller has the value in the register the call named; the return of
      the last frame ends the program. */
  lemma ReturnStores<W>(s: State<W>, v: Value)
    requires s.callStack != []
    ensures var f, r, n := s.Top(), StepReturn(s, v), |s.callStack| - 2;
      if |s.callStack| == 1 then r == Stopped(Finished(0))
      else
        && r.Running? && |r.state.callStack| == n + 1 && r.state.callStack[..n] == s.callStack[..n]
        && Stored(s.callStack[n].registers, r.state.Top().registers, f.returnReg, v)
        && r.state.Top() == s.callStack[n].(registers := r.state.Top().registers)
        && r.state.framePool == s.framePool + [FrameBuf(f.registers, f.locals)]
        && r.state.globals == s.globals && r.state.world == s.world
  {
    hide SetReg, Stored;
    if |s.callStack| > 1 {
      SetRegStores(s.callStack[|s.callStack| - 2].registers, s.Top().returnReg, v);
    }
  }

  // ── Arguments ──────────────────────────────────────────────────────────

  /** `vs` are the values in the registers named, in the order in which they are named. */
  ghost predicate Named(regs: seq<Value>, args: seq<nat>, vs: seq<Value>) {
    |vs| == |args| && RegsOk(regs, args) && forall i | 0 <= i < |args| :: vs[i] == regs[args[i]]
  }

  /** An operation's answer, where the frame goes on. */
  function Answered<W>(r: PrimResult<W>, locals: seq<Slot>, globals: seq<Slot>): Effect<W> {
    match r
    case PrimOk(v, w) => Continue(v, locals, globals, w)
    case PrimFail(e) => Abort(Failed(e))
  }

  /** Every kind of call passes on the values of the registers named, in order. */
  lemma CallsPassArguments<W>(p: Program<W>, regs: seq<Value>, args: seq<nat>, vs: seq<Value>, locals: seq<Slot>, globals: seq<Slot>, w: W, k: nat)
    requires Named(regs, args, vs)
    ensures ExecInst(p, Prim(k, args), regs, locals, globals, w) == Answered(p.prim(k, vs, w), locals, globals)
    ensures var e := ExecInst(p, Call(k, args), regs, locals, globals, w);
      k < |p.funcTable| ==>
        && (p.funcTable[k].UserDefined? ==> e == CallUser(p.funcTable[k].bodyIndex, vs))
        && (p.funcTable[k].Runtime? ==> e == Answered(p.prim(p.funcTable[k].op, vs, w), locals, globals))
  {
    assert ReadArgs(regs, args) == vs;
  }

  /** A call through a register is the call of the function in it, or an error of its own. */
  lemma IndirectCalls<W>(p: Program<W>, regs: seq<Value>, c: nat, args: seq<nat>, locals: seq<Slot>, globals: seq<Slot>, w: W)
    requires c < |regs|
    ensures var e := ExecInst(p, CallIndirect(c, args), regs, locals, globals, w);
      match regs[c]
      case FnPtr(Some(f)) => e == ExecInst(p, Call(f, args), regs, locals, globals, w)
      case FnPtr(None) => e == Abort(Failed(NullFnPtr))
      case Null => e == Abort(Failed(NullFnPtr))
      case Void => e == Abort(Failed(NotAFunction))
      case Data(_) => e == Abort(Failed(NotAFunction))
  {
  }

  /** The frame of a call: the i-th local is the i-th argument; further parameters are `Void`, further variables have
      their defaults; nothing counts as deleted, no register is set; the caller waits behind the call. */
  lemma CallBinds<W>(p: Program<W>, s: State<W>)
    requires s.callStack != [] && AtInst(p, s) && TheEffect(p, s).CallUser?
    requires |s.callStack| < MAX_CALL_DEPTH && TheEffect(p, s).bodyIndex < |p.functions|
    ensures var e, f, r := TheEffect(p, s), s.Top(), Step(p, s);
      var decls := p.functions[e.bodyIndex].locals;
      && r.Running? && r.state.callStack[..|s.callStack|] == s.callStack[..|s.callStack| - 1] + [f.(pc := f.pc + 1)]
      && |r.state.callStack| == |s.callStack| + 1 && r.state.globals == s.globals && r.state.world == s.world
      && var g := r.state.Top();
      && g.bodyIndex == e.bodyIndex && g.block == 0 && g.pc == 0 && g.registers == [] && g.returnReg == TheInst(p, s).result
      && |g.locals| == |decls|
      && (forall i | 0 <= i < |decls| && i < |e.args| :: g.locals[i] == Slot(e.args[i], false))
      && (forall i | |e.args| <= i < |decls| :: g.locals[i] == Slot(if decls[i].isParam then Void else decls[i].init, false))
  {
    hide ExecInst;
    CallPushes(p, s);
    var e := TheEffect(p, s);
    var g := Step(p, s).state.Top();
    assert TopActivation(Step(p, s).state) == Enter(p, e.bodyIndex, e.args);
    assert g.locals == FreshLocals(p.functions[e.bodyIndex].locals, e.args);
    assert s.WithTop(s.Top().(pc := s.Top().pc + 1)).callStack == s.callStack[..|s.callStack| - 1] + [s.Top().(pc := s.Top().pc + 1)];
    hide Step, FreshLocals;
  }

  /** A call takes the newest buffer from the pool, if there is one. */
  lemma CallTakesBuffer<W>(p: Program<W>, s: State<W>)
    requires s.callStack != [] && AtInst(p, s) && TheEffect(p, s).CallUser?
    requires |s.callStack| < MAX_CALL_DEPTH && TheEffect(p, s).bodyIndex < |p.functions|
    ensures var r, n := Step(p, s), |s.framePool|;
      r.Running? && r.state.framePool == if n == 0 then [] else s.framePool[..n - 1]
  {
    hide ExecInst, FreshLocals;
  }

  /** There may be 10000 frames: one more is refused, and a call of no function cannot go on. */
  lemma CallRefused<W>(p: Program<W>, s: State<W>)
    requires s.callStack != [] && AtInst(p, s) && TheEffect(p, s).CallUser?
    ensures Step(p, s) == Stopped(Failed(StackOverflow)) <==> |s.callStack| >= 10_000
    ensures Step(p, s) == Stopped(Panicked) <==> |s.callStack| < 10_000 && TheEffect(p, s).bodyIndex >= |p.functions|
  {
  }

  // ── Variables ──────────────────────────────────────────────────────────

  /** `ws` is `vs` with slot `i` replaced. */
  ghost predicate Replaced(vs: seq<Slot>, i: nat, slot: Slot, ws: seq<Slot>) {
    i < |vs| == |ws| && ws[i] == slot && forall k | 0 <= k < |vs| && k != i :: ws[k] == vs[k]
  }

  /** The variable a root names is replaced, and no other. */
  ghost predicate Overwrites(locals: seq<Slot>, globals: seq<Slot>, root: Root, slot: Slot, locals': seq<Slot>, globals': seq<Slot>) {
    match root
    case LocalRoot(l) => Replaced(locals, l, slot, locals') && globals' == globals
    case GlobalRoot(g) => Replaced(globals, g, slot, globals') && locals' == locals
  }

  ghost predicate IsVariable(locals: seq<Slot>, globals: seq<Slot>, root: Root, slot: Slot) {
    match root
    case LocalRoot(l) => l < |locals| && locals[l] == slot
    case GlobalRoot(g) => g < |globals| && globals[g] == slot
  }

  function LoadOf(root: Root): InstKind {
    match root
    case LocalRoot(l) => LoadLocal(l)
    case GlobalRoot(g) => LoadGlobal(g)
  }

  function StoreOf(root: Root, reg: nat): InstKind {
    match root
    case LocalRoot(l) => StoreLocal(l, reg)
    case GlobalRoot(g) => StoreGlobal(g, reg)
  }

  /** Loading yields the variable's value and changes nothing; storing replaces the variable, which then counts as not
      deleted, and yields nothing. */
  lemma LoadAndStore<W>(p: Program<W>, root: Root, slot: Slot, reg: nat, regs: seq<Value>, locals: seq<Slot>, globals: seq<Slot>, w: W)
    requires IsVariable(locals, globals, root, slot) && reg < |regs|
    ensures ExecInst(p, LoadOf(root), regs, locals, globals, w) == Continue(slot.value, locals, globals, w)
    ensures var e := ExecInst(p, StoreOf(root, reg), regs, locals, globals, w);
      e.Continue? && e.value == Void && e.world == w && Overwrites(locals, globals, root, Slot(regs[reg], false), e.locals, e.globals)
  {
  }

  /** What the three instructions that work on a variable in place leave in it, and when they refuse. A store through
      the variable sees its value and keeps its deleted flag; Redim clears the flag; a delete needs it clear and sets it. */
  lemma InPlace<W>(p: Program<W>, root: Root, slot: Slot, op: nat, args: seq<nat>, vs: seq<Value>, regs: seq<Value>,
                   locals: seq<Slot>, globals: seq<Slot>, w: W)
    requires IsVariable(locals, globals, root, slot) && Named(regs, args, vs)
    ensures Leaves(locals, globals, root, p.prim(op, [slot.value] + vs, w), slot.deleted,
                   ExecInst(p, StorePlace(root, op, args), regs, locals, globals, w))
    ensures Leaves(locals, globals, root, p.prim(op, vs, w), false, ExecInst(p, Redim(root, op, args), regs, locals, globals, w))
    ensures var e := ExecInst(p, DeleteLvalue(root, op), regs, locals, globals, w);
      if slot.deleted then e == Abort(Failed(DoubleDelete)) else Leaves(locals, globals, root, p.prim(op, [slot.value], w), true, e)
  {
    assert ReadArgs(regs, args) == vs;
  }

  ghost predicate Leaves<W>(locals: seq<Slot>, globals: seq<Slot>, root: Root, r: PrimResult<W>, deleted: bool, e: Effect<W>) {
    match r
    case PrimFail(x) => e == Abort(Failed(x))
    case PrimOk(v, w) =>
      e.Continue? && e.value == Void && e.world == w && Overwrites(locals, globals, root, Slot(v, deleted), e.locals, e.globals)
  }

  /** A second delete through the same variable is refused, until something is stored to it. */
  lemma DeleteTwice<W>(p: Program<W>, root: Root, op: nat, reg: nat, regs: seq<Value>, locals: seq<Slot>, globals: seq<Slot>, w: W)
    requires reg < |regs| && ExecInst(p, DeleteLvalue(root, op), regs, locals, globals, w).Continue?
    ensures var e := ExecInst(p, DeleteLvalue(root, op), regs, locals, globals, w);
      && ExecInst(p, DeleteLvalue(root, op), regs, e.locals, e.globals, e.world) == Abort(Failed(DoubleDelete))
      && var t := ExecInst(p, StoreOf(root, reg), regs, e.locals, e.globals, e.world);
      && t.Continue?
      && Leaves(t.locals, t.globals, root, p.prim(op, [regs[reg]], t.world), true,
                ExecInst(p, DeleteLvalue(root, op), regs, t.locals, t.globals, t.world))
  {
  }

  // ── Branches ───────────────────────────────────────────────────────────

  /** A branch goes to its else block exactly for zero, the empty function pointer, Null and Void. */
  lemma BranchTaken<W>(s: State<W>, c: nat, a: nat, b: nat)
    requires s.callStack != [] && c < |s.Top().registers|
    ensures var falsy := s.Top().registers[c] in [Data(0), FnPtr(None), Null, Void];
      StepTerminator(s, Some(BranchIf(c, a, b))) == Running(s.WithTop(s.Top().(block := if falsy then b else a, pc := 0)))
  {
  }

  /** How else a block can end. */
  lemma BlockEnds<W>(s: State<W>, b: nat, r: nat, code: int, k: nat)
    requires s.callStack != [] && r < |s.Top().registers|
    ensures StepTerminator(s, Some(Goto(b))) == Running(s.WithTop(s.Top().(block := b, pc := 0)))
    ensures StepTerminator(s, Some(Return(None))) == StepReturn(s, Void)
    ensures StepTerminator(s, Some(Return(Some(r)))) == StepReturn(s, s.Top().registers[r])
    ensures StepTerminator(s, Some(Halt(code))) == Stopped(Finished(code))
    ensures StepTerminator(s, Some(Trap(k))) == Stopped(Failed(TrapError(k)))
    ensures StepTerminator(s, None) == Stopped(Failed(Unterminated))
  {
  }
}
