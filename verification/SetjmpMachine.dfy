/** The C that the cexcept.h macros expand to, and a machine that runs it: a control
    stack, the three fields of the exception context, and jmp_bufs that setjmp fills
    and longjmp jumps through (sections 7.13.1.1 and 7.13.2.1 of ISO C99). */
module SetjmpMachine {
  import opened Options
  import opened StructuredExceptions

  /** A `jmp_buf *`: null, or the `exception__env` of the block activation `id`. */
  datatype Pointer = Null | Env(id: nat)

  /** C expressions. The last six are the pieces of the macros. */
  datatype CExpr =
    | Pure(e: Expr)
    | AssignTo(v: Variable, e: Expr)
    | Comma(a: CExpr, b: CExpr)
    | Not(a: CExpr)
    | Or(a: CExpr, b: CExpr)
    | Caught
    | SetCaught(n: int)
    | SetEtmp(e: Expr)
    | CopyEtmpTo(t: Target)  // (e) = the_exception_context->v.etmp
    | SavePrev               // exception__prev = the_exception_context->penv
    | ArmEnv                 // the_exception_context->penv = &exception__env
    | RestorePrev            // the_exception_context->penv = exception__prev

  datatype CStmt =
    | Empty
    | Do(ce: CExpr)
    | Then(first: CStmt, second: CStmt)
    | IfElse(cond: CExpr, thn: CStmt, els: CStmt)
    | Loop(cond: CExpr, body: CStmt)
    | DoWhile(body: CStmt, cond: CExpr)
    | Forever(body: CStmt, step: CStmt)           // for (;; step) body
    | Invoke(proc: string, arg: Expr)
    | Block(body: CStmt)                          // { jmp_buf *exception__prev, exception__env; body }
    | IfSetjmp(direct: CStmt, again: CStmt)       // if (setjmp(exception__env) == 0) direct else again
    | LongJmp                                     // longjmp(*the_exception_context->penv, 1)
    | JumpOut(j: Jump)                            // break, continue or return

  /** The control stack: what is still to be done, innermost first. A `CallK` keeps
      the locals of the suspended caller. */
  datatype Kont =
    | Halt
    | ThenK(c: CStmt, k: Kont)
    | LoopK(cond: CExpr, body: CStmt, k: Kont)
    | DoK(body: CStmt, cond: CExpr, k: Kont)
    | ForK(body: CStmt, step: CStmt, k: Kont)
    | BlockK(id: nat, k: Kont)
    | CallK(locals: map<Variable, int>, written: seq<Variable>, k: Kont)

  /** What setjmp records: where a second return continues, on which stack, and how
      much the activation had written by then. */
  datatype JmpBuf = Unset | Filled(again: CStmt, k: Kont, mark: nat)

  /** The two locals of an expanded Try. `prevWritten` says whether `prev` was
      assigned after the last setjmp of its function, so that longjmp may lose it. */
  datatype TryLocals = TryLocals(prev: Pointer, prevWritten: bool, env: JmpBuf)

  /** `NullJump` is a longjmp through a null penv, `Undefined` any other behaviour the
      C standard leaves undefined (or does not compile). */
  datatype Status = Running | Done | NullJump | Undefined

  datatype Machine = Machine(
    ctrl: CStmt, k: Kont, store: Store,
    penv: Pointer, caught: int, etmp: int,         // struct exception_context
    blocks: map<nat, TryLocals>, next: nat,
    status: Status)

  /** Everything a longjmp may leave indeterminate. The context may itself be an
      automatic variable, so `penv` and `caught` can be lost; `etmp` is volatile. */
  datatype Platform = Platform(
    lost: Lost,
    penv: (nat, Pointer) -> Pointer,
    caught: (nat, int) -> int,
    prev: (nat, Pointer) -> Pointer,
    uninitialised: nat -> Pointer)

  // ----- the macros

  /** The `while` condition that ends the Try clause: `caught = 0, caught`. */
  const END_OF_CLAUSE := Comma(SetCaught(0), Caught)

  function CatchAction(t: Option<Target>): CExpr {
    if t.Some? then Comma(CopyEtmpTo(t.value), Pure(Lit(0))) else Pure(Lit(0))
  }

  /** Stage three of the block: the setjmp, the Try clause and the landing place. */
  function Guarded(clause: CStmt): CStmt {
    IfSetjmp(DoWhile(clause, END_OF_CLAUSE), Do(SetCaught(1)))
  }

  /** `Try clause Catch(target) handler`, token for token. */
  function ExpandTry(clause: CStmt, t: Option<Target>, handler: CStmt): CStmt {
    Then(Block(Then(Do(SavePrev), Then(Do(ArmEnv), Then(Guarded(clause), Do(RestorePrev))))),
         IfElse(Or(Not(Caught), CatchAction(t)), Empty, handler))
  }

  function Expand(c: Stmt): CStmt {
    match c
    case Skip => Empty
    case Assign(v, e) => Do(AssignTo(v, e))
    case Seq(a, b) => Then(Expand(a), Expand(b))
    case If(e, a, b) => IfElse(Pure(e), Expand(a), Expand(b))
    case While(e, b) => Loop(Pure(e), Expand(b))
    case Call(f, e) => Invoke(f, e)
    case Throw(e) => Forever(Do(SetEtmp(e)), LongJmp)
    case TryCatch(b, t, h) => ExpandTry(Expand(b), t, Expand(h))
    case Leave(j) => JumpOut(j)
  }

  // ----- running C

  /** The block whose `exception__prev` and `exception__env` are in scope. */
  function BlockInScope(k: Kont): Option<nat> {
    match k
    case Halt => None
    case CallK(_, _, _) => None
    case BlockK(id, _) => Some(id)
    case ThenK(_, r) => BlockInScope(r)
    case LoopK(_, _, r) => BlockInScope(r)
    case DoK(_, _, r) => BlockInScope(r)
    case ForK(_, _, r) => BlockInScope(r)
  }

  function LocalsOf(m: Machine): Option<TryLocals> {
    var b := BlockInScope(m.k);
    if b.Some? && b.value in m.blocks then Some(m.blocks[b.value]) else None
  }

  /** Evaluates an expression for its value and its effects on the machine. */
  function CEval(ce: CExpr, m: Machine): (r: (Machine, int))
    ensures r.0.k == m.k && r.0.next == m.next
  {
    match ce
    case Pure(e) => (m, Value(e, m.store))
    case AssignTo(v, e) => var n := Value(e, m.store); (m.(store := m.store.Set(v, n)), n)
    case Comma(a, b) => CEval(b, CEval(a, m).0)
    case Not(a) => var (m1, n) := CEval(a, m); (m1, if n == 0 then 1 else 0)
    case Or(a, b) =>
      var (m1, n) := CEval(a, m);
      if n != 0 then (m1, 1)
      else var (m2, n2) := CEval(b, m1); (m2, if n2 != 0 then 1 else 0)
    case Caught => (m, m.caught)
    case SetCaught(n) => (m.(caught := n), n)
    case SetEtmp(e) => var n := Value(e, m.store); (m.(etmp := n), n)
    case CopyEtmpTo(t) => (m.(store := Bind(t, m.etmp, m.store)), m.etmp)
    case SavePrev =>
      var b := LocalsOf(m);
      if b.None? then (m.(status := Undefined), 0)
      else (m.(blocks := m.blocks[BlockInScope(m.k).value := b.value.(prev := m.penv, prevWritten := true)]), 0)
    case ArmEnv =>
      var b := BlockInScope(m.k);
      if b.None? then (m.(status := Undefined), 0) else (m.(penv := Env(b.value)), 0)
    case RestorePrev =>
      var b := LocalsOf(m);
      if b.None? then (m.(status := Undefined), 0) else (m.(penv := b.value.prev), 0)
  }

  /** Unwinds the stack to the block activation `id`: the store as that activation
      sees it, or None when the activation is no longer on the stack. */
  function Unwind(k: Kont, s: Store, id: nat): Option<Store> {
    match k
    case Halt => None
    case BlockK(i, r) => if i == id then Some(s) else Unwind(r, s, id)
    case CallK(locals, written, r) => Unwind(r, s.(locals := locals, written := written), id)
    case ThenK(_, r) => Unwind(r, s, id)
    case LoopK(_, _, r) => Unwind(r, s, id)
    case DoK(_, _, r) => Unwind(r, s, id)
    case ForK(_, _, r) => Unwind(r, s, id)
  }

  /** longjmp(*penv, 1): defined only for a filled jmp_buf whose block is still live;
      it then returns a second time from the setjmp that filled it. */
  function Jump(w: Platform, m: Machine): Machine {
    match m.penv
    case Null => m.(status := NullJump)
    case Env(id) =>
      var live := Unwind(m.k, m.store, id);
      if live.None? || id !in m.blocks || m.blocks[id].env.Unset? then m.(status := Undefined)
      else
        var b := m.blocks[id];
        var n := m.store.catches;
        m.(ctrl := b.env.again, k := b.env.k, store := AfterCatch(w.lost, live.value, b.env.mark),
           penv := w.penv(n, m.penv), caught := w.caught(n, m.caught),
           blocks := m.blocks[id := if b.prevWritten then b.(prev := w.prev(n, b.prev)) else b])
  }

  /** What happens when the statement in control has just completed. */
  function Resume(m: Machine): Machine {
    match m.k
    case Halt => m.(status := Done)
    case ThenK(c, r) => m.(ctrl := c, k := r)
    case LoopK(e, b, r) => m.(ctrl := Loop(e, b), k := r)
    case DoK(b, e, r) => var (m1, n) := CEval(e, m); m1.(ctrl := if n != 0 then DoWhile(b, e) else Empty, k := r)
    case ForK(b, step, r) => m.(ctrl := step, k := ThenK(Forever(b, step), r))
    case BlockK(_, r) => m.(k := r)
    case CallK(locals, written, r) => m.(k := r, store := m.store.(locals := locals, written := written))
  }

  /** What a jump does to the innermost frame: C's break and continue belong to any
      loop, so also to the `do` hidden in a Try. */
  function PassOn(m: Machine, j: Jump): Machine {
    match m.k
    case ThenK(_, r) => m.(k := r)
    case BlockK(_, r) => m.(k := r)
    case Halt => if j.Return? then m.(status := Done) else m.(status := Undefined)
    case CallK(locals, written, r) =>
      if j.Return? then m.(ctrl := Empty, k := r, store := m.store.(locals := locals, written := written))
      else m.(status := Undefined)
    case LoopK(e, b, r) =>
      (match j
       case Break => m.(ctrl := Empty, k := r)
       case Continue => m.(ctrl := Loop(e, b), k := r)
       case Return => m.(k := r))
    case DoK(_, _, r) =>
      (match j
       case Break => m.(ctrl := Empty, k := r)
       case Continue => m.(ctrl := Empty)
       case Return => m.(k := r))
    case ForK(_, _, r) =>
      (match j
       case Break => m.(ctrl := Empty, k := r)
       case Continue => m.(ctrl := Empty)
       case Return => m.(k := r))
  }

  /** One step. A program is kept in source form; its functions are expanded as they
      are entered. A machine that is no longer running stays as it is. */
  function Step(w: Platform, p: Program, m: Machine): Machine {
    if m.status != Running then m
    else match m.ctrl
      case Empty => Resume(m)
      case Do(ce) => CEval(ce, m).0.(ctrl := Empty)
      case Then(a, b) => m.(ctrl := a, k := ThenK(b, m.k))
      case IfElse(ce, a, b) => var (m1, n) := CEval(ce, m); m1.(ctrl := if n != 0 then a else b)
      case Loop(ce, b) =>
        var (m1, n) := CEval(ce, m);
        if n != 0 then m1.(ctrl := b, k := LoopK(ce, b, m.k)) else m1.(ctrl := Empty)
      case DoWhile(b, ce) => m.(ctrl := b, k := DoK(b, ce, m.k))
      case Forever(b, step) => m.(ctrl := b, k := ForK(b, step, m.k))
      case Invoke(f, e) =>
        m.(ctrl := Expand(Body(p, f)), k := CallK(m.store.locals, m.store.written, m.k),
           store := m.store.Enter(Value(e, m.store)))
      case Block(b) =>
        m.(ctrl := b, k := BlockK(m.next, m.k), next := m.next + 1,
           blocks := m.blocks[m.next := TryLocals(w.uninitialised(m.next), true, Unset)])
      case IfSetjmp(direct, again) =>
        var b := LocalsOf(m);
        if b.None? then m.(status := Undefined)
        else m.(ctrl := direct,
                blocks := m.blocks[BlockInScope(m.k).value :=
                  b.value.(prevWritten := false, env := Filled(again, m.k, |m.store.written|))])
      case LongJmp => Jump(w, m)
      case JumpOut(j) => PassOn(m, j)
  }

  function Run(w: Platform, p: Program, n: nat, m: Machine): Machine {
    if n == 0 then m else Step(w, p, Run(w, p, n - 1, m))
  }
}
