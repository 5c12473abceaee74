/** The same machine in place: an exception context and a thread of C whose methods
    overwrite `penv`, `caught`, `etmp`, the locals of each Try and the control stack.
    Every method is tied to the step function of SetjmpMachine. */
module CexceptThread {
  import opened StructuredExceptions
  import M = SetjmpMachine
  import opened CexceptCorrectness
  import opened CexceptTheorems

  /** struct exception_context, made by define_exception_type(int). */
  class ExceptionContext {
    var penv: M.Pointer
    var caught: int
    var etmp: int

    /** Memory that has not been initialised yet. */
    constructor (penv: M.Pointer, caught: int, etmp: int)
      ensures this.penv == penv && this.caught == caught && this.etmp == etmp
    {
      this.penv, this.caught, this.etmp := penv, caught, etmp;
    }

    /** init_exception_context(ec) clears penv and leaves the rest alone. */
    method Init()
      modifies this`penv
      ensures penv == M.Null
    {
      penv := M.Null;
    }
  }

  class Thread {
    const context: ExceptionContext
    var ctrl: M.CStmt
    var k: M.Kont
    var store: Store
    var blocks: map<nat, M.TryLocals>
    var next: nat
    var status: M.Status

    function View(): M.Machine
      reads this, context
    {
      M.Machine(ctrl, k, store, context.penv, context.caught, context.etmp, blocks, next, status)
    }

    /** A thread about to run a program, its context just initialised. */
    constructor (context: ExceptionContext, c: Stmt, store: Store)
      modifies context`penv
      ensures this.context == context
      ensures View() == M.Machine(
        M.Expand(c), M.Halt, store, M.Null, old(context.caught), old(context.etmp), map[], 0, M.Running)
    {
      this.context := context;
      ctrl, k := M.Expand(c), M.Halt;
      this.store := store;
      blocks, next, status := map[], 0, M.Running;
      new;
      context.Init();
    }

    method Evaluate(ce: M.CExpr) returns (n: int)
      modifies this`store, this`blocks, this`status, context
      ensures (View(), n) == M.CEval(ce, old(View()))
      decreases ce
    {
      match ce
      case Pure(e) => n := Value(e, store);
      case AssignTo(v, e) =>
        n := Value(e, store);
        store := store.Set(v, n);
      case Comma(a, b) =>
        n := Evaluate(a);
        n := Evaluate(b);
      case Not(a) =>
        n := Evaluate(a);
        n := if n == 0 then 1 else 0;
      case Or(a, b) =>
        n := Evaluate(a);
        if n != 0 {
          n := 1;
        } else {
          n := Evaluate(b);
          n := if n != 0 then 1 else 0;
        }
      case Caught => n := context.caught;
      case SetCaught(value) =>
        context.caught := value;
        n := value;
      case SetEtmp(e) =>
        n := Value(e, store);
        context.etmp := n;
      case CopyEtmpTo(t) =>
        store := Bind(t, context.etmp, store);
        n := context.etmp;
      case _ =>
        n := 0;
        MovePenv(ce);
    }

    /** The three assignments that move penv and exception__prev. */
    method MovePenv(ce: M.CExpr)
      requires ce.SavePrev? || ce.ArmEnv? || ce.RestorePrev?
      modifies this`blocks, this`status, context`penv
      ensures View() == M.CEval(ce, old(View())).0
    {
      var scope := M.BlockInScope(k);
      if scope.None? || (!ce.ArmEnv? && scope.value !in blocks) {
        status := M.Undefined;
      } else if ce.SavePrev? {
        blocks := blocks[scope.value := blocks[scope.value].(prev := context.penv, prevWritten := true)];
      } else if ce.ArmEnv? {
        context.penv := M.Env(scope.value);
      } else {
        context.penv := blocks[scope.value].prev;
      }
    }

    method LongJump(w: M.Platform)
      modifies this, context
      ensures View() == M.Jump(w, old(View()))
      ensures JumpsToInnermost(old(View())) && old(context.penv) == M.Null ==> status == M.NullJump
      ensures JumpsToInnermost(old(View())) && old(context.penv) != M.Null ==>
        && status == old(status) && ctrl == M.Do(M.SetCaught(1)) && k == Landing(old(k))
        && context.etmp == old(context.etmp)
    {
      match context.penv
      case Null => status := M.NullJump;
      case Env(id) =>
        var live := M.Unwind(k, store, id);
        if live.None? || id !in blocks || blocks[id].env.Unset? {
          status := M.Undefined;
        } else {
          var env, n := blocks[id].env, store.catches;
          ctrl, k, store := env.again, env.k, AfterCatch(w.lost, live.value, env.mark);
          context.penv, context.caught := w.penv(n, context.penv), w.caught(n, context.caught);
          if blocks[id].prevWritten {
            blocks := blocks[id := blocks[id].(prev := w.prev(n, blocks[id].prev))];
          }
          assert blocks == M.Jump(w, old(View())).blocks;
        }
    }

    /** The statement in control has completed. */
    method Resume()
      modifies this, context
      ensures View() == M.Resume(old(View()))
    {
      match k
      case Halt => status := M.Done;
      case ThenK(c, r) => ctrl, k := c, r;
      case LoopK(e, b, r) => ctrl, k := M.Loop(e, b), r;
      case DoK(b, e, r) =>
        var n := Evaluate(e);
        ctrl, k := if n != 0 then M.DoWhile(b, e) else M.Empty, r;
      case ForK(b, step, r) => ctrl, k := step, M.ThenK(M.Forever(b, step), r);
      case BlockK(_, r) => k := r;
      case CallK(locals, written, r) => k, store := r, store.(locals := locals, written := written);
    }

    /** A jump pops one frame or reaches its loop or function. */
    method PassOn(j: Jump)
      requires ctrl == M.JumpOut(j)
      modifies this
      ensures View() == M.PassOn(old(View()), j)
    {
      match k
      case ThenK(_, r) => k := r;
      case BlockK(_, r) => k := r;
      case Halt => status := if j.Return? then M.Done else M.Undefined;
      case CallK(locals, written, r) =>
        if j.Return? {
          ctrl, k, store := M.Empty, r, store.(locals := locals, written := written);
        } else {
          status := M.Undefined;
        }
      case LoopK(e, b, r) =>
        k := r;
        if j.Break? { ctrl := M.Empty; } else if j.Continue? { ctrl := M.Loop(e, b); }
      case DoK(_, _, r) => LeaveHidden(j, r);
      case ForK(_, _, r) => LeaveHidden(j, r);
    }

    /** A loop whose Continue goes on as if its body had completed. */
    method LeaveHidden(j: Jump, r: M.Kont)
      modifies this`ctrl, this`k
      ensures k == if j.Continue? then old(k) else r
      ensures ctrl == if j.Return? then old(ctrl) else M.Empty
    {
      if !j.Continue? { k := r; }
      if !j.Return? { ctrl := M.Empty; }
    }

    method Step(w: M.Platform, p: Program)
      modifies this, context
      ensures View() == M.Step(w, p, old(View()))
    {
      if status != M.Running { return; }
      match ctrl
      case Empty => Resume();
      case Do(ce) =>
        var n := Evaluate(ce);
        ctrl := M.Empty;
      case Then(a, b) => ctrl, k := a, M.ThenK(b, k);
      case IfElse(ce, a, b) =>
        var n := Evaluate(ce);
        ctrl := if n != 0 then a else b;
      case Loop(ce, b) =>
        var n := Evaluate(ce);
        if n != 0 { ctrl, k := b, M.LoopK(ce, b, k); } else { ctrl := M.Empty; }
      case DoWhile(b, ce) => ctrl, k := b, M.DoK(b, ce, k);
      case Forever(b, step) => ctrl, k := b, M.ForK(b, step, k);
      case Invoke(f, e) =>
        ctrl, k := M.Expand(Body(p, f)), M.CallK(store.locals, store.written, k);
        store := store.Enter(Value(e, store));
      case Block(b) =>
        ctrl, k := b, M.BlockK(next, k);
        blocks := blocks[next := M.TryLocals(w.uninitialised(next), true, M.Unset)];
        next := next + 1;
      case IfSetjmp(direct, again) =>
        var scope := M.BlockInScope(k);
        if scope.None? || scope.value !in blocks {
          status := M.Undefined;
        } else {
          var env := M.Filled(again, k, |store.written|);
          blocks := blocks[scope.value := blocks[scope.value].(prevWritten := false, env := env)];
          ctrl := direct;
        }
      case LongJmp => LongJump(w);
      case JumpOut(j) => PassOn(j);
    }

    /** Runs at most `limit` steps. When a permitted program stops, it has stopped
        with the result its structured meaning gives; at no time is its state unsound. */
    method Execute(w: M.Platform, p: Program, limit: nat, ghost c: Stmt) returns (steps: nat)
      requires Initial(w, p, c, View())
      modifies this, context
      ensures steps <= limit && View() == M.Run(w, p, steps, old(View()))
      ensures status == M.Running ==> steps == limit
      ensures Sound(View())
      ensures status != M.Running ==>
        exists fuel: nat :: Observe(View()) == Meaning(Eval(w.lost, p, fuel, c, old(store)))
    {
      ghost var start := View();
      steps := 0;
      while steps < limit && status == M.Running
        invariant steps <= limit && View() == M.Run(w, p, steps, start)
      {
        Step(w, p);
        steps := steps + 1;
      }
      HandlerChainIsKept(w, p, c, start, steps);
      if status != M.Running {
        MeaningIsPreserved(w, p, c, start, Observe(View()).value);
      }
    }
  }
}
