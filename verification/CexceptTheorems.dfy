/** What cexcept.h is for, over whole runs: the expansion of a program and its
    structured meaning have the same results, and no reachable longjmp is undefined.
    The last lemmas show why the header forbids jumping out of a Try clause. */
module CexceptTheorems {
  import opened Options
  import opened StructuredExceptions
  import opened SetjmpMachine
  import opened CexceptCorrectness

  /** How a whole program ends: normally, or by an exception nobody caught, of which
      only the value and the static storage can still be observed. */
  datatype Result =
    | Finished(s: Store)
    | Uncaught(value: int, statics: map<Variable, int>, catches: nat)

  function Meaning(o: Outcome): Option<Result> {
    match o
    case Normal(s) => Some(Finished(s))
    case Jumped(j, s) => if j.Return? then Some(Finished(s)) else None
    case Thrown(v, s) => Some(Uncaught(v, s.statics, s.catches))
    case _ => None
  }

  function Observe(m: Machine): Option<Result> {
    match m.status
    case Done => Some(Finished(m.store))
    case NullJump => Some(Uncaught(m.etmp, m.store.statics, m.store.catches))
    case _ => None
  }

  /** However far it is followed, the program makes no forbidden jump. */
  ghost predicate Permitted(lost: Lost, p: Program, c: Stmt, s: Store) {
    forall fuel: nat :: Allowed(Eval(lost, p, fuel, c, s), false, true)
  }

  /** The header's syntactic rule is enough for that. */
  lemma {:induction false} WellFormedIsPermitted(lost: Lost, p: Program, c: Stmt, s: Store)
    requires WellFormedProgram(p) && WellFormed(c, false, true)
    ensures Permitted(lost, p, c, s)
  {
    forall fuel: nat ensures Allowed(Eval(lost, p, fuel, c, s), false, true) {
      JumpsStayInside(lost, p, fuel, c, s, false, true);
    }
  }

  /** A program about to run on a context to which only init_exception_context has
      been applied: penv is null, the other fields are arbitrary. */
  ghost predicate Initial(w: Platform, p: Program, c: Stmt, m: Machine) {
    && Permitted(w.lost, p, c, m.store)
    && m.status.Running? && m.ctrl == Expand(c) && m.k == Halt && m.penv == Null
  }

  lemma {:induction false} TraceIsRun(w: Platform, p: Program, t: seq<Machine>, m: Machine, n: nat, m': Machine, i: nat)
    requires IsTrace(w, p, t, m, n, m') && i <= n
    ensures t[i] == Run(w, p, i, m)
  {
    if i > 0 {
      TraceIsRun(w, p, t, m, n, m', i - 1);
      assert Steps(w, p, t, i - 1);
    }
  }

  lemma {:induction false} Halted(w: Platform, p: Program, m: Machine, i: nat, j: nat)
    requires i <= j && !Run(w, p, i, m).status.Running?
    ensures Run(w, p, j, m) == Run(w, p, i, m)
  {
    if i < j { Halted(w, p, m, i, j - 1); }
  }

  /** The last step of a program that has come to the end of its structured meaning. */
  lemma {:induction false} LastStep(w: Platform, p: Program, c: Stmt, m: Machine, o: Outcome, fuel: nat, n: nat,
        m': Machine)
    requires Initial(w, p, c, m) && o == Eval(w.lost, p, fuel, c, m.store) && !o.Timeout?
    requires Goes(w, p, m, n, m') && Reaches(m, o, fuel, n, m')
    ensures Goes(w, p, m, n + 1, Step(w, p, m'))
    ensures Observe(Step(w, p, m')) == Meaning(o) && Meaning(o).Some?
  {
    assert Allowed(o, false, true);
    Advance(w, p, m, n, m');
  }

  /** Either the structured meaning needs more fuel and the machine is still running
      after that many steps, or both have ended, with the same result. */
  lemma {:induction false} Outrun(w: Platform, p: Program, c: Stmt, m: Machine, fuel: nat) returns (n: nat)
    requires Initial(w, p, c, m)
    ensures forall i: nat | i <= n :: Sound(Run(w, p, i, m))
    ensures Eval(w.lost, p, fuel, c, m.store).Timeout? ==> n >= fuel && Run(w, p, n, m).status.Running?
    ensures !Eval(w.lost, p, fuel, c, m.store).Timeout? ==>
      var r := Meaning(Eval(w.lost, p, fuel, c, m.store));
      r.Some? && Observe(Run(w, p, n, m)) == r
  {
    var m';
    n, m' := Simulate(w, p, fuel, c, m);
    var o := Eval(w.lost, p, fuel, c, m.store);
    if !o.Timeout? {
      LastStep(w, p, c, m, o, fuel, n, m');
      n, m' := n + 1, Step(w, p, m');
    }
    var t :| IsTrace(w, p, t, m, n, m');
    TraceIsRun(w, p, t, m, n, m', n);
    forall i: nat | i <= n ensures Sound(Run(w, p, i, m)) {
      TraceIsRun(w, p, t, m, n, m', i);
      assert Sound'(t, i);
    }
  }

  /** MAIN RESULT. For every program that makes no forbidden jump, so for every
      well-formed one, and every platform and starting store, the expanded program ends
      with a result exactly when the structured meaning has it; in particular one
      diverges exactly when the other does. */
  lemma {:induction false} MeaningIsPreserved(w: Platform, p: Program, c: Stmt, m: Machine, r: Result)
    requires Initial(w, p, c, m)
    ensures (exists fuel: nat :: Meaning(Eval(w.lost, p, fuel, c, m.store)) == Some(r))
       <==> (exists n: nat :: Observe(Run(w, p, n, m)) == Some(r))
  {
    if fuel: nat :| Meaning(Eval(w.lost, p, fuel, c, m.store)) == Some(r) {
      var n := Outrun(w, p, c, m, fuel);
      assert Observe(Run(w, p, n, m)) == Some(r);
    }
    if n: nat :| Observe(Run(w, p, n, m)) == Some(r) {
      var fuel := n + 1;
      var n' := Outrun(w, p, c, m, fuel);
      if n <= n' { Halted(w, p, m, n, n'); } else { Halted(w, p, m, n', n); }
      assert Meaning(Eval(w.lost, p, fuel, c, m.store)) == Some(r);
    }
  }

  /** Every reachable state is sound: nothing undefined has happened, penv denotes the
      innermost active Try whenever application code is in control, and each longjmp
      lands in that Try, whose block is live; only with no active Try is penv null. */
  lemma {:induction false} HandlerChainIsKept(w: Platform, p: Program, c: Stmt, m: Machine, n: nat)
    requires Initial(w, p, c, m)
    ensures Sound(Run(w, p, n, m))
  {
    var n' := Outrun(w, p, c, m, n);
    if n' < n { Halted(w, p, m, n', n); }
  }

  /** A Try/Catch statement seen from outside, in any surroundings: when it is over,
      normally, by a permitted jump, or by an exception out of its Catch clause, penv
      is what it was before and no enclosing Try has been disturbed. */
  lemma {:induction false} TryRestoresPenv(w: Platform, p: Program, fuel: nat, c: Stmt, m: Machine)
    returns (n: nat, m': Machine)
    requires c.TryCatch? && Begins(c, m)
    requires var o := Eval(w.lost, p, fuel, c, m.store); !o.Timeout? && !o.Forbidden?
    ensures m' == Run(w, p, n, m) && m'.status.Running? && Keeps(m, m')
    ensures m'.ctrl == (match Eval(w.lost, p, fuel, c, m.store)
                        case Normal(_) => Empty
                        case Jumped(j, _) => JumpOut(j)
                        case _ => LongJmp)
  {
    n, m' := Simulate(w, p, fuel, c, m);
    GoesRuns(w, p, m, n, m');
  }

  lemma {:induction false} GoesRuns(w: Platform, p: Program, m: Machine, n: nat, m': Machine)
    requires Goes(w, p, m, n, m')
    ensures m' == Run(w, p, n, m)
  {
    var t :| IsTrace(w, p, t, m, n, m');
    TraceIsRun(w, p, t, m, n, m', n);
  }

  // ----- why jumping out of a Try clause is forbidden

  lemma {:induction false} RunsAdd(w: Platform, p: Program, m: Machine, a: nat, m': Machine, b: nat)
    requires m' == Run(w, p, a, m)
    ensures Run(w, p, b, m') == Run(w, p, a + b, m)
  {
    if b > 0 { RunsAdd(w, p, m, a, m', b - 1); }
  }

  /** One step further along a run of which n steps have led to m'. */
  lemma {:induction false} Onwards(w: Platform, p: Program, m: Machine, n: nat, m': Machine)
    returns (n': nat, m'': Machine)
    requires m' == Run(w, p, n, m)
    ensures n' == n + 1 && m'' == Step(w, p, m') == Run(w, p, n', m)
  {
    n', m'' := n + 1, Step(w, p, m');
  }

  /** A block that has not been entered yet is nowhere on the stack. */
  lemma {:induction false} FreshIsDead(k: Kont, blocks: map<nat, TryLocals>, next: nat, s: Store)
    requires Linked(k, blocks, next)
    ensures Unwind(k, s, next) == None
  {
    match k
    case Halt =>
    case DoK(_, _, r) =>
      FreshIsDead(r.k.k, blocks, next, s);
      assert Unwind(r, s, next) == Unwind(r.k, s, next) == Unwind(r.k.k, s, next);
    case ThenK(_, r) => FreshIsDead(r, blocks, next, s);
    case LoopK(_, _, r) => FreshIsDead(r, blocks, next, s);
    case ForK(_, _, r) => FreshIsDead(r, blocks, next, s);
    case BlockK(_, r) => FreshIsDead(r, blocks, next, s);
    case CallK(l, wr, r) => FreshIsDead(r, blocks, next, s.(locals := l, written := wr));
  }

  /** Any clause left by Return leaves its block with penv pointing at the block's
      jmp_buf, which is then nowhere on the stack. */
  lemma {:induction false} ReturnLeavesPenvDangling(w: Platform, p: Program, fuel: nat, clause: Stmt, m: Machine)
    returns (n: nat, m': Machine)
    requires m.status.Running? && Chain(m)
    requires m.ctrl == Block(Then(Do(SavePrev), Then(Do(ArmEnv), Then(Guarded(Expand(clause)), Do(RestorePrev)))))
    requires Eval(w.lost, p, fuel, clause, m.store).Jumped? && Eval(w.lost, p, fuel, clause, m.store).j.Return?
    ensures m' == Run(w, p, n, m) && m'.status.Running? && m'.ctrl == JumpOut(Return)
    ensures m'.k == m.k && m'.store == Eval(w.lost, p, fuel, clause, m.store).s
    ensures m'.penv == Env(m.next) && forall s :: Unwind(m'.k, s, m.next) == None
  {
    var m0;
    n, m0 := SimulateClause(w, p, fuel, clause, m);
    GoesRuns(w, p, m, n, m0);
    n, m' := Onwards(w, p, m, n, m0);
    assert m' == m0.(k := ThenK(Do(RestorePrev), BlockK(m.next, m.k)));
    n, m' := Onwards(w, p, m, n, m');
    assert m' == m0.(k := BlockK(m.next, m.k));
    n, m' := Onwards(w, p, m, n, m');
    forall s ensures Unwind(m.k, s, m.next) == None { FreshIsDead(m.k, m.blocks, m.next, s); }
  }

  /** From a call of a function whose body is a Try, to its opening brace. */
  lemma {:induction false} RunIntoCallee(w: Platform, p: Program, clause: Stmt, t: Option<Target>, h: Stmt, f: string,
        arg: Expr, rest: CStmt, m: Machine)
    returns (n: nat, m': Machine, decide: CStmt)
    requires Body(p, f) == TryCatch(clause, t, h)
    requires m.status.Running? && Chain(m) && m.ctrl == Then(Invoke(f, arg), rest)
    ensures m' == Run(w, p, n, m) && m'.status.Running? && Chain(m') && m'.store == m.store.Enter(Value(arg, m.store))
    ensures m'.ctrl == Block(Then(Do(SavePrev), Then(Do(ArmEnv), Then(Guarded(Expand(clause)), Do(RestorePrev)))))
    ensures m'.k == ThenK(decide, CallK(m.store.locals, m.store.written, ThenK(rest, m.k)))
    ensures m'.next == m.next
  {
    n, m' := 0, m;
    n, m' := Onwards(w, p, m, n, m');
    var k1 := ThenK(rest, m.k);
    assert m' == m.(ctrl := Invoke(f, arg), k := k1);
    n, m' := Onwards(w, p, m, n, m');
    var k2 := CallK(m.store.locals, m.store.written, k1);
    assert m'.ctrl == Expand(TryCatch(clause, t, h)) && m'.k == k2;
    assert m'.ctrl == ExpandTry(Expand(clause), t, Expand(h));
    decide := m'.ctrl.second;
    n, m' := Onwards(w, p, m, n, m');
    assert InnermostTry(m'.k) == InnermostTry(k2) == InnermostTry(k1) == InnermostTry(m.k);
    assert Linked(k1, m.blocks, m.next) && Linked(k2, m.blocks, m.next);
  }

  /** A Throw jumps through whatever penv holds, even into a dead block. */
  lemma {:induction false} RunThrow(w: Platform, p: Program, e: Expr, k: Kont, m: Machine)
    returns (n: nat, m': Machine)
    requires m.status.Running? && m.ctrl == Empty && m.k == ThenK(Expand(Throw(e)), k)
    requires m.penv.Env? && forall s :: Unwind(k, s, m.penv.id) == None
    ensures m' == Run(w, p, n, m) && m'.status == Undefined
  {
    n, m' := 0, m;
    n, m' := Onwards(w, p, m, n, m');
    assert m' == m.(ctrl := Expand(Throw(e)), k := k);
    n, m' := Onwards(w, p, m, n, m');
    n, m' := Onwards(w, p, m, n, m');
    n, m' := Onwards(w, p, m, n, m');
    assert m'.ctrl == LongJmp && m'.k == ThenK(Expand(Throw(e)), k);
    assert Unwind(m'.k, m'.store, m.penv.id) == Unwind(k, m'.store, m.penv.id);
    n, m' := Onwards(w, p, m, n, m');
  }

  lemma {:induction false} ReturnToCaller(w: Platform, p: Program, m: Machine, n: nat, m2: Machine, decide: CStmt,
        rest: CStmt)
    returns (n': nat, m': Machine)
    requires m2 == Run(w, p, n, m) && m2.status.Running? && m2.ctrl == JumpOut(Return)
    requires m2.k == ThenK(decide, CallK(m.store.locals, m.store.written, ThenK(rest, m.k)))
    ensures m' == Run(w, p, n', m) && m'.status.Running? && m'.ctrl == Empty && m'.penv == m2.penv
    ensures m'.k == ThenK(rest, m.k)
  {
    n', m' := Onwards(w, p, m, n, m2);
    n', m' := Onwards(w, p, m, n', m');
  }

  /** Calling such a function and coming back leaves the caller with that penv. */
  lemma {:induction false} CallLeavesPenvDangling(w: Platform, p: Program, fuel: nat, clause: Stmt, t: Option<Target>,
        h: Stmt, f: string, arg: Expr, rest: CStmt, m: Machine)
    returns (n: nat, m': Machine)
    requires Body(p, f) == TryCatch(clause, t, h)
    requires m.status.Running? && Chain(m) && m.ctrl == Then(Invoke(f, arg), rest)
    requires var o := Eval(w.lost, p, fuel, clause, m.store.Enter(Value(arg, m.store))); o.Jumped? && o.j.Return?
    ensures m' == Run(w, p, n, m) && m'.status.Running? && m'.ctrl == Empty && m'.k == ThenK(rest, m.k)
    ensures m'.penv == Env(m.next) && forall s :: Unwind(m'.k, s, m.next) == None
  {
    var n1, m1, decide := RunIntoCallee(w, p, clause, t, h, f, arg, rest, m);
    var n2, m2 := ReturnLeavesPenvDangling(w, p, fuel, clause, m1);
    RunsAdd(w, p, m, n1, m1, n2);
    n, m' := ReturnToCaller(w, p, m, n1 + n2, m2, decide, rest);
    forall s ensures Unwind(m'.k, s, m.next) == None { FreshIsDead(m.k, m.blocks, m.next, s); }
  }

  /** So in any surroundings, even inside another Try, calling a function whose Try
      clause is left by Return and then throwing has undefined behaviour. */
  lemma {:induction false} ReturnFromClauseIsUndefined(w: Platform, p: Program, fuel: nat, clause: Stmt,
        t: Option<Target>, h: Stmt, f: string, arg: Expr, e: Expr, m: Machine)
    returns (n: nat)
    requires Body(p, f) == TryCatch(clause, t, h)
    requires m.status.Running? && Chain(m) && m.ctrl == Expand(Seq(Call(f, arg), Throw(e)))
    requires var o := Eval(w.lost, p, fuel, clause, m.store.Enter(Value(arg, m.store))); o.Jumped? && o.j.Return?
    ensures Run(w, p, n, m).status == Undefined
  {
    assert m.ctrl == Then(Invoke(f, arg), Expand(Throw(e)));
    var n1, m1 := CallLeavesPenvDangling(w, p, fuel, clause, t, h, f, arg, Expand(Throw(e)), m);
    forall s ensures Unwind(m.k, s, m.next) == None { assert Unwind(m1.k, s, m.next) == None; }
    var n2, m2 := RunThrow(w, p, e, m.k, m1);
    RunsAdd(w, p, m, n1, m1, n2);
    n := n1 + n2;
  }

  /** Break and Continue in any Try clause only leave the hidden `do`: control arrives
      at the end of that same Try instead of the loop they were meant for. */
  lemma {:induction false} JumpFromClauseStaysInside(w: Platform, p: Program, fuel: nat, clause: Stmt, m: Machine)
    returns (n: nat, m': Machine)
    requires m.status.Running? && Chain(m)
    requires m.ctrl == Block(Then(Do(SavePrev), Then(Do(ArmEnv), Then(Guarded(Expand(clause)), Do(RestorePrev)))))
    requires Eval(w.lost, p, fuel, clause, m.store).Jumped? && !Eval(w.lost, p, fuel, clause, m.store).j.Return?
    ensures m' == Run(w, p, n, m) && Arrived(m, m', Empty, Eval(w.lost, p, fuel, clause, m.store).s)
    ensures Eval(w.lost, p, fuel, clause, m.store).j.Continue? ==> m'.caught == 0
  {
    var o := Eval(w.lost, p, fuel, clause, m.store);
    var n1, m0 := SimulateClause(w, p, fuel, clause, m);
    GoesRuns(w, p, m, n1, m0);
    var n2;
    n2, m' := LeaveDo(w, p, m, m0, Expand(clause), o.j, o.s);
    RunsAdd(w, p, m, n1, m0, n2);
    n := n1 + n2;
  }

  /** From the jump to the closing brace: a Continue still evaluates the condition of
      the `do`, which clears `caught`; a Break does not. */
  lemma {:induction false} LeaveDo(w: Platform, p: Program, m: Machine, m0: Machine, clause: CStmt, j: Jump, s: Store)
    returns (n: nat, m': Machine)
    requires StillInside(m, m0, clause, j, s) && !j.Return?
    ensures m' == Run(w, p, n, m0) && Arrived(m, m', Empty, s)
    ensures m'.etmp == m0.etmp && m'.caught == if j.Continue? then 0 else m0.caught
  {
    n, m' := 0, m0;
    n, m' := Onwards(w, p, m0, n, m');
    if j.Continue? {
      assert CEval(SetCaught(0), m') == (m'.(caught := 0), 0);
      assert CEval(END_OF_CLAUSE, m') == (m'.(caught := 0), 0);
      n, m' := Onwards(w, p, m0, n, m');
    }
    assert m' == m0.(ctrl := Empty, k := m0.k.k, caught := m'.caught);
    n, m' := Onwards(w, p, m0, n, m');
    assert LocalsOf(m') == Some(m0.blocks[m.next]);
    n, m' := Onwards(w, p, m0, n, m');
    n, m' := Onwards(w, p, m0, n, m');
  }

  /** After a Break at once, `caught` is what it was before the Try. */
  lemma {:induction false} BreakLeavesFlagStale(w: Platform, p: Program, m: Machine) returns (n: nat, m': Machine)
    requires m.status.Running? && Chain(m)
    requires m.ctrl == Block(Then(Do(SavePrev), Then(Do(ArmEnv), Then(Guarded(JumpOut(Break)), Do(RestorePrev)))))
    ensures m' == Run(w, p, n, m) && Arrived(m, m', Empty, m.store)
    ensures m'.caught == m.caught && m'.etmp == m.etmp
  {
    var m0 := EnterClause(w, p, Leave(Break), m);
    var n1 := 10;
    GoesRuns(w, p, m, n1, m0);
    var n2;
    n2, m' := LeaveDo(w, p, m, m0, JumpOut(Break), Break, m.store);
    RunsAdd(w, p, m, n1, m0, n2);
    n := n1 + n2;
  }

  lemma {:induction false} OpenTry(w: Platform, p: Program, clause: Stmt, t: Option<Target>, h: Stmt, m: Machine)
    returns (m': Machine)
    requires m.status.Running? && Chain(m) && m.ctrl == Expand(TryCatch(clause, t, h))
    ensures m' == Run(w, p, 1, m) && Chain(m')
    ensures m' == m.(ctrl := m'.ctrl, k := ThenK(IfElse(Or(Not(Caught), CatchAction(t)), Empty, Expand(h)), m.k))
    ensures m'.ctrl == Block(Then(Do(SavePrev), Then(Do(ArmEnv), Then(Guarded(Expand(clause)), Do(RestorePrev)))))
  {
    var n;
    n, m' := Onwards(w, p, m, 0, m);
    assert InnermostTry(m'.k) == InnermostTry(m.k) && Linked(m'.k, m.blocks, m.next);
  }

  /** So the Catch clause runs, with the old value of etmp, exactly if some earlier Try
      left the flag set. */
  lemma {:induction false} StaleFlagDecides(w: Platform, p: Program, t: Option<Target>, h: Stmt, m: Machine)
    returns (n: nat, m': Machine)
    requires m.status.Running? && Chain(m) && (m.caught == 0 || m.caught == 1)
    requires m.ctrl == Expand(TryCatch(Leave(Break), t, h))
    ensures m' == Run(w, p, n, m)
    ensures if m.caught == 0 then Arrived(m, m', Empty, m.store)
            else Arrived(m, m', Expand(h), BindIfNamed(t, m.etmp, m.store))
  {
    var m1 := OpenTry(w, p, Leave(Break), t, h, m);
    var n2, m2 := BreakLeavesFlagStale(w, p, m1);
    RunsAdd(w, p, m, 1, m1, n2);
    n, m2 := Onwards(w, p, m, 1 + n2, m2);
    LinkedIsKept(m.k, m, m2);
    m' := DecideHandler(w, p, t, h, m2);
    GoesRuns(w, p, m2, 1, m');
    RunsAdd(w, p, m, n, m2, 1);
    n := n + 1;
  }
}
