/** The expansion of cexcept.h means what its prose says: running the macros on the
    setjmp machine gives the structured meaning, keeps the handler chain, and never
    meets a longjmp through a dead or wrong jmp_buf. */
module CexceptCorrectness {
  import opened Options
  import opened StructuredExceptions
  import opened SetjmpMachine

  // ----- the handler chain

  /** The Try whose clause is being executed, read off the control stack alone. */
  function InnermostTry(k: Kont): Pointer {
    match k
    case Halt => Null
    case DoK(_, _, r) => if BlockInScope(r).Some? then Env(BlockInScope(r).value) else Null
    case ThenK(_, r) => InnermostTry(r)
    case LoopK(_, _, r) => InnermostTry(r)
    case ForK(_, _, r) => InnermostTry(r)
    case BlockK(_, r) => InnermostTry(r)
    case CallK(_, _, r) => InnermostTry(r)
  }

  /** The control stack just outside that clause, where its landing place runs. */
  function Landing(k: Kont): Kont {
    match k
    case Halt => Halt
    case DoK(_, _, r) => r
    case ThenK(_, r) => Landing(r)
    case LoopK(_, _, r) => Landing(r)
    case ForK(_, _, r) => Landing(r)
    case BlockK(_, r) => Landing(r)
    case CallK(_, _, r) => Landing(r)
  }

  /** Every clause on the stack belongs to a Try whose jmp_buf lands just outside the
      clause and whose `exception__prev` is the next Try out. */
  ghost predicate Linked(k: Kont, blocks: map<nat, TryLocals>, next: nat) {
    match k
    case Halt => true
    case DoK(_, _, r) =>
      && r.ThenK? && r.k.BlockK?
      && r.k.id < next && r.k.id in blocks
      && var b := blocks[r.k.id];
      && b.prev == InnermostTry(r.k.k) && !b.prevWritten
      && b.env.Filled? && b.env.again == Do(SetCaught(1)) && b.env.k == r
      && Linked(r.k.k, blocks, next)
    case ThenK(_, r) => Linked(r, blocks, next)
    case LoopK(_, _, r) => Linked(r, blocks, next)
    case ForK(_, _, r) => Linked(r, blocks, next)
    case BlockK(id, r) => id < next && Linked(r, blocks, next)
    case CallK(_, _, r) => Linked(r, blocks, next)
  }

  ghost predicate Chain(m: Machine) {
    m.penv == InnermostTry(m.k) && Linked(m.k, m.blocks, m.next)
  }

  /** Control is at application code, not between the pieces of a Try. */
  predicate AtApplication(c: CStmt) {
    c.LongJmp? || c.IfElse? || c.Loop? || c.Invoke? || c.Forever? || c.Block? || c.JumpOut?
    || (c.Do? && (c.ce.AssignTo? || c.ce.SetEtmp?))
  }

  /** A longjmp about to happen goes to the innermost active Try, whose block is
      still live and whose setjmp has been called; with no active Try, penv is null. */
  ghost predicate JumpsToInnermost(m: Machine) {
    && m.penv == InnermostTry(m.k)
    && (m.penv.Env? ==>
        && Unwind(m.k, m.store, m.penv.id).Some?
        && m.penv.id in m.blocks
        && m.blocks[m.penv.id].env.Filled?
        && m.blocks[m.penv.id].env.again == Do(SetCaught(1))
        && m.blocks[m.penv.id].env.k == Landing(m.k))
  }

  ghost predicate Sound(m: Machine) {
    && m.status != Undefined
    && (m.status.Running? && AtApplication(m.ctrl) ==> m.penv == InnermostTry(m.k))
    && (m.status.Running? && m.ctrl.LongJmp? ==> JumpsToInnermost(m))
  }

  lemma {:induction false} LinkedIsKept(k: Kont, m: Machine, m': Machine)
    requires Linked(k, m.blocks, m.next) && Keeps(m, m')
    ensures Linked(k, m'.blocks, m'.next)
  {
    match k
    case Halt =>
    case DoK(_, _, r) => LinkedIsKept(r.k.k, m, m');
    case ThenK(_, r) => LinkedIsKept(r, m, m');
    case LoopK(_, _, r) => LinkedIsKept(r, m, m');
    case ForK(_, _, r) => LinkedIsKept(r, m, m');
    case BlockK(_, r) => LinkedIsKept(r, m, m');
    case CallK(_, _, r) => LinkedIsKept(r, m, m');
  }

  lemma {:induction false} LinkedIsLive(k: Kont, blocks: map<nat, TryLocals>, next: nat, s: Store)
    requires Linked(k, blocks, next)
    ensures InnermostTry(k).Env? ==>
      var id := InnermostTry(k).id;
      && Unwind(k, s, id).Some? && id in blocks && blocks[id].env.Filled?
      && blocks[id].env.again == Do(SetCaught(1)) && blocks[id].env.k == Landing(k)
  {
    match k
    case Halt =>
    case DoK(_, _, r) =>
      assert Unwind(k, s, r.k.id) == Unwind(r, s, r.k.id) == Unwind(r.k, s, r.k.id) == Some(s);
      assert BlockInScope(r) == BlockInScope(r.k) == Some(r.k.id);
    case ThenK(_, r) => LinkedIsLive(r, blocks, next, s);
    case LoopK(_, _, r) => LinkedIsLive(r, blocks, next, s);
    case ForK(_, _, r) => LinkedIsLive(r, blocks, next, s);
    case BlockK(_, r) => LinkedIsLive(r, blocks, next, s);
    case CallK(l, wr, r) => LinkedIsLive(r, blocks, next, s.(locals := l, written := wr));
  }

  lemma {:induction false} ChainIsSound(m: Machine)
    requires Chain(m) && m.status != Undefined
    ensures Sound(m)
  {
    LinkedIsLive(m.k, m.blocks, m.next, m.store);
  }

  // ----- what running an expanded statement achieves

  /** Nothing that was there before has changed: penv, and the locals of every Try
      that had been entered. */
  ghost predicate Keeps(m: Machine, m': Machine) {
    && m'.penv == m.penv
    && m.next <= m'.next
    && forall i: nat | i < m.next && i in m.blocks :: i in m'.blocks && m'.blocks[i] == m.blocks[i]
  }

  ghost predicate Arrived(m: Machine, m': Machine, ctrl: CStmt, s: Store) {
    m'.status.Running? && m'.ctrl == ctrl && m'.k == m.k && m'.store == s && Keeps(m, m')
  }

  /** The machine is about to longjmp with `v` in etmp, and from every block entered
      before, the store looks as if the stack were still `m.k` and the store `s`. */
  ghost predicate Raised(m: Machine, m': Machine, v: int, s: Store) {
    && m'.status.Running? && m'.ctrl.LongJmp? && m'.etmp == v && Keeps(m, m')
    && m'.store.statics == s.statics && m'.store.catches == s.catches
    && forall id: nat | id < m.next :: Unwind(m'.k, m'.store, id) == Unwind(m.k, s, id)
  }

  ghost predicate Reaches(m: Machine, o: Outcome, fuel: nat, n: nat, m': Machine) {
    match o
    case Timeout => fuel <= n && m'.status.Running?
    case Forbidden => true
    case Normal(s) => Arrived(m, m', Empty, s)
    case Jumped(j, s) => Arrived(m, m', JumpOut(j), s)
    case Thrown(v, s) => Raised(m, m', v, s)
  }

  ghost predicate Sound'(t: seq<Machine>, i: nat)
    requires i < |t|
  {
    Sound(t[i])
  }

  ghost predicate Steps(w: Platform, p: Program, t: seq<Machine>, i: nat)
    requires i + 1 < |t|
  {
    t[i + 1] == Step(w, p, t[i])
  }

  ghost predicate IsTrace(w: Platform, p: Program, t: seq<Machine>, m: Machine, n: nat, m': Machine) {
    && |t| == n + 1 && t[0] == m && t[n] == m'
    && (forall i: nat | i <= n :: Sound'(t, i))
    && (forall i: nat | i < n :: Steps(w, p, t, i))
  }

  /** A run of n steps from m to m' whose states are all sound. */
  ghost predicate Goes(w: Platform, p: Program, m: Machine, n: nat, m': Machine) {
    exists t :: IsTrace(w, p, t, m, n, m')
  }

  lemma {:induction false} Stay(w: Platform, p: Program, m: Machine)
    requires Sound(m)
    ensures Goes(w, p, m, 0, m)
  {
    assert IsTrace(w, p, [m], m, 0, m);
  }

  lemma {:induction false} Join(w: Platform, p: Program, m: Machine, a: nat, m': Machine, b: nat, m'': Machine)
    requires Goes(w, p, m, a, m') && Goes(w, p, m', b, m'')
    ensures Goes(w, p, m, a + b, m'')
  {
    var t :| IsTrace(w, p, t, m, a, m');
    var u :| IsTrace(w, p, u, m', b, m'');
    var v := t + u[1..];
    forall i: nat | i <= a + b ensures Sound'(v, i) {
      if i <= a { assert Sound'(t, i); } else { assert Sound'(u, i - a); }
    }
    forall i: nat | i < a + b ensures Steps(w, p, v, i) {
      if i < a { assert Steps(w, p, t, i); } else { assert Steps(w, p, u, i - a); }
    }
    assert IsTrace(w, p, v, m, a + b, m'');
  }

  lemma {:induction false} Advance(w: Platform, p: Program, m: Machine, n: nat, m': Machine)
    requires Goes(w, p, m, n, m') && Sound(Step(w, p, m'))
    ensures Goes(w, p, m, n + 1, Step(w, p, m'))
  {
    var t :| IsTrace(w, p, t, m, n, m');
    var m'' := Step(w, p, m');
    assert Sound'(t, n);
    assert IsTrace(w, p, [m', m''], m', 1, m'');
    Join(w, p, m, n, m', 1, m'');
  }

  lemma {:induction false} EndIsSound(w: Platform, p: Program, m: Machine, n: nat, m': Machine)
    requires Goes(w, p, m, n, m')
    ensures Sound(m')
  {
    var t :| IsTrace(w, p, t, m, n, m');
    assert Sound'(t, n);
  }

  /** A step that leaves the handler chain in order. */
  lemma {:induction false} ChainedStep(w: Platform, p: Program, m: Machine, n: nat, m': Machine)
    requires Goes(w, p, m, n, m') && Chain(Step(w, p, m')) && Step(w, p, m').status != Undefined
    ensures Goes(w, p, m, n + 1, Step(w, p, m'))
  {
    ChainIsSound(Step(w, p, m'));
    Advance(w, p, m, n, m');
  }

  /** A step between the pieces of a Try. */
  lemma {:induction false} InnerStep(w: Platform, p: Program, m: Machine, n: nat, m': Machine)
    requires Goes(w, p, m, n, m')
    requires Step(w, p, m').status != Undefined && !AtApplication(Step(w, p, m').ctrl)
    ensures Goes(w, p, m, n + 1, Step(w, p, m'))
  {
    Advance(w, p, m, n, m');
  }

  /** m starts an expanded statement with its handler chain in order. */
  ghost predicate Begins(c: Stmt, m: Machine) {
    m.status.Running? && m.ctrl == Expand(c) && Chain(m)
  }

  // ----- the simulation, one construct at a time

  /** The first half of a sequence, up to the start of the second. */
  lemma {:induction false} SimulateFirst(w: Platform, p: Program, fuel: nat, c: Stmt, m: Machine)
    returns (n: nat, m': Machine)
    requires c.Seq? && Begins(c, m)
    ensures Goes(w, p, m, n, m')
    ensures match Eval(w.lost, p, fuel, c.first, m.store)
      case Normal(s) => Arrived(m, m', Expand(c.second), s) && Chain(m')
      case o => Reaches(m, o, fuel, n, m')
    decreases fuel, c, 0
  {
    ChainIsSound(m);
    Stay(w, p, m);
    var m1 := Step(w, p, m);
    assert m1 == m.(ctrl := Expand(c.first), k := ThenK(Expand(c.second), m.k));
    ChainedStep(w, p, m, 0, m);
    var n1, m2 := Simulate(w, p, fuel, c.first, m1);
    Join(w, p, m, 1, m1, n1, m2);
    n, m' := 1 + n1, m2;
    var o := Eval(w.lost, p, fuel, c.first, m.store);
    if o.Normal? || o.Jumped? {
      LinkedIsKept(m.k, m, m');
      ChainedStep(w, p, m, n, m');
      n, m' := n + 1, Step(w, p, m');
    }
  }

  lemma {:induction false} SimulateSeq(w: Platform, p: Program, fuel: nat, c: Stmt, m: Machine)
    returns (n: nat, m': Machine)
    requires c.Seq? && Begins(c, m)
    ensures Goes(w, p, m, n, m') && Reaches(m, Eval(w.lost, p, fuel, c, m.store), fuel, n, m')
    decreases fuel, c, 1
  {
    n, m' := SimulateFirst(w, p, fuel, c, m);
    if Eval(w.lost, p, fuel, c.first, m.store).Normal? {
      var n2, m3 := Simulate(w, p, fuel, c.second, m');
      Join(w, p, m, n, m', n2, m3);
      n, m' := n + n2, m3;
    }
  }

  lemma {:induction false} SimulateIf(w: Platform, p: Program, fuel: nat, c: Stmt, m: Machine)
    returns (n: nat, m': Machine)
    requires c.If? && Begins(c, m)
    ensures Goes(w, p, m, n, m') && Reaches(m, Eval(w.lost, p, fuel, c, m.store), fuel, n, m')
    decreases fuel, c, 1
  {
    var taken := if Value(c.cond, m.store) != 0 then c.thn else c.els;
    var m1 := Step(w, p, m);
    assert m1 == m.(ctrl := Expand(taken));
    ChainIsSound(m);
    Stay(w, p, m);
    ChainedStep(w, p, m, 0, m);
    n, m' := Simulate(w, p, fuel, taken, m1);
    Join(w, p, m, 1, m1, n, m');
    n := 1 + n;
  }

  /** One turn of a loop whose condition holds, up to testing it again. */
  lemma {:induction false} SimulateTurn(w: Platform, p: Program, fuel: nat, c: Stmt, m: Machine)
    returns (n: nat, m': Machine)
    requires c.While? && Begins(c, m) && Value(c.cond, m.store) != 0
    ensures Goes(w, p, m, n, m') && n > 0
    ensures match Eval(w.lost, p, fuel, c.body, m.store)
      case Normal(s) => Arrived(m, m', m.ctrl, s) && Chain(m')
      case Jumped(j, s) => if j.Return? then Arrived(m, m', JumpOut(j), s)
        else if j.Break? then Arrived(m, m', Empty, s)
        else Arrived(m, m', m.ctrl, s) && Chain(m')
      case o => Reaches(m, o, fuel, n, m')
    decreases fuel, c, 0
  {
    ChainIsSound(m);
    Stay(w, p, m);
    var m1 := Step(w, p, m);
    assert m1 == m.(ctrl := Expand(c.body), k := LoopK(Pure(c.cond), Expand(c.body), m.k));
    ChainedStep(w, p, m, 0, m);
    var n1, m2 := Simulate(w, p, fuel, c.body, m1);
    Join(w, p, m, 1, m1, n1, m2);
    n, m' := 1 + n1, m2;
    var o := Eval(w.lost, p, fuel, c.body, m.store);
    if o.Normal? || o.Jumped? {
      LinkedIsKept(m.k, m, m');
      ChainedStep(w, p, m, n, m');
      n, m' := n + 1, Step(w, p, m');
    }
  }

  lemma {:induction false} SimulateWhile(w: Platform, p: Program, fuel: nat, c: Stmt, m: Machine)
    returns (n: nat, m': Machine)
    requires c.While? && Begins(c, m)
    ensures Goes(w, p, m, n, m') && Reaches(m, Eval(w.lost, p, fuel, c, m.store), fuel, n, m')
    decreases fuel, c, 1
  {
    ChainIsSound(m);
    Stay(w, p, m);
    n, m' := 0, m;
    if Value(c.cond, m.store) == 0 {
      ChainedStep(w, p, m, 0, m);
      n, m' := 1, Step(w, p, m);
    } else if fuel > 0 {
      n, m' := SimulateTurn(w, p, fuel, c, m);
      var o := Eval(w.lost, p, fuel, c.body, m.store);
      if o.Normal? || (o.Jumped? && o.j.Continue?) {
        var n2, m3 := Simulate(w, p, fuel - 1, c, m');
        Join(w, p, m, n, m', n2, m3);
        n, m' := n + n2, m3;
      }
    }
  }

  lemma {:induction false} SimulateCall(w: Platform, p: Program, fuel: nat, c: Stmt, m: Machine)
    returns (n: nat, m': Machine)
    requires c.Call? && Begins(c, m)
    ensures Goes(w, p, m, n, m') && Reaches(m, Eval(w.lost, p, fuel, c, m.store), fuel, n, m')
    decreases fuel, c, 1
  {
    ChainIsSound(m);
    Stay(w, p, m);
    n, m' := 0, m;
    if fuel > 0 {
      var m1 := Step(w, p, m);
      var body := Body(p, c.proc);
      assert m1 == m.(ctrl := Expand(body), k := CallK(m.store.locals, m.store.written, m.k),
                      store := m.store.Enter(Value(c.arg, m.store)));
      ChainedStep(w, p, m, 0, m);
      var n1, m2 := Simulate(w, p, fuel - 1, body, m1);
      Join(w, p, m, 1, m1, n1, m2);
      n, m' := 1 + n1, m2;
      var o := Eval(w.lost, p, fuel - 1, body, m1.store);
      if o.Normal? || (o.Jumped? && o.j.Return?) {
        LinkedIsKept(m.k, m, m');
        ChainedStep(w, p, m, n, m');
        n, m' := n + 1, Step(w, p, m');
      }
    }
  }

  lemma {:induction false} SimulateThrow(w: Platform, p: Program, c: Stmt, m: Machine) returns (n: nat, m': Machine)
    requires c.Throw? && m.status.Running? && m.ctrl == Expand(c) && Chain(m)
    ensures Goes(w, p, m, n, m') && Raised(m, m', Value(c.e, m.store), m.store)
  {
    ChainIsSound(m);
    Stay(w, p, m);
    ChainedStep(w, p, m, 0, m);
    var m1 := Step(w, p, m);
    assert m1 == m.(ctrl := Do(SetEtmp(c.e)), k := ForK(Do(SetEtmp(c.e)), LongJmp, m.k));
    ChainedStep(w, p, m, 1, m1);
    var m2 := Step(w, p, m1);
    assert m2 == m1.(ctrl := Empty, etmp := Value(c.e, m.store));
    ChainedStep(w, p, m, 2, m2);
    n, m' := 3, Step(w, p, m2);
  }

  /** The opening of a Try: the old penv is saved in the new block. */
  lemma {:induction false} EnterBlock(w: Platform, p: Program, rest: CStmt, m: Machine) returns (m': Machine)
    requires m.status.Running? && Sound(m) && !AtApplication(rest)
    requires m.ctrl == Block(Then(Do(SavePrev), rest))
    ensures Goes(w, p, m, 4, m')
    ensures m' == m.(ctrl := rest, k := BlockK(m.next, m.k), next := m.next + 1,
                     blocks := m.blocks[m.next := TryLocals(m.penv, true, Unset)])
  {
    var m1 := Step(w, p, m);
    assert m1.ctrl == Then(Do(SavePrev), rest) && m1.k == BlockK(m.next, m.k);
    var m2 := Step(w, p, m1);
    assert m2.ctrl == Do(SavePrev) && m2.k == ThenK(rest, m1.k);
    assert BlockInScope(m2.k) == BlockInScope(m1.k) == Some(m.next);
    var m3 := Step(w, p, m2);
    assert m3.ctrl == Empty && m3.k == m2.k;
    m' := Step(w, p, m3);
    Stay(w, p, m);
    InnerStep(w, p, m, 0, m);
    InnerStep(w, p, m, 1, m1);
    InnerStep(w, p, m, 2, m2);
    InnerStep(w, p, m, 3, m3);
  }

  /** penv is pointed at the jmp_buf of the block in scope. */
  lemma {:induction false} Arm(w: Platform, p: Program, rest: CStmt, m: Machine) returns (m': Machine)
    requires m.status.Running? && m.k.BlockK? && !AtApplication(rest)
    requires m.ctrl == Then(Do(ArmEnv), rest)
    ensures Goes(w, p, m, 3, m')
    ensures m' == m.(ctrl := rest, penv := Env(m.k.id))
  {
    var m1 := Step(w, p, m);
    assert BlockInScope(m1.k) == BlockInScope(m.k) == Some(m.k.id);
    var m2 := Step(w, p, m1);
    m' := Step(w, p, m2);
    Stay(w, p, m);
    InnerStep(w, p, m, 0, m);
    InnerStep(w, p, m, 1, m1);
    InnerStep(w, p, m, 2, m2);
  }

  /** setjmp returns for the first time, and the clause begins. */
  lemma {:induction false} EnterGuarded(w: Platform, p: Program, clause: Stmt, m: Machine) returns (m': Machine)
    requires m.status.Running? && m.k.BlockK? && m.k.id < m.next && m.k.id in m.blocks
    requires m.ctrl == Then(Guarded(Expand(clause)), Do(RestorePrev))
    requires m.penv == Env(m.k.id) && m.blocks[m.k.id].prev == InnermostTry(m.k.k)
    requires Linked(m.k.k, m.blocks[m.k.id := TryLocals(m.blocks[m.k.id].prev, false,
      Filled(Do(SetCaught(1)), ThenK(Do(RestorePrev), m.k), |m.store.written|))], m.next)
    ensures Goes(w, p, m, 3, m') && Chain(m')
    ensures m' == m.(ctrl := Expand(clause),
      k := DoK(Expand(clause), END_OF_CLAUSE, ThenK(Do(RestorePrev), m.k)),
      blocks := m.blocks[m.k.id := TryLocals(m.blocks[m.k.id].prev, false,
        Filled(Do(SetCaught(1)), ThenK(Do(RestorePrev), m.k), |m.store.written|))])
  {
    Stay(w, p, m);
    InnerStep(w, p, m, 0, m);
    var m1 := Step(w, p, m);
    assert BlockInScope(m1.k) == BlockInScope(m.k) == Some(m.k.id);
    InnerStep(w, p, m, 1, m1);
    var m2 := Step(w, p, m1);
    m' := Step(w, p, m2);
    assert InnermostTry(m'.k) == Env(m.k.id);
    ChainedStep(w, p, m, 2, m2);
  }

  /** From just outside the clause to the closing brace: penv is what it was. */
  lemma {:induction false} LeaveBlock(w: Platform, p: Program, m: Machine, k: Kont) returns (m': Machine)
    requires m.status.Running? && m.ctrl == Empty
    requires m.k.ThenK? && m.k.c == Do(RestorePrev) && m.k.k.BlockK? && m.k.k.id in m.blocks && m.k.k.k == k
    ensures Goes(w, p, m, 3, m')
    ensures m' == m.(k := k, penv := m.blocks[m.k.k.id].prev)
  {
    Stay(w, p, m);
    InnerStep(w, p, m, 0, m);
    var m1 := Step(w, p, m);
    InnerStep(w, p, m, 1, m1);
    var m2 := Step(w, p, m1);
    InnerStep(w, p, m, 2, m2);
    m' := Step(w, p, m2);
  }

  /** The stack and the locals of a Try whose clause is running. */
  ghost predicate InClause(m: Machine, m1: Machine, clause: CStmt) {
    var landing := ThenK(Do(RestorePrev), BlockK(m.next, m.k));
    && m1.status.Running? && m1.store == m.store && m1.penv == Env(m.next)
    && m1.next == m.next + 1 && m1.caught == m.caught && m1.etmp == m.etmp
    && m1.ctrl == clause && m1.k == DoK(clause, END_OF_CLAUSE, landing)
    && m1.blocks == m.blocks[m.next := TryLocals(m.penv, false, Filled(Do(SetCaught(1)), landing, |m.store.written|))]
  }

  lemma {:induction false} EnterClause(w: Platform, p: Program, clause: Stmt, m: Machine) returns (m1: Machine)
    requires m.status.Running? && Chain(m)
    requires m.ctrl == Block(Then(Do(SavePrev), Then(Do(ArmEnv), Then(Guarded(Expand(clause)), Do(RestorePrev)))))
    ensures Goes(w, p, m, 10, m1) && InClause(m, m1, Expand(clause)) && Chain(m1)
  {
    ChainIsSound(m);
    var rest := Then(Guarded(Expand(clause)), Do(RestorePrev));
    var m' := EnterBlock(w, p, Then(Do(ArmEnv), rest), m);
    var m0 := Arm(w, p, rest, m');
    Join(w, p, m, 4, m', 3, m0);
    var filled := Filled(Do(SetCaught(1)), ThenK(Do(RestorePrev), m0.k), |m.store.written|);
    var after := m.(next := m0.next, blocks := m0.blocks[m.next := TryLocals(m.penv, false, filled)]);
    LinkedIsKept(m.k, m, after);
    m1 := EnterGuarded(w, p, clause, m0);
    Join(w, p, m, 7, m0, 3, m1);
  }

  /** The clause has completed: `caught` becomes 0. */
  lemma {:induction false} LeaveNormally(w: Platform, p: Program, clause: CStmt, m: Machine, m1: Machine, m2: Machine)
    returns (m': Machine)
    requires Chain(m) && InClause(m, m1, clause) && Arrived(m1, m2, Empty, m2.store)
    ensures Goes(w, p, m2, 4, m') && Arrived(m, m', Empty, m2.store) && m'.caught == 0
  {
    assert CEval(SetCaught(0), m2) == (m2.(caught := 0), 0);
    assert CEval(END_OF_CLAUSE, m2) == (m2.(caught := 0), 0);
    var m3 := Step(w, p, m2);
    assert m3 == m2.(k := m1.k.k, caught := 0);
    Stay(w, p, m2);
    InnerStep(w, p, m2, 0, m2);
    m' := LeaveBlock(w, p, m3, m.k);
    Join(w, p, m2, 1, m3, 3, m');
  }

  /** A longjmp to a live, filled jmp_buf whose Try has not touched its locals since. */
  lemma {:induction false} JumpLands(w: Platform, p: Program, m: Machine, id: nat, prev: Pointer, env: JmpBuf, s: Store)
    requires m.status.Running? && m.ctrl.LongJmp? && m.penv == Env(id)
    requires Unwind(m.k, m.store, id) == Some(s) && env.Filled?
    requires id in m.blocks && m.blocks[id] == TryLocals(prev, false, env)
    ensures Step(w, p, m) == m.(ctrl := env.again, k := env.k, store := AfterCatch(w.lost, s, env.mark),
                                penv := Step(w, p, m).penv, caught := Step(w, p, m).caught)
  {
    var n := m.store.catches;
    assert m.blocks[id := m.blocks[id]] == m.blocks;
    assert Step(w, p, m) == m.(ctrl := env.again, k := env.k, store := AfterCatch(w.lost, s, env.mark),
                               penv := w.penv(n, m.penv), caught := w.caught(n, m.caught));
  }

  /** The clause is left by a longjmp, after which automatic locals, penv and the old
      `caught` may be anything: `caught` becomes 1 and penv is still restored. */
  lemma {:induction false} LeaveByJump(w: Platform, p: Program, clause: CStmt, m: Machine, m1: Machine, m2: Machine,
        s: Store)
    returns (m': Machine)
    requires Chain(m) && InClause(m, m1, clause) && Raised(m1, m2, m2.etmp, s) && Sound(m2)
    ensures Goes(w, p, m2, 5, m')
    ensures Arrived(m, m', Empty, AfterCatch(w.lost, s, |m.store.written|)) && m'.caught == 1 && m'.etmp == m2.etmp
  {
    assert m1.k.k.k == BlockK(m.next, m.k);
    assert Unwind(m1.k, s, m.next) == Unwind(m1.k.k, s, m.next) == Unwind(m1.k.k.k, s, m.next) == Some(s);
    JumpLands(w, p, m2, m.next, m.penv, m1.blocks[m.next].env, s);
    var m3 := Step(w, p, m2);
    var m4 := Step(w, p, m3);
    assert m4 == m3.(ctrl := Empty, caught := 1);
    Stay(w, p, m2);
    InnerStep(w, p, m2, 0, m2);
    InnerStep(w, p, m2, 1, m3);
    m' := LeaveBlock(w, p, m4, m.k);
    Join(w, p, m2, 2, m4, 3, m');
  }

  /** A jump has left the clause itself, but not yet the `do` around it: penv still
      points to the jmp_buf of this Try. */
  ghost predicate StillInside(m: Machine, m': Machine, clause: CStmt, j: Jump, s: Store) {
    && m'.status.Running? && m'.ctrl == JumpOut(j) && m'.store == s
    && m'.k == DoK(clause, END_OF_CLAUSE, ThenK(Do(RestorePrev), BlockK(m.next, m.k)))
    && m'.penv == Env(m.next) && Keeps(m, m'.(penv := m.penv))
    && m.next < m'.next && m.next in m'.blocks && m'.blocks[m.next].prev == m.penv
  }

  /** A whole Try block, up to the `if` that decides about the handler: `caught` is
      then 1 exactly when the clause was left by an exception, etmp holds that
      exception, and penv is restored either way. */
  lemma {:induction false} SimulateClause(w: Platform, p: Program, fuel: nat, clause: Stmt, m: Machine)
    returns (n: nat, m': Machine)
    requires m.status.Running? && Chain(m)
    requires m.ctrl == Block(Then(Do(SavePrev), Then(Do(ArmEnv), Then(Guarded(Expand(clause)), Do(RestorePrev)))))
    ensures Goes(w, p, m, n, m')
    ensures match Eval(w.lost, p, fuel, clause, m.store)
      case Timeout => fuel <= n && m'.status.Running?
      case Normal(s) => Arrived(m, m', Empty, s) && m'.caught == 0
      case Thrown(v, s) =>
        Arrived(m, m', Empty, AfterCatch(w.lost, s, |m.store.written|)) && m'.caught == 1 && m'.etmp == v
      case Jumped(j, s) => StillInside(m, m', Expand(clause), j, s)
      case Forbidden => true
    decreases fuel, clause, 3
  {
    var m1 := EnterClause(w, p, clause, m);
    var n1, m2 := Simulate(w, p, fuel, clause, m1);
    Join(w, p, m, 10, m1, n1, m2);
    n, m' := 10 + n1, m2;
    var o := Eval(w.lost, p, fuel, clause, m.store);
    if o.Normal? {
      m' := LeaveNormally(w, p, Expand(clause), m, m1, m2);
      Join(w, p, m, n, m2, 4, m');
      n := n + 4;
    } else if o.Thrown? {
      EndIsSound(w, p, m1, n1, m2);
      m' := LeaveByJump(w, p, Expand(clause), m, m1, m2, o.s);
      Join(w, p, m, n, m2, 5, m');
      n := n + 5;
    }
  }

  /** `if (!caught || action) { } else handler`: the action runs exactly when an
      exception was caught, and assigns etmp once. */
  lemma {:induction false} DecideHandler(w: Platform, p: Program, t: Option<Target>, handler: Stmt, m: Machine)
    returns (m': Machine)
    requires m.status.Running? && Chain(m) && (m.caught == 0 || m.caught == 1)
    requires m.ctrl == IfElse(Or(Not(Caught), CatchAction(t)), Empty, Expand(handler))
    ensures Goes(w, p, m, 1, m') && Chain(m')
    ensures m' == if m.caught == 0 then m.(ctrl := Empty)
                  else m.(ctrl := Expand(handler), store := BindIfNamed(t, m.etmp, m.store))
  {
    ChainIsSound(m);
    Stay(w, p, m);
    m' := Step(w, p, m);
    assert CEval(Not(Caught), m) == (m, if m.caught == 0 then 1 else 0);
    if m.caught == 1 {
      if t.Some? { assert CEval(CopyEtmpTo(t.value), m).0 == m.(store := BindIfNamed(t, m.etmp, m.store)); }
      assert CEval(CatchAction(t), m) == (m.(store := BindIfNamed(t, m.etmp, m.store)), 0);
    }
    ChainedStep(w, p, m, 0, m);
  }

  /** A Try up to where either nothing is left to do or the handler starts. */
  lemma {:induction false} SimulateDecision(w: Platform, p: Program, fuel: nat, c: Stmt, m: Machine)
    returns (n: nat, m': Machine)
    requires c.TryCatch? && Begins(c, m)
    ensures Goes(w, p, m, n, m')
    ensures match Eval(w.lost, p, fuel, c.clause, m.store)
      case Timeout => fuel <= n && m'.status.Running?
      case Normal(s) => Arrived(m, m', Empty, s)
      case Thrown(v, s) =>
        && Arrived(m, m', Expand(c.handler), BindIfNamed(c.target, v, AfterCatch(w.lost, s, |m.store.written|)))
        && Chain(m')
      case _ => true
    decreases fuel, c, 0
  {
    ChainIsSound(m);
    Stay(w, p, m);
    var decide := IfElse(Or(Not(Caught), CatchAction(c.target)), Empty, Expand(c.handler));
    var m1 := Step(w, p, m);
    assert m1 == m.(ctrl := m.ctrl.first, k := ThenK(decide, m.k));
    ChainedStep(w, p, m, 0, m);
    var n1, m2 := SimulateClause(w, p, fuel, c.clause, m1);
    Join(w, p, m, 1, m1, n1, m2);
    n, m' := 1 + n1, m2;
    var o := Eval(w.lost, p, fuel, c.clause, m.store);
    if o.Normal? || o.Thrown? {
      LinkedIsKept(m.k, m, m');
      ChainedStep(w, p, m, n, m');
      n, m' := n + 1, Step(w, p, m');
      assert m' == m2.(ctrl := decide, k := m.k);
      var m3 := DecideHandler(w, p, c.target, c.handler, m');
      Join(w, p, m, n, m', 1, m3);
      n, m' := n + 1, m3;
    }
  }

  lemma {:induction false} SimulateTry(w: Platform, p: Program, fuel: nat, c: Stmt, m: Machine)
    returns (n: nat, m': Machine)
    requires c.TryCatch? && Begins(c, m)
    ensures Goes(w, p, m, n, m') && Reaches(m, Eval(w.lost, p, fuel, c, m.store), fuel, n, m')
    decreases fuel, c, 1
  {
    n, m' := SimulateDecision(w, p, fuel, c, m);
    if Eval(w.lost, p, fuel, c.clause, m.store).Thrown? {
      var n2, m3 := Simulate(w, p, fuel, c.handler, m');
      Join(w, p, m, n, m', n2, m3);
      n, m' := n + n2, m3;
    }
  }

  /** Running the expansion of any statement, nested and calling as deeply as it likes,
      ends as its structured meaning says; the header gives forbidden jumps no meaning. */
  lemma {:induction false} Simulate(w: Platform, p: Program, fuel: nat, c: Stmt, m: Machine)
    returns (n: nat, m': Machine)
    requires Begins(c, m)
    ensures Goes(w, p, m, n, m') && Reaches(m, Eval(w.lost, p, fuel, c, m.store), fuel, n, m')
    decreases fuel, c, 2
  {
    match c
    case Seq(_, _) => n, m' := SimulateSeq(w, p, fuel, c, m);
    case If(_, _, _) => n, m' := SimulateIf(w, p, fuel, c, m);
    case While(_, _) => n, m' := SimulateWhile(w, p, fuel, c, m);
    case Call(_, _) => n, m' := SimulateCall(w, p, fuel, c, m);
    case Throw(_) => n, m' := SimulateThrow(w, p, c, m);
    case TryCatch(_, _, _) => n, m' := SimulateTry(w, p, fuel, c, m);
    case Assign(_, _) =>
      ChainIsSound(m);
      Stay(w, p, m);
      ChainedStep(w, p, m, 0, m);
      n, m' := 1, Step(w, p, m);
    case _ =>
      ChainIsSound(m);
      Stay(w, p, m);
      n, m' := 0, m;
  }
}
