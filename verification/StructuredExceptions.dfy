/** The exceptions that cexcept.h promises, as its prose describes them: a small
    statement language with Try/Catch, Catch_anonymous and Throw, and a direct
    big-step meaning that knows nothing about setjmp, longjmp or the context. */
module StructuredExceptions {
  import opened Options

  /** Where a value lives decides whether it survives a caught exception.
      `Static` and `Element` have static storage; `Volatile` and `Automatic` belong
      to one activation of a function, and only `Automatic` ones can be lost. */
  datatype Variable =
    | Static(name: string)
    | Element(base: string, index: int)
    | Volatile(name: string)
    | Automatic(name: string)
  {
    predicate IsLocal() { Volatile? || Automatic? }
  }

  /** The expression of a `Catch`: a variable, or `base[++counter]`, whose
      evaluation has a side effect. */
  datatype Target = Named(v: Variable) | NextElement(base: string, counter: Variable)

  datatype Expr = Lit(n: int) | Read(v: Variable) | Plus(a: Expr, b: Expr) | Less(a: Expr, b: Expr)

  datatype Jump = Break | Continue | Return

  datatype Stmt =
    | Skip
    | Assign(v: Variable, e: Expr)
    | Seq(first: Stmt, second: Stmt)
    | If(cond: Expr, thn: Stmt, els: Stmt)
    | While(cond: Expr, body: Stmt)
    | Call(proc: string, arg: Expr)
    | Throw(e: Expr)
    | TryCatch(clause: Stmt, target: Option<Target>, handler: Stmt)  // None is Catch_anonymous
    | Leave(j: Jump)

  type Program = map<string, Stmt>

  /** `written` lists, in order, the locals the current activation has assigned to;
      `catches` counts the exceptions caught so far in the whole run. */
  datatype Store = Store(statics: map<Variable, int>, locals: map<Variable, int>,
                         written: seq<Variable>, catches: nat)
  {
    function Get(v: Variable): int {
      if v.IsLocal() then (if v in locals then locals[v] else 0)
      else if v in statics then statics[v] else 0
    }

    function Set(v: Variable, n: int): Store {
      if v.IsLocal() then this.(locals := locals[v := n], written := written + [v])
      else this.(statics := statics[v := n])
    }

    /** The store of a callee that has just been entered with one argument. */
    function Enter(arg: int): Store {
      Store(statics, map[PARAMETER := arg], [], catches)
    }

    /** The caller's store (this) once the callee, which ended in `inner`, is gone. */
    function Resume(inner: Store): Store {
      Store(inner.statics, locals, written, inner.catches)
    }
  }

  const PARAMETER := Automatic("arg")

  /** What an automatic variable holds after it was changed in a Try clause that an
      exception left: any function of how many exceptions were caught before, the
      variable, and the value it held. */
  type Lost = (nat, Variable, int) -> int

  /** How a statement ends. `Jumped` is on its way to the loop or function it leaves;
      `Forbidden` is a jump out of a Try clause, to which the header gives no meaning,
      or a Break or Continue without a loop. */
  datatype Outcome =
    | Timeout
    | Forbidden
    | Normal(s: Store)
    | Jumped(j: Jump, s: Store)
    | Thrown(value: int, s: Store)

  function Value(e: Expr, s: Store): int {
    match e
    case Lit(n) => n
    case Read(v) => s.Get(v)
    case Plus(a, b) => Value(a, s) + Value(b, s)
    case Less(a, b) => if Value(a, s) < Value(b, s) then 1 else 0
  }

  function Since(written: seq<Variable>, mark: nat): seq<Variable> {
    if mark <= |written| then written[mark..] else []
  }

  /** The store in which a handler starts: automatic variables assigned since `mark`
      have lost their values, everything else is as the Throw left it. */
  function AfterCatch(lost: Lost, s: Store, mark: nat): Store {
    s.(locals := map v | v in s.locals ::
         if v.Automatic? && v in Since(s.written, mark) then lost(s.catches, v, s.locals[v]) else s.locals[v],
       catches := s.catches + 1)
  }

  /** Evaluates the expression of a Catch, once, and assigns the exception to it. */
  function Bind(t: Target, n: int, s: Store): (r: Store)
    ensures t.Named? ==> r.Get(t.v) == n
    ensures t.NextElement? ==> r.Get(Element(t.base, s.Get(t.counter) + 1)) == n
    ensures t.NextElement? && t.counter != Element(t.base, s.Get(t.counter) + 1) ==>
      r.Get(t.counter) == s.Get(t.counter) + 1
  {
    match t
    case Named(v) => s.Set(v, n)
    case NextElement(base, counter) =>
      var s1 := s.Set(counter, s.Get(counter) + 1);
      s1.Set(Element(base, s1.Get(counter)), n)
  }

  function BindIfNamed(t: Option<Target>, n: int, s: Store): Store {
    if t.Some? then Bind(t.value, n, s) else s
  }

  function Body(p: Program, f: string): Stmt {
    if f in p then p[f] else Skip
  }

  /** The structured meaning. `fuel` bounds loop iterations and call depth only;
      running out of it is `Timeout` and nothing else is. */
  function Eval(lost: Lost, p: Program, fuel: nat, c: Stmt, s: Store): Outcome
    decreases fuel, c
  {
    match c
    case Skip => Normal(s)
    case Assign(v, e) => Normal(s.Set(v, Value(e, s)))
    case Seq(a, b) =>
      var r := Eval(lost, p, fuel, a, s);
      if r.Normal? then Eval(lost, p, fuel, b, r.s) else r
    case If(e, a, b) =>
      if Value(e, s) != 0 then Eval(lost, p, fuel, a, s) else Eval(lost, p, fuel, b, s)
    case While(e, b) =>
      if Value(e, s) == 0 then Normal(s)
      else if fuel == 0 then Timeout
      else
        var r := Eval(lost, p, fuel, b, s);
        if r.Normal? || (r.Jumped? && r.j.Continue?) then Eval(lost, p, fuel - 1, c, r.s)
        else if r.Jumped? && r.j.Break? then Normal(r.s)
        else r
    case Call(f, e) =>
      if fuel == 0 then Timeout
      else
        (match Eval(lost, p, fuel - 1, Body(p, f), s.Enter(Value(e, s)))
         case Timeout => Timeout
         case Forbidden => Forbidden
         case Thrown(v, s1) => Thrown(v, s.Resume(s1))
         case Normal(s1) => Normal(s.Resume(s1))
         case Jumped(j, s1) => if j.Return? then Normal(s.Resume(s1)) else Forbidden)
    case Throw(e) => Thrown(Value(e, s), s)
    case TryCatch(b, t, h) =>
      var r := Eval(lost, p, fuel, b, s);
      if r.Thrown? then
        Eval(lost, p, fuel, h, BindIfNamed(t, r.value, AfterCatch(lost, r.s, |s.written|)))
      else if r.Jumped? then Forbidden
      else r
    case Leave(j) => Jumped(j, s)
  }

  /** More fuel changes no outcome but Timeout, for any statement and store. */
  lemma {:induction false} MoreFuel(lost: Lost, p: Program, f: nat, g: nat, c: Stmt, s: Store)
    requires f <= g && !Eval(lost, p, f, c, s).Timeout?
    ensures Eval(lost, p, g, c, s) == Eval(lost, p, f, c, s)
    decreases f, c
  {
    match c
    case Seq(a, b) =>
      MoreFuel(lost, p, f, g, a, s);
      var r := Eval(lost, p, f, a, s);
      if r.Normal? { MoreFuel(lost, p, f, g, b, r.s); }
    case If(e, a, b) => MoreFuel(lost, p, f, g, if Value(e, s) != 0 then a else b, s);
    case While(e, b) =>
      if Value(e, s) != 0 {
        MoreFuel(lost, p, f, g, b, s);
        var r := Eval(lost, p, f, b, s);
        if r.Normal? || (r.Jumped? && r.j.Continue?) { MoreFuel(lost, p, f - 1, g - 1, c, r.s); }
      }
    case Call(q, e) => MoreFuel(lost, p, f - 1, g - 1, Body(p, q), s.Enter(Value(e, s)));
    case TryCatch(b, t, h) =>
      MoreFuel(lost, p, f, g, b, s);
      var r := Eval(lost, p, f, b, s);
      if r.Thrown? { MoreFuel(lost, p, f, g, h, BindIfNamed(t, r.value, AfterCatch(lost, r.s, |s.written|))); }
    case _ =>
  }

  /** The structured meaning of a statement does not depend on the fuel it is given. */
  lemma {:induction false} MeaningIsUnique(lost: Lost, p: Program, f: nat, g: nat, c: Stmt, s: Store)
    requires !Eval(lost, p, f, c, s).Timeout? && !Eval(lost, p, g, c, s).Timeout?
    ensures Eval(lost, p, f, c, s) == Eval(lost, p, g, c, s)
  {
    if f <= g { MoreFuel(lost, p, f, g, c, s); } else { MoreFuel(lost, p, g, f, c, s); }
  }

  /** The header's rule about jumps: Break and Continue need a loop around them, and no
      jump may leave a Try clause. Leaving a Catch clause is allowed, and so is a loop
      with its jumps inside a Try clause. */
  predicate WellFormed(c: Stmt, inLoop: bool, mayReturn: bool) {
    match c
    case Seq(a, b) => WellFormed(a, inLoop, mayReturn) && WellFormed(b, inLoop, mayReturn)
    case If(_, a, b) => WellFormed(a, inLoop, mayReturn) && WellFormed(b, inLoop, mayReturn)
    case While(_, b) => WellFormed(b, true, mayReturn)
    case TryCatch(b, _, h) => WellFormed(b, false, false) && WellFormed(h, inLoop, mayReturn)
    case Leave(j) => if j.Return? then mayReturn else inLoop
    case _ => true
  }

  ghost predicate WellFormedProgram(p: Program) {
    forall f :: f in p ==> WellFormed(p[f], false, true)
  }

  /** The outcomes that surroundings with or without a loop and a function allow. */
  predicate Allowed(o: Outcome, inLoop: bool, mayReturn: bool) {
    !o.Forbidden? && (o.Jumped? ==> if o.j.Return? then mayReturn else inLoop)
  }

  /** A well-formed statement makes no forbidden jump, and is never left by a jump its
      surroundings do not allow. */
  lemma {:induction false} JumpsStayInside(lost: Lost, p: Program, fuel: nat, c: Stmt, s: Store, inLoop: bool,
        mayReturn: bool)
    requires WellFormedProgram(p) && WellFormed(c, inLoop, mayReturn)
    ensures Allowed(Eval(lost, p, fuel, c, s), inLoop, mayReturn)
    decreases fuel, c
  {
    match c
    case Seq(a, b) =>
      JumpsStayInside(lost, p, fuel, a, s, inLoop, mayReturn);
      var r := Eval(lost, p, fuel, a, s);
      if r.Normal? { JumpsStayInside(lost, p, fuel, b, r.s, inLoop, mayReturn); }
    case If(_, a, b) =>
      JumpsStayInside(lost, p, fuel, a, s, inLoop, mayReturn);
      JumpsStayInside(lost, p, fuel, b, s, inLoop, mayReturn);
    case While(_, b) =>
      if fuel > 0 {
        JumpsStayInside(lost, p, fuel, b, s, true, mayReturn);
        var r := Eval(lost, p, fuel, b, s);
        if r.Normal? || (r.Jumped? && r.j.Continue?) {
          JumpsStayInside(lost, p, fuel - 1, c, r.s, inLoop, mayReturn);
        }
      }
    case Call(f, e) =>
      if fuel > 0 { JumpsStayInside(lost, p, fuel - 1, Body(p, f), s.Enter(Value(e, s)), false, true); }
    case TryCatch(b, t, h) =>
      JumpsStayInside(lost, p, fuel, b, s, false, false);
      var r := Eval(lost, p, fuel, b, s);
      if r.Thrown? {
        var s1 := BindIfNamed(t, r.value, AfterCatch(lost, r.s, |s.written|));
        JumpsStayInside(lost, p, fuel, h, s1, inLoop, mayReturn);
      }
    case _ =>
  }

  // ----- what a handler can rely on

  /** From s to s1, a local of this activation has only changed by being assigned. */
  predicate ChangedByWriting(s: Store, s1: Store, v: Variable) {
    && s.written <= s1.written
    && (v.IsLocal() && v !in s1.written[|s.written|..] ==> s1.Get(v) == s.Get(v))
  }

  lemma {:induction false} SetWrites(s: Store, x: Variable, n: int, v: Variable)
    ensures ChangedByWriting(s, s.Set(x, n), v)
  {
    var s1 := s.Set(x, n);
    if x.IsLocal() { assert s1.written[|s.written|..] == [x]; }
  }

  lemma {:induction false} WritingAddsUp(s: Store, s1: Store, s2: Store, v: Variable)
    requires ChangedByWriting(s, s1, v) && ChangedByWriting(s1, s2, v)
    ensures ChangedByWriting(s, s2, v)
  {
    assert s2.written[|s.written|..] == s1.written[|s.written|..] + s2.written[|s1.written|..];
  }

  lemma {:induction false} BindWrites(t: Option<Target>, n: int, s: Store, v: Variable)
    ensures ChangedByWriting(s, BindIfNamed(t, n, s), v)
  {
    if t.Some? {
      match t.value
      case Named(x) => SetWrites(s, x, n, v);
      case NextElement(base, counter) =>
        var s1 := s.Set(counter, s.Get(counter) + 1);
        SetWrites(s, counter, s.Get(counter) + 1, v);
        SetWrites(s1, Element(base, s1.Get(counter)), n, v);
        WritingAddsUp(s, s1, s1.Set(Element(base, s1.Get(counter)), n), v);
    }
  }

  /** What is lost at a catch had been assigned since the Try began. */
  lemma {:induction false} CatchLosesWritten(lost: Lost, s: Store, s1: Store, v: Variable)
    requires ChangedByWriting(s, s1, v)
    ensures ChangedByWriting(s, AfterCatch(lost, s1, |s.written|), v)
  {
  }

  /** However a statement ends, whatever it calls, throws and catches, no local of its
      function has changed without being assigned in it. */
  lemma {:induction false} LocalsChangeByWriting(lost: Lost, p: Program, fuel: nat, c: Stmt, s: Store, v: Variable)
    ensures var o := Eval(lost, p, fuel, c, s); o.Timeout? || o.Forbidden? || ChangedByWriting(s, o.s, v)
    decreases fuel, c, 0
  {
    match c
    case Assign(x, e) => SetWrites(s, x, Value(e, s), v);
    case Seq(a, b) =>
      LocalsChangeByWriting(lost, p, fuel, a, s, v);
      var r := Eval(lost, p, fuel, a, s);
      if r.Normal? { ContinueWriting(lost, p, fuel, b, s, r.s, v); }
    case If(e, a, b) =>
      LocalsChangeByWriting(lost, p, fuel, if Value(e, s) != 0 then a else b, s, v);
    case While(e, b) =>
      if fuel > 0 {
        LocalsChangeByWriting(lost, p, fuel, b, s, v);
        var r := Eval(lost, p, fuel, b, s);
        if r.Normal? || (r.Jumped? && r.j.Continue?) { ContinueWriting(lost, p, fuel - 1, c, s, r.s, v); }
      }
    case TryCatch(b, t, h) =>
      LocalsChangeByWriting(lost, p, fuel, b, s, v);
      var r := Eval(lost, p, fuel, b, s);
      if r.Thrown? {
        var s1 := AfterCatch(lost, r.s, |s.written|);
        CatchLosesWritten(lost, s, r.s, v);
        BindWrites(t, r.value, s1, v);
        WritingAddsUp(s, s1, BindIfNamed(t, r.value, s1), v);
        ContinueWriting(lost, p, fuel, h, s, BindIfNamed(t, r.value, s1), v);
      }
    case _ =>
  }

  lemma {:induction false} ContinueWriting(lost: Lost, p: Program, fuel: nat, c: Stmt, s: Store, s1: Store, v: Variable)
    requires ChangedByWriting(s, s1, v)
    ensures var o := Eval(lost, p, fuel, c, s1); o.Timeout? || o.Forbidden? || ChangedByWriting(s, o.s, v)
    decreases fuel, c, 1
  {
    LocalsChangeByWriting(lost, p, fuel, c, s1, v);
    var o := Eval(lost, p, fuel, c, s1);
    if !o.Timeout? && !o.Forbidden? { WritingAddsUp(s, s1, o.s, v); }
  }

  /** The store in which a Catch clause starts: static storage and volatile variables
      are as the Throw left them; an automatic variable not assigned in the Try clause
      is as it was before the Try; one that was assigned there is lost. */
  lemma {:induction false} HandlerSees(lost: Lost, p: Program, fuel: nat, clause: Stmt, s: Store, v: Variable)
    requires Eval(lost, p, fuel, clause, s).Thrown?
    ensures var s1 := Eval(lost, p, fuel, clause, s).s;
      var changed := v in Since(s1.written, |s.written|);
      AfterCatch(lost, s1, |s.written|).Get(v) ==
        if !v.Automatic? then s1.Get(v)
        else if !changed then s.Get(v)
        else if v in s1.locals then lost(s1.catches, v, s1.Get(v)) else 0
  {
    LocalsChangeByWriting(lost, p, fuel, clause, s, v);
  }

  // ----- what one assignment, call or catch changes

  /** An assignment changes one variable, and leaves a trace only of a local. */
  lemma {:induction false} SetChangesOne(s: Store, x: Variable, n: int, v: Variable)
    ensures s.Set(x, n).Get(v) == if v == x then n else s.Get(v)
    ensures s.Set(x, n).written == s.written + (if x.IsLocal() then [x] else [])
    ensures s.Set(x, n).catches == s.catches
  {
  }

  /** The expression of a Catch changes its target alone, or one element and the counter. */
  lemma {:induction false} BindChanges(t: Target, n: int, s: Store, v: Variable)
    ensures Bind(t, n, s).Get(v) ==
      match t
      case Named(x) => if v == x then n else s.Get(v)
      case NextElement(base, counter) =>
        var index := s.Get(counter) + 1;
        if v == Element(base, index) then n else if v == counter then index else s.Get(v)
  {
    match t
    case Named(x) => SetChangesOne(s, x, n, v);
    case NextElement(base, counter) =>
      var index := s.Get(counter) + 1;
      SetChangesOne(s, counter, index, v);
      SetChangesOne(s, counter, index, counter);
      SetChangesOne(s.Set(counter, index), Element(base, index), n, v);
  }

  /** A callee reads its argument, static storage as it is, and no local of its caller. */
  lemma {:induction false} CalleeReads(s: Store, n: int, v: Variable)
    ensures s.Enter(n).Get(v) == if v == PARAMETER then n else if v.IsLocal() then 0 else s.Get(v)
    ensures s.Enter(n).written == [] && s.Enter(n).catches == s.catches
  {
  }

  /** A caller reads its own locals and what its callee left in static storage. */
  lemma {:induction false} CallerReads(s: Store, inner: Store, v: Variable)
    ensures s.Resume(inner).Get(v) == if v.IsLocal() then s.Get(v) else inner.Get(v)
    ensures s.Resume(inner).written == s.written && s.Resume(inner).catches == inner.catches
  {
  }

  // ----- variables that are not assigned

  predicate Binds(t: Target, v: Variable) {
    match t
    case Named(x) => v == x
    case NextElement(base, counter) => v == counter || (v.Element? && v.base == base)
  }

  /** Some assignment or Catch in the text of c, callees apart, may change v. */
  predicate Assigns(c: Stmt, v: Variable) {
    match c
    case Assign(x, _) => v == x
    case Seq(a, b) => Assigns(a, v) || Assigns(b, v)
    case If(_, a, b) => Assigns(a, v) || Assigns(b, v)
    case While(_, b) => Assigns(b, v)
    case TryCatch(b, t, h) => Assigns(b, v) || (t.Some? && Binds(t.value, v)) || Assigns(h, v)
    case _ => false
  }

  /** The text of c does not change v, nor does that of any function unless v is a local
      of the one that runs c. */
  ghost predicate Spares(p: Program, c: Stmt, v: Variable) {
    !Assigns(c, v) && (v.IsLocal() || forall f :: f in p ==> !Assigns(p[f], v))
  }

  predicate Untouched(s: Store, s1: Store, v: Variable) {
    && s1.Get(v) == s.Get(v) && s.written <= s1.written
    && (v.IsLocal() ==> v !in s1.written[|s.written|..])
  }

  lemma {:induction false} UntouchedAddsUp(s: Store, s1: Store, s2: Store, v: Variable)
    requires Untouched(s, s1, v) && Untouched(s1, s2, v)
    ensures Untouched(s, s2, v)
  {
    assert s2.written[|s.written|..] == s1.written[|s.written|..] + s2.written[|s1.written|..];
  }

  lemma {:induction false} SetLeaves(s: Store, x: Variable, n: int, v: Variable)
    requires v != x
    ensures Untouched(s, s.Set(x, n), v)
  {
    SetChangesOne(s, x, n, v);
    assert s.Set(x, n).written[|s.written|..] == if x.IsLocal() then [x] else [];
  }

  lemma {:induction false} BindLeaves(t: Option<Target>, n: int, s: Store, v: Variable)
    requires t.Some? ==> !Binds(t.value, v)
    ensures Untouched(s, BindIfNamed(t, n, s), v)
  {
    if t.Some? {
      match t.value
      case Named(x) => SetLeaves(s, x, n, v);
      case NextElement(base, counter) =>
        var s1 := s.Set(counter, s.Get(counter) + 1);
        SetLeaves(s, counter, s.Get(counter) + 1, v);
        SetLeaves(s1, Element(base, s1.Get(counter)), n, v);
        UntouchedAddsUp(s, s1, s1.Set(Element(base, s1.Get(counter)), n), v);
    }
  }

  lemma {:induction false} CatchLeaves(lost: Lost, s: Store, s1: Store, v: Variable)
    requires Untouched(s, s1, v)
    ensures Untouched(s, AfterCatch(lost, s1, |s.written|), v)
  {
  }

  /** MAIN RESULT. Whatever is called, thrown and caught on the way, and however the
      statement ends, a variable of any storage that nothing in sight assigns keeps its
      value; so a local does, whatever the callees do. */
  lemma {:induction false} UnassignedIsKept(lost: Lost, p: Program, fuel: nat, c: Stmt, s: Store, v: Variable)
    requires Spares(p, c, v)
    ensures var o := Eval(lost, p, fuel, c, s); o.Timeout? || o.Forbidden? || Untouched(s, o.s, v)
    decreases fuel, c, 0
  {
    match c
    case Assign(x, e) => SetLeaves(s, x, Value(e, s), v);
    case Seq(a, b) =>
      UnassignedIsKept(lost, p, fuel, a, s, v);
      var r := Eval(lost, p, fuel, a, s);
      if r.Normal? { StillUnassigned(lost, p, fuel, b, s, r.s, v); }
    case If(e, a, b) => UnassignedIsKept(lost, p, fuel, if Value(e, s) != 0 then a else b, s, v);
    case While(e, b) =>
      if fuel > 0 {
        UnassignedIsKept(lost, p, fuel, b, s, v);
        var r := Eval(lost, p, fuel, b, s);
        if r.Normal? || (r.Jumped? && r.j.Continue?) { StillUnassigned(lost, p, fuel - 1, c, s, r.s, v); }
      }
    case Call(f, e) =>
      if fuel > 0 && !v.IsLocal() {
        UnassignedIsKept(lost, p, fuel - 1, Body(p, f), s.Enter(Value(e, s)), v);
        CalleeReads(s, Value(e, s), v);
      }
    case TryCatch(b, t, h) =>
      UnassignedIsKept(lost, p, fuel, b, s, v);
      var r := Eval(lost, p, fuel, b, s);
      if r.Thrown? {
        var s1 := AfterCatch(lost, r.s, |s.written|);
        CatchLeaves(lost, s, r.s, v);
        BindLeaves(t, r.value, s1, v);
        UntouchedAddsUp(s, s1, BindIfNamed(t, r.value, s1), v);
        StillUnassigned(lost, p, fuel, h, s, BindIfNamed(t, r.value, s1), v);
      }
    case _ =>
  }

  lemma {:induction false} StillUnassigned(lost: Lost, p: Program, fuel: nat, c: Stmt, s: Store, s1: Store, v: Variable)
    requires Spares(p, c, v) && Untouched(s, s1, v)
    ensures var o := Eval(lost, p, fuel, c, s1); o.Timeout? || o.Forbidden? || Untouched(s, o.s, v)
    decreases fuel, c, 1
  {
    UnassignedIsKept(lost, p, fuel, c, s1, v);
    var o := Eval(lost, p, fuel, c, s1);
    if !o.Timeout? && !o.Forbidden? { UntouchedAddsUp(s, s1, o.s, v); }
  }

  // ----- laws

  /** What the prose says of a variable at the start of a handler: `s` is the store
      before the Try and `s1` the store at the Throw. */
  function Seen(lost: Lost, s: Store, s1: Store, v: Variable): int {
    if !v.Automatic? then s1.Get(v)
    else if v !in Since(s1.written, |s.written|) then s.Get(v)
    else if v in s1.locals then lost(s1.catches, v, s1.Get(v)) else 0
  }

  /** The same after the expression of the Catch has assigned the exception. */
  function AtStart(lost: Lost, t: Option<Target>, value: int, s: Store, s1: Store, v: Variable): int {
    match t
    case None => Seen(lost, s, s1, v)
    case Some(Named(x)) => if v == x then value else Seen(lost, s, s1, v)
    case Some(NextElement(base, counter)) =>
      var index := Seen(lost, s, s1, counter) + 1;
      if v == Element(base, index) then value else if v == counter then index else Seen(lost, s, s1, v)
  }

  lemma {:induction false} StartReads(lost: Lost, p: Program, fuel: nat, clause: Stmt, t: Option<Target>, s: Store,
        v: Variable)
    requires Eval(lost, p, fuel, clause, s).Thrown?
    ensures var o := Eval(lost, p, fuel, clause, s);
      BindIfNamed(t, o.value, AfterCatch(lost, o.s, |s.written|)).Get(v) == AtStart(lost, t, o.value, s, o.s, v)
  {
    var o := Eval(lost, p, fuel, clause, s);
    HandlerSees(lost, p, fuel, clause, s, v);
    if t.Some? {
      BindChanges(t.value, o.value, AfterCatch(lost, o.s, |s.written|), v);
      if t.value.NextElement? { HandlerSees(lost, p, fuel, clause, s, t.value.counter); }
    }
  }

  /** An exception makes the Catch clause run, in a store in which each variable is as
      the prose and the expression of the Catch say. */
  lemma {:induction false} HandlerStarts(lost: Lost, p: Program, fuel: nat, clause: Stmt, t: Option<Target>, h: Stmt,
        s: Store)
    returns (start: Store)
    requires Eval(lost, p, fuel, clause, s).Thrown?
    ensures Eval(lost, p, fuel, TryCatch(clause, t, h), s) == Eval(lost, p, fuel, h, start)
    ensures var o := Eval(lost, p, fuel, clause, s);
      && (forall v :: start.Get(v) == AtStart(lost, t, o.value, s, o.s, v))
      && start.catches == o.s.catches + 1
  {
    var o := Eval(lost, p, fuel, clause, s);
    start := BindIfNamed(t, o.value, AfterCatch(lost, o.s, |s.written|));
    forall v ensures start.Get(v) == AtStart(lost, t, o.value, s, o.s, v) {
      StartReads(lost, p, fuel, clause, t, s, v);
    }
  }

  /** A Try whose clause does not throw is that clause; a Catch that throws its own
      exception on passes it out unchanged; a statement after a Throw or a jump is not
      reached. */
  lemma {:induction false} ExceptionLaws(lost: Lost, p: Program, fuel: nat, a: Stmt, x: Variable, h: Stmt, n: int,
        j: Jump, s: Store)
    ensures var o, t := Eval(lost, p, fuel, a, s), TryCatch(a, Some(Named(x)), Throw(Read(x)));
      && (o.Normal? ==> Eval(lost, p, fuel, TryCatch(a, Some(Named(x)), h), s) == o)
      && (o.Thrown? ==> Eval(lost, p, fuel, t, s).Thrown? && Eval(lost, p, fuel, t, s).value == o.value)
    ensures Eval(lost, p, fuel, Throw(Lit(n)), s) == Thrown(n, s)
    ensures Eval(lost, p, fuel, Throw(Read(x)), s) == Thrown(s.Get(x), s)
    ensures Eval(lost, p, fuel, Seq(Throw(Lit(n)), a), s) == Thrown(n, s)
    ensures Eval(lost, p, fuel, Seq(Leave(j), a), s) == Jumped(j, s)
  {
    var o := Eval(lost, p, fuel, a, s);
    if o.Thrown? { var start := HandlerStarts(lost, p, fuel, a, Some(Named(x)), Throw(Read(x)), s); }
  }

  /** Sequencing is associative with Skip as its unit, and a branch is the statement
      that the condition selects. */
  lemma {:induction false} SequenceLaws(lost: Lost, p: Program, fuel: nat, a: Stmt, b: Stmt, c: Stmt, n: int,
        x: Variable, s: Store)
    ensures Eval(lost, p, fuel, Seq(Seq(a, b), c), s) == Eval(lost, p, fuel, Seq(a, Seq(b, c)), s)
    ensures Eval(lost, p, fuel, Seq(Skip, a), s) == Eval(lost, p, fuel, Seq(a, Skip), s) == Eval(lost, p, fuel, a, s)
    ensures Eval(lost, p, fuel, If(Lit(n), a, b), s) == Eval(lost, p, fuel, if n == 0 then b else a, s)
    ensures Eval(lost, p, fuel, If(Less(Read(x), Lit(n)), a, b), s) ==
      Eval(lost, p, fuel, if s.Get(x) < n then a else b, s)
  {
    assert Value(Less(Read(x), Lit(n)), s) == if s.Get(x) < n then 1 else 0;
  }

  /** An assignment reads before it writes. */
  lemma {:induction false} AssignmentLaw(lost: Lost, p: Program, fuel: nat, x: Variable, n: int, s: Store, v: Variable)
    ensures var o := Eval(lost, p, fuel, Assign(x, Plus(Read(x), Lit(n))), s);
      o.Normal? && o.s.Get(v) == if v == x then s.Get(x) + n else s.Get(v)
  {
    assert Value(Plus(Read(x), Lit(n)), s) == s.Get(x) + n;
    SetChangesOne(s, x, s.Get(x) + n, v);
  }

  /** A loop that is not entered does nothing. One that is entered runs its body and,
      if that ends or continues, itself again; any other end of the body but a Break ends
      the loop in the same way. */
  lemma {:induction false} LoopLaws(lost: Lost, p: Program, fuel: nat, e: Expr, a: Stmt, s: Store)
    ensures Value(e, s) == 0 ==> Eval(lost, p, fuel, While(e, a), s) == Normal(s)
    ensures Value(e, s) != 0 && fuel > 0 ==>
      var loop := Eval(lost, p, fuel, While(e, a), s);
      match Eval(lost, p, fuel, a, s)
      case Normal(s1) => loop == Eval(lost, p, fuel - 1, While(e, a), s1)
      case Jumped(j, s1) =>
        if j == Continue then loop == Eval(lost, p, fuel - 1, While(e, a), s1)
        else if j == Break then loop == Normal(s1) else loop == Jumped(Return, s1)
      case o => loop == o
  {
  }

  /** Nothing after a Continue in the body of a loop is reached. */
  lemma {:induction false} ContinueLaw(lost: Lost, p: Program, fuel: nat, e: Expr, a: Stmt, b: Stmt, s: Store)
    ensures Eval(lost, p, fuel, While(e, Seq(a, Seq(Leave(Continue), b))), s) == Eval(lost, p, fuel, While(e, a), s)
    decreases fuel
  {
    var r := Eval(lost, p, fuel, a, s);
    if r.Normal? { assert Eval(lost, p, fuel, Seq(Leave(Continue), b), r.s) == Jumped(Continue, r.s); }
    assert Eval(lost, p, fuel, Seq(a, Seq(Leave(Continue), b)), s) ==
      if r.Normal? then Jumped(Continue, r.s) else r;
    if fuel > 0 && (r.Normal? || (r.Jumped? && r.j.Continue?)) { ContinueLaw(lost, p, fuel - 1, e, a, b, r.s); }
  }

  /** A function that is called reads its argument, keeps the caller's locals, and passes
      on what its body leaves in static storage, also when it throws. */
  lemma {:induction false} CallLaws(lost: Lost, p: Program, fuel: nat, f: string, e: Expr, s: Store, v: Variable)
    requires fuel > 0 && f in p
    ensures var o, i := Eval(lost, p, fuel, Call(f, e), s), Eval(lost, p, fuel - 1, p[f], s.Enter(Value(e, s)));
      match i
      case Normal(s1) => o.Normal? && o.s.Get(v) == if v.IsLocal() then s.Get(v) else s1.Get(v)
      case Thrown(n, s1) => o.Thrown? && o.value == n && o.s.Get(v) == if v.IsLocal() then s.Get(v) else s1.Get(v)
      case Jumped(j, s1) => if j == Return then o.Normal? && o.s.Get(v) == if v.IsLocal() then s.Get(v) else s1.Get(v)
                            else o == Forbidden
      case _ => o == i
  {
    var i := Eval(lost, p, fuel - 1, p[f], s.Enter(Value(e, s)));
    if !i.Timeout? && !i.Forbidden? { CallerReads(s, i.s, v); }
  }
}
