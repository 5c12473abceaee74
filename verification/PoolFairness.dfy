/** How unfair the skipping is, and how soon the pool empties in spite of it. */
module PoolFairness {
  import opened IntegerFacts
  import opened Options
  import opened RetransmissionPool
  import opened PoolRuns

  /** A pass that steps over message s because the one before it has just expired. */
  ghost predicate SkippedBy(p: Pool, e: Event, s: nat) {
    && e.Traverse? && |e.readings| == |p.list|
    && exists i: nat | i < |p.list| :: p.list[i].serial == s && FateOf(p.list, e.readings, i).Skipped?
  }

  /** How many passes of a run step over message s. */
  ghost function Skips(p: Pool, es: seq<Event>, s: nat): nat
    requires Valid(p, es)
    decreases |es|
  {
    if es == [] then 0 else (if SkippedBy(p, es[0], s) then 1 else 0) + Skips(Apply(p, es[0]), es[1..], s)
  }

  /** A message that has left does not come back. */
  lemma {:induction false} StaysAway(p: Pool, e: Event, s: nat)
    requires Inv(p) && CanHappen(p, e) && s < p.midCount && !Pending(p.list, s)
    ensures s < Apply(p, e).midCount && !Pending(Apply(p, e).list, s) && !SkippedBy(p, e, s)
  {
    ApplyKeeps(p, e);
    assert Placed(p, s) && Placed(Apply(p, e), s);
    forall i: nat | i < |p.list| ensures p.list[i].serial != s { IsPending(p.list, i); }
  }

  lemma {:induction false} ForwardInPass(p: Pool, e: Event, i: nat) returns (j: nat)
    requires Inv(p) && e.Traverse? && Timely(p, e) && i < |p.list|
    ensures FateOf(p.list, e.readings, i).Expired? ==> !Pending(Apply(p, e).list, p.list[i].serial)
    ensures var q, f := Apply(p, e), FateOf(p.list, e.readings, i); !f.Expired? ==>
      j < |q.list| && q.list[j].serial == p.list[i].serial && (if f.Skipped? then j + 1 <= i else j <= i)
  {
    KeptLength(p.list, e.readings, i);
    j := |Kept(p.list, e.readings, i)|;
    if FateOf(p.list, e.readings, i).Expired? {
      WhoExpires(p.list, e.readings, |p.list|, p.list[i].serial);
      TraverseConserves(p, e);
      assert Placed(Apply(p, e), p.list[i].serial);
    } else {
      SurvivorAt(p.list, e.readings, |p.list|, i);
    }
  }

  lemma {:induction false} OnlyItselfIsSkipped(p: Pool, e: Event, i: nat)
    requires Inv(p) && e.Traverse? && Timely(p, e) && i < |p.list|
    ensures SkippedBy(p, e, p.list[i].serial) <==> FateOf(p.list, e.readings, i).Skipped?
  {
  }

  /** Where one event leaves the message at position i: gone, or no further back; and
      further forward if it was skipped. */
  lemma {:induction false} Forward(p: Pool, e: Event, i: nat) returns (j: nat)
    requires Inv(p) && CanHappen(p, e) && i < |p.list|
    ensures var s, q := p.list[i].serial, Apply(p, e);
      Pending(q.list, s) ==>
        && j < |q.list| && q.list[j].serial == s
        && (if SkippedBy(p, e, s) then j + 1 <= i else j <= i)
    ensures SkippedBy(p, e, p.list[i].serial) ==> i > 0
  {
    match e
    case Add(_, _) => j := i;
    case Delete(mid, _) =>
      j := i;
      if Has(p.list, mid) {
        DeleteConserves(p, e);
        if First(p.list, mid) < i { j := i - 1; }
      }
    case Traverse(_, _) =>
      OnlyItselfIsSkipped(p, e, i);
      j := ForwardInPass(p, e, i);
  }

  lemma {:induction false} GoneIsNotSkipped(p: Pool, es: seq<Event>, s: nat)
    requires Inv(p) && Valid(p, es) && s < p.midCount && !Pending(p.list, s)
    ensures Skips(p, es, s) == 0
    decreases |es|
  {
    if es != [] {
      StaysAway(p, es[0], s);
      ApplyKeeps(p, es[0]);
      GoneIsNotSkipped(Apply(p, es[0]), es[1..], s);
    }
  }

  /** MAIN RESULT. Over any run from any reachable pool, a message is stepped over at
      most as many times as there are messages before it; the first never is. */
  lemma {:induction false} UnfairnessIsBounded(p: Pool, es: seq<Event>, i: nat)
    requires Inv(p) && Valid(p, es) && i < |p.list|
    ensures Skips(p, es, p.list[i].serial) <= i
    decreases |es|
  {
    if es != [] {
      var s, q := p.list[i].serial, Apply(p, es[0]);
      IsPending(p.list, i);
      assert Placed(p, s);
      ApplyKeeps(p, es[0]);
      var j := Forward(p, es[0], i);
      if Pending(q.list, s) {
        UnfairnessIsBounded(q, es[1..], j);
      } else {
        assert q.midCount >= p.midCount;
        GoneIsNotSkipped(q, es[1..], s);
      }
    }
  }

  // ----- draining

  /** Every message is finite, and b passes are enough for it even if each message in
      front of it makes it lose one. */
  predicate Within(list: seq<WaitACKMsg>, b: int) {
    forall i | 0 <= i < |list| :: 0 <= list[i].leftTryTimes && i + list[i].leftTryTimes + 1 <= b
  }

  /** The pass finds every waiting message due when it looks at it. */
  ghost predicate AllDue(p: Pool, rd: seq<Reading>)
    requires |rd| == |p.list|
  {
    forall i | 0 <= i < |rd| :: Due(p.list[i], rd[i])
  }

  /** A run without additions whose passes come late enough. */
  ghost predicate Draining(p: Pool, es: seq<Event>)
    requires Valid(p, es)
    decreases |es|
  {
    es == [] ||
    (&& !es[0].Add?
     && (es[0].Traverse? ==> AllDue(p, es[0].readings))
     && Draining(Apply(p, es[0]), es[1..]))
  }

  function Passes(es: seq<Event>): nat {
    if es == [] then 0 else (if es[0].Traverse? then 1 else 0) + Passes(es[1..])
  }

  lemma {:induction false} PassDrains(p: Pool, e: Event, b: int)
    requires Inv(p) && e.Traverse? && Timely(p, e) && AllDue(p, e.readings) && Within(p.list, b)
    ensures Within(Apply(p, e).list, b - 1)
  {
    var q, rd := Apply(p, e), e.readings;
    forall k | 0 <= k < |q.list|
      ensures 0 <= q.list[k].leftTryTimes && k + q.list[k].leftTryTimes + 1 <= b - 1
    {
      var i := SurvivorFrom(p.list, rd, |p.list|, k);
      assert PendingAt(p, i);
      assert Due(p.list[i], rd[i]);
      KeptLength(p.list, rd, i);
    }
  }

  lemma {:induction false} DeleteDrains(p: Pool, e: Event, b: int)
    requires e.Delete? && Defined(p, e) && Within(p.list, b)
    ensures Within(Apply(p, e).list, b)
  {
    if Has(p.list, e.mid) {
      var q, k := Apply(p, e), First(p.list, e.mid);
      forall i | 0 <= i < |q.list|
        ensures 0 <= q.list[i].leftTryTimes && i + q.list[i].leftTryTimes + 1 <= b
      {
        assert q.list[i] == p.list[Before(i, k)];
      }
    }
  }

  lemma {:induction false} RunDrains(p: Pool, es: seq<Event>, b: int)
    requires Inv(p) && Valid(p, es) && Draining(p, es) && Within(p.list, b)
    ensures Within(RunFrom(p, es).list, b - Passes(es))
    decreases |es|
  {
    if es != [] {
      ApplyKeeps(p, es[0]);
      if es[0].Traverse? { PassDrains(p, es[0], b); } else { DeleteDrains(p, es[0], b); }
      RunDrains(Apply(p, es[0]), es[1..], if es[0].Traverse? then b - 1 else b);
    }
  }

  /** The tries the pool still owes: each message's, and its last. */
  function TriesOwed(list: seq<WaitACKMsg>): int {
    if list == [] then 0 else TriesOwed(list[..|list| - 1]) + list[|list| - 1].leftTryTimes + 1
  }

  lemma {:induction false} EnoughPasses(list: seq<WaitACKMsg>)
    requires forall i | 0 <= i < |list| :: 0 <= list[i].leftTryTimes < MAX_TRY_TIMES
    ensures |list| <= TriesOwed(list) && Within(list, TriesOwed(list))
    ensures Within(list, |list| + MAX_TRY_TIMES - 1)
  {
    if list != [] { EnoughPasses(list[..|list| - 1]); }
  }

  lemma {:induction false} FewWithin(list: seq<WaitACKMsg>, b: int)
    requires Within(list, b)
    ensures list == [] || |list| <= b
  {
    if list != [] { assert 0 <= list[|list| - 1].leftTryTimes; }
  }

  /** MAIN RESULT. From any reachable pool without forever messages, a run with nothing
      added, whose passes come late enough, empties the pool after as many passes as
      there are tries owed, and also after one pass per message and MAX_TRY_TIMES - 1
      more, whatever is acknowledged in between. */
  lemma {:induction false} PoolDrains(before: seq<Event>, es: seq<Event>)
    requires Valid(EMPTY, before) && Valid(RunFrom(EMPTY, before), es) && Draining(RunFrom(EMPTY, before), es)
    requires forall m | m in RunFrom(EMPTY, before).list :: m.leftTryTimes != ETERNAL_TRY_TIMES
    requires var list := RunFrom(EMPTY, before).list;
      Passes(es) >= TriesOwed(list) || Passes(es) >= |list| + MAX_TRY_TIMES - 1
    ensures RunFrom(RunFrom(EMPTY, before), es).list == []
  {
    var p := RunFrom(EMPTY, before);
    EveryRunIsConserved(before);
    forall i: nat | i < |p.list| ensures 0 <= p.list[i].leftTryTimes < MAX_TRY_TIMES {
      assert PendingAt(p, i) && p.list[i] in p.list;
    }
    EnoughPasses(p.list);
    var last := RunFrom(p, es).list;
    RunDrains(p, es, TriesOwed(p.list));
    RunDrains(p, es, |p.list| + MAX_TRY_TIMES - 1);
    FewWithin(last, TriesOwed(p.list) - Passes(es));
    FewWithin(last, |p.list| + MAX_TRY_TIMES - 1 - Passes(es));
  }

  // ----- draining by the clock

  /** A run without additions in which every pass tests each message more than the
      interval after the event before it. */
  ghost predicate Spread(p: Pool, es: seq<Event>)
    requires Valid(p, es)
    decreases |es|
  {
    es == [] ||
    (&& !es[0].Add?
     && (es[0].Traverse? ==> forall i | 0 <= i < |p.list| :: es[0].readings[i].test > p.clock + RESEND_AFTER)
     && Spread(Apply(p, es[0]), es[1..]))
  }

  lemma {:induction false} ClockGrows(p: Pool, es: seq<Event>)
    requires Valid(p, es)
    ensures p.clock <= RunFrom(p, es).clock
    decreases |es|
  {
    if es != [] { ClockGrows(Apply(p, es[0]), es[1..]); }
  }

  /** Every stamp is less than 2^32 ms before the time `end`. */
  predicate StampedWithin(list: seq<WaitACKMsg>, end: nat) {
    forall i | 0 <= i < |list| :: end < list[i].stampedAt + WORD
  }

  lemma {:induction false} StampsStayWithin(p: Pool, e: Event, end: nat)
    requires Inv(p) && CanHappen(p, e) && !e.Add? && StampedWithin(p.list, end)
    ensures StampedWithin(Apply(p, e).list, end)
  {
    var q := Apply(p, e);
    match e
    case Delete(mid, _) =>
      if Has(p.list, mid) {
        forall k | 0 <= k < |q.list| ensures end < q.list[k].stampedAt + WORD {
          assert q.list[k] == p.list[Before(k, First(p.list, mid))];
        }
      }
    case Traverse(rd, _) =>
      forall k | 0 <= k < |q.list| ensures end < q.list[k].stampedAt + WORD {
        var i := SurvivorFrom(p.list, rd, |p.list|, k);
        assert PendingAt(p, i);
      }
  }

  lemma {:induction false} LatePassFindsAllDue(p: Pool, e: Event)
    requires Inv(p) && e.Traverse? && Timely(p, e) && StampedWithin(p.list, e.end)
    requires forall i | 0 <= i < |p.list| :: e.readings[i].test > p.clock + RESEND_AFTER
    ensures AllDue(p, e.readings)
  {
    forall i | 0 <= i < |p.list| ensures Due(p.list[i], e.readings[i]) {
      assert PendingAt(p, i);
      TicksMeasureTime(e.readings[i].test, p.list[i].stampedAt);
    }
  }

  /** Passes that are far enough apart find everything due, unless the run lasts until
      2^32 ms after some message was stamped. */
  lemma {:induction false} SpreadPassesDrain(p: Pool, es: seq<Event>)
    requires Inv(p) && Valid(p, es) && Spread(p, es) && StampedWithin(p.list, RunFrom(p, es).clock)
    ensures Draining(p, es)
    decreases |es|
  {
    if es != [] {
      var q := Apply(p, es[0]);
      ClockGrows(q, es[1..]);
      ApplyKeeps(p, es[0]);
      StampsStayWithin(p, es[0], RunFrom(p, es).clock);
      if es[0].Traverse? { LatePassFindsAllDue(p, es[0]); }
      SpreadPassesDrain(q, es[1..]);
    }
  }

  // ----- one message among others

  /** A pass that looks at the message at position i when it is due, or steps over it. */
  ghost predicate Serves(p: Pool, e: Event, i: nat)
    requires i < |p.list| && CanHappen(p, e)
  {
    e.Traverse? && (FateOf(p.list, e.readings, i).Skipped? || Due(p.list[i], e.readings[i]))
  }

  /** Where one event leaves a message at position i that is not forever, if it is
      still pending: a pass that serves it brings it at least one nearer to leaving. */
  ghost predicate Moved(p: Pool, e: Event, i: nat, j: nat)
    requires i < |p.list| && CanHappen(p, e)
  {
    var m, q := p.list[i], Apply(p, e);
    && j < |q.list| && q.list[j].serial == m.serial && q.list[j].leftTryTimes >= 0
    && m.stampedAt <= q.list[j].stampedAt <= q.clock
    && if Serves(p, e, i) then j + q.list[j].leftTryTimes + 1 <= i + m.leftTryTimes else q.list[j] == m && j <= i
  }

  lemma {:induction false} PassMoves(p: Pool, e: Event, i: nat) returns (j: nat)
    requires Inv(p) && e.Traverse? && Timely(p, e) && i < |p.list| && p.list[i].leftTryTimes >= 0
    ensures Pending(Apply(p, e).list, p.list[i].serial) ==> Moved(p, e, i, j)
  {
    j := ForwardInPass(p, e, i);
    if !FateOf(p.list, e.readings, i).Expired? {
      assert PendingAt(p, i);
      KeptLength(p.list, e.readings, i);
      SurvivorAt(p.list, e.readings, |p.list|, i);
      TraverseKeeps(p, e);
      SamePlace(Apply(p, e).list, j, |Kept(p.list, e.readings, i)|);
    }
  }

  lemma {:induction false} SamePlace(list: seq<WaitACKMsg>, j: nat, k: nat)
    requires Increasing(list) && j < |list| && k < |list| && list[j].serial == list[k].serial
    ensures j == k
  {
  }

  lemma {:induction false} DeleteMoves(p: Pool, e: Event, i: nat) returns (j: nat)
    requires Inv(p) && e.Delete? && Has(p.list, e.mid) && Defined(p, e)
    requires i < |p.list| && p.list[i].leftTryTimes >= 0
    ensures Pending(Apply(p, e).list, p.list[i].serial) ==> Moved(p, e, i, j)
  {
    DeleteConserves(p, e);
    assert PendingAt(p, i);
    var k := First(p.list, e.mid);
    j := if k < i then i - 1 else i;
    if i != k { assert Apply(p, e).list[j] == p.list[i]; }
  }

  lemma {:induction false} Moves(p: Pool, e: Event, i: nat) returns (j: nat)
    requires Inv(p) && CanHappen(p, e) && i < |p.list| && p.list[i].leftTryTimes >= 0
    ensures Pending(Apply(p, e).list, p.list[i].serial) ==> Moved(p, e, i, j)
  {
    if e.Traverse? {
      j := PassMoves(p, e, i);
    } else if e.Delete? && Has(p.list, e.mid) {
      j := DeleteMoves(p, e, i);
    } else {
      assert PendingAt(p, i);
      j := i;
    }
  }

  /** A pass that finds message s pending and due. */
  ghost predicate FindsDue(p: Pool, e: Event, s: nat) {
    && e.Traverse? && |e.readings| == |p.list|
    && exists i: nat | i < |p.list| :: p.list[i].serial == s && Due(p.list[i], e.readings[i])
  }

  ghost function DuePasses(p: Pool, es: seq<Event>, s: nat): nat
    requires Valid(p, es)
    decreases |es|
  {
    if es == [] then 0 else (if FindsDue(p, es[0], s) then 1 else 0) + DuePasses(Apply(p, es[0]), es[1..], s)
  }

  /** A message that has left does not come back, whatever happens. */
  lemma {:induction false} GoneForGood(p: Pool, es: seq<Event>, s: nat)
    requires Inv(p) && Valid(p, es) && s < p.midCount && !Pending(p.list, s)
    ensures !Pending(RunFrom(p, es).list, s)
    decreases |es|
  {
    if es != [] {
      StaysAway(p, es[0], s);
      ApplyKeeps(p, es[0]);
      GoneForGood(Apply(p, es[0]), es[1..], s);
    }
  }

  lemma {:induction false} GoneForGoodAt(p: Pool, es: seq<Event>, i: nat)
    requires Inv(p) && Valid(p, es) && es != [] && i < |p.list| && !Pending(Apply(p, es[0]).list, p.list[i].serial)
    ensures !Pending(RunFrom(p, es).list, p.list[i].serial)
  {
    IsPending(p.list, i);
    assert Placed(p, p.list[i].serial);
    ApplyKeeps(p, es[0]);
    GoneForGood(Apply(p, es[0]), es[1..], p.list[i].serial);
  }

  lemma {:induction false} OnlyItselfIsDue(p: Pool, e: Event, i: nat)
    requires Inv(p) && e.Traverse? && Timely(p, e) && i < |p.list|
    ensures FindsDue(p, e, p.list[i].serial) <==> Due(p.list[i], e.readings[i])
  {
    forall k: nat | k < |p.list| && p.list[k].serial == p.list[i].serial ensures k == i {
      SamePlace(p.list, k, i);
    }
  }

  /** MAIN RESULT. Over any run from any reachable pool, whatever is added, acknowledged
      or waits for ever around it, a message at position i that is not forever is gone
      after i + leftTryTimes + 1 passes that have found it due. */
  lemma {:induction false} MessageLeaves(p: Pool, es: seq<Event>, i: nat)
    requires Inv(p) && Valid(p, es) && i < |p.list| && p.list[i].leftTryTimes >= 0
    ensures Pending(RunFrom(p, es).list, p.list[i].serial) ==>
      DuePasses(p, es, p.list[i].serial) <= i + p.list[i].leftTryTimes
    decreases |es|
  {
    if es != [] {
      var s, q := p.list[i].serial, Apply(p, es[0]);
      ApplyKeeps(p, es[0]);
      var j := Moves(p, es[0], i);
      if es[0].Traverse? { OnlyItselfIsDue(p, es[0], i); }
      if Pending(q.list, s) { MessageLeaves(q, es[1..], j); } else { GoneForGoodAt(p, es, i); }
    }
  }

  // ----- one message in real time

  /** From the start of a pass to the end of the next one, or to the end of the run,
      there are at most `gap` ms; `last` is the start of the latest pass. */
  ghost predicate Frequent(p: Pool, es: seq<Event>, last: nat, gap: nat)
    requires Valid(p, es)
    decreases |es|
  {
    && p.clock <= last + gap
    && (es == [] ||
        (&& (es[0].Traverse? ==> es[0].end <= last + gap)
         && Frequent(Apply(p, es[0]), es[1..], if es[0].Traverse? then p.clock else last, gap)))
  }

  /** The time by which a message has left that needs `passes` more passes from `base`. */
  function Deadline(base: nat, passes: nat, gap: nat): nat {
    base + passes * (RESEND_AFTER + gap)
  }

  lemma {:induction false} DeadlineStep(base: nat, passes: nat, gap: nat)
    requires passes > 0
    ensures Deadline(base + RESEND_AFTER + gap, passes - 1, gap) == Deadline(base, passes, gap)
    ensures base + RESEND_AFTER + gap <= Deadline(base, passes, gap)
  {
    Succ(passes, RESEND_AFTER + gap);
    MulLe(0, passes - 1, RESEND_AFTER + gap);
  }

  lemma {:induction false} FewerPasses(base: nat, fewer: nat, passes: nat, gap: nat)
    requires fewer <= passes
    ensures Deadline(base, fewer, gap) <= Deadline(base, passes, gap)
  {
    MulLe(fewer, passes, RESEND_AFTER + gap);
  }

  /** A pass that finds a message not due comes at most the interval after its stamp. */
  lemma {:induction false} NotYetDue(p: Pool, e: Event, i: nat)
    requires Inv(p) && e.Traverse? && Timely(p, e) && i < |p.list| && !Due(p.list[i], e.readings[i])
    requires e.end < p.list[i].stampedAt + WORD
    ensures p.clock <= p.list[i].stampedAt + RESEND_AFTER
  {
    assert PendingAt(p, i);
    TicksMeasureTime(e.readings[i].test, p.list[i].stampedAt);
  }

  /** The deadline of message m at position i, counted from `base`, can be relied on. */
  predicate Reliable(m: WaitACKMsg, i: nat, base: nat, last: nat, gap: nat) {
    && m.leftTryTimes >= 0 && m.stampedAt <= base && last <= base + RESEND_AFTER
    && Deadline(base, i + m.leftTryTimes + 1, gap) < m.stampedAt + WORD
  }

  /** An event does not put the deadline off. */
  lemma {:induction false} DeadlineIsKept(p: Pool, e: Event, i: nat, j: nat, base: nat, last: nat, gap: nat)
    returns (base': nat)
    requires Inv(p) && CanHappen(p, e) && i < |p.list| && Reliable(p.list[i], i, base, last, gap)
    requires Moved(p, e, i, j) && p.clock <= last + gap && (e.Traverse? ==> e.end <= last + gap)
    ensures var m, m' := p.list[i], Apply(p, e).list[j];
      && Reliable(m', j, base', if e.Traverse? then p.clock else last, gap)
      && Deadline(base', j + m'.leftTryTimes + 1, gap) <= Deadline(base, i + m.leftTryTimes + 1, gap)
  {
    var needed, needed' := i + p.list[i].leftTryTimes + 1, j + Apply(p, e).list[j].leftTryTimes + 1;
    DeadlineStep(base, needed, gap);
    if Serves(p, e, i) {
      base' := base + RESEND_AFTER + gap;
      FewerPasses(base', needed', needed - 1, gap);
    } else {
      base' := base;
      FewerPasses(base, needed', needed, gap);
      if e.Traverse? { NotYetDue(p, e, i); }
    }
  }

  /** If passes are frequent, a message at position i that is not forever has left by
      its deadline, whatever is added, acknowledged or waits for ever around it, provided
      the deadline is less than 2^32 ms after its stamp. */
  lemma {:induction false} LeavesByDeadline(p: Pool, es: seq<Event>, i: nat, base: nat, last: nat, gap: nat)
    requires Inv(p) && Valid(p, es) && Frequent(p, es, last, gap)
    requires i < |p.list| && Reliable(p.list[i], i, base, last, gap)
    ensures Pending(RunFrom(p, es).list, p.list[i].serial) ==>
      RunFrom(p, es).clock <= Deadline(base, i + p.list[i].leftTryTimes + 1, gap)
    decreases |es|
  {
    if es == [] {
      DeadlineStep(base, i + p.list[i].leftTryTimes + 1, gap);
    } else {
      var e, q := es[0], Apply(p, es[0]);
      ApplyKeeps(p, e);
      var j := Moves(p, e, i);
      if Pending(q.list, p.list[i].serial) {
        var base' := DeadlineIsKept(p, e, i, j, base, last, gap);
        LeavesByDeadline(q, es[1..], j, base', if e.Traverse? then p.clock else last, gap);
      } else {
        GoneForGoodAt(p, es, i);
      }
    }
  }

  /** MAIN RESULT. What AddMsg promises, in real time: if passes are frequent, a message
      that is not forever, added behind n others, has been acknowledged or has expired
      and its callback, if any, has been called exactly once, when n + MAX_TRY_TIMES
      intervals and gaps are over, whatever else happens to the pool. */
  lemma {:induction false} AnsweredInTime(p: Pool, t: Ticket, sent: nat, es: seq<Event>, last: nat, gap: nat)
    requires Inv(p) && !t.forever && p.clock <= t.stamp <= sent
    requires Valid(Apply(p, Add(t, sent)), es) && last <= sent && Frequent(Apply(p, Add(t, sent)), es, last, gap)
    requires Deadline(sent, |p.list| + MAX_TRY_TIMES, gap) < t.stamp + WORD
    requires RunFrom(Apply(p, Add(t, sent)), es).clock > Deadline(sent, |p.list| + MAX_TRY_TIMES, gap)
    ensures var q, s := RunFrom(Apply(p, Add(t, sent)), es), p.midCount;
      && (s in q.deleted || s in q.expired)
      && CountCalls(Story(q.log, s)) == if t.callBack.None? then 0 else 1
  {
    var p1, s, n := Apply(p, Add(t, sent)), p.midCount, |p.list|;
    AddKeeps(p, Add(t, sent));
    assert p1.list[n] == NewMsg(s, t);
    LeavesByDeadline(p1, es, n, sent, last, gap);
    var q := RunFrom(p1, es);
    RunKeeps(p1, es);
    HistoryGrows(p1, es, s);
    assert p1.tickets[s] == t && q.tickets[s] == t;
    assert Placed(q, s);
    LifeIn(q, s);
  }
}
