/** What holds of the retransmission pool over every run: each message has one story,
    which says how often it was sent, how far apart, and how it left the pool. */
module PoolRuns {
  import opened Options
  import opened RetransmissionPool

  ghost predicate Valid(p: Pool, es: seq<Event>)
    decreases |es|
  {
    es == [] || (CanHappen(p, es[0]) && Valid(Apply(p, es[0]), es[1..]))
  }

  ghost function RunFrom(p: Pool, es: seq<Event>): Pool
    requires Valid(p, es)
    decreases |es|
  {
    if es == [] then p else RunFrom(Apply(p, es[0]), es[1..])
  }

  // ----- stories

  /** The happenings that concern message number s, in order. */
  function Story(log: seq<Happening>, s: nat): seq<Happening> {
    StoryUpTo(log, s, |log|)
  }

  function StoryUpTo(log: seq<Happening>, s: nat, n: nat): seq<Happening>
    requires n <= |log|
  {
    if n == 0 then []
    else StoryUpTo(log, s, n - 1) + (if log[n - 1].serial == s then [log[n - 1]] else [])
  }

  function TimeOf(h: Happening): nat {
    if h.Sent? then h.at else 0
  }

  predicate IsSend(h: Happening, s: nat, t: Ticket) {
    h == SendOf(NewMsg(s, t), TimeOf(h))
  }

  predicate SendsOnly(st: seq<Happening>, s: nat, t: Ticket) {
    forall i | 0 <= i < |st| :: IsSend(st[i], s, t)
  }

  /** The i-th send is more than the interval after the one before it; the first
      repetition is so after the time AddMsg stamped, and after AddMsg's send too when
      the delay between the two does not show in the tick count. */
  predicate FarFromLast(st: seq<Happening>, stamp: nat, i: nat)
    requires 0 < i < |st|
  {
    && TimeOf(st[i]) > (if i == 1 then stamp else TimeOf(st[i - 1])) + RESEND_AFTER
    && (i == 1 && (TimeOf(st[0]) - stamp) % WORD == 0 ==> TimeOf(st[1]) > TimeOf(st[0]) + RESEND_AFTER)
  }

  predicate Spaced(st: seq<Happening>, stamp: nat) {
    forall i | 0 < i < |st| :: FarFromLast(st, stamp, i)
  }

  /** A message that waits: identical sends only, as many as it has used up tries. */
  predicate PendingStory(m: WaitACKMsg, t: Ticket, st: seq<Happening>, clock: nat) {
    && m == NewMsg(m.serial, t).(
         leftTryTimes := m.leftTryTimes, lastSendTime := m.lastSendTime, stampedAt := m.stampedAt)
    && m.lastSendTime == Tick(m.stampedAt) && t.stamp <= m.stampedAt <= clock
    && |st| >= 1 && SendsOnly(st, m.serial, t) && TimeOf(st[0]) >= t.stamp
    && (forall i | 0 <= i < |st| :: TimeOf(st[i]) <= clock)
    && if t.forever then m.leftTryTimes == ETERNAL_TRY_TIMES && m.stampedAt == t.stamp
       else
         && 0 <= m.leftTryTimes < MAX_TRY_TIMES && |st| + m.leftTryTimes == MAX_TRY_TIMES
         && Spaced(st, t.stamp)
         && (if |st| == 1 then m.stampedAt == t.stamp else m.stampedAt >= TimeOf(st[|st| - 1]))
  }

  /** A message that has left: its sends, then exactly the given callback or none. */
  predicate ClosedStory(s: nat, t: Ticket, st: seq<Happening>, calls: seq<Happening>, sends: nat) {
    && |st| == sends + |calls| && sends >= 1
    && st[sends..] == calls && SendsOnly(st[..sends], s, t) && TimeOf(st[0]) >= t.stamp
    && (!t.forever ==> Spaced(st[..sends], t.stamp))
  }

  predicate ExpiredStory(s: nat, t: Ticket, st: seq<Happening>) {
    !t.forever && ClosedStory(s, t, st, FailureCall(NewMsg(s, t)), MAX_TRY_TIMES + 1)
  }

  predicate DeletedStory(s: nat, t: Ticket, a: Ack, st: seq<Happening>) {
    CanTell(NewMsg(s, t), a) &&
    var calls := AckCall(NewMsg(s, t), a);
    |calls| <= |st| && ClosedStory(s, t, st, calls, |st| - |calls|) && (!t.forever ==> |st| - |calls| <= MAX_TRY_TIMES)
  }

  // ----- the invariant

  predicate Increasing(list: seq<WaitACKMsg>) {
    forall i, j | 0 <= i < j < |list| :: list[i].serial < list[j].serial
  }

  predicate Pending(list: seq<WaitACKMsg>, s: nat) {
    exists i | 0 <= i < |list| :: list[i].serial == s
  }

  /** A message number that has been handed out, and no other, is in exactly one of
      three places. */
  ghost predicate Placed(p: Pool, s: nat) {
    && (s < p.midCount <==> Pending(p.list, s) || s in p.deleted || s in p.expired)
    && !(Pending(p.list, s) && s in p.deleted)
    && !(Pending(p.list, s) && s in p.expired)
    && !(s in p.deleted && s in p.expired)
  }

  ghost predicate Conserved(p: Pool) {
    forall s: nat :: Placed(p, s)
  }

  ghost predicate PendingAt(p: Pool, i: nat)
    requires i < |p.list|
  {
    var s := p.list[i].serial;
    s < |p.tickets| && PendingStory(p.list[i], p.tickets[s], Story(p.log, s), p.clock)
  }

  /** The story of a number that is not pending. */
  ghost predicate Told(p: Pool, s: nat) {
    && (s in p.expired ==> s < |p.tickets| && ExpiredStory(s, p.tickets[s], Story(p.log, s)))
    && (s in p.deleted ==> s < |p.tickets| && DeletedStory(s, p.tickets[s], p.deleted[s], Story(p.log, s)))
    && (s >= |p.tickets| ==> Story(p.log, s) == [])
  }

  ghost predicate Stories(p: Pool) {
    && (forall i: nat | i < |p.list| :: PendingAt(p, i))
    && (forall s: nat :: Told(p, s))
  }

  ghost predicate Inv(p: Pool) {
    && |p.tickets| == p.midCount
    && Increasing(p.list)
    && Conserved(p)
    && Stories(p)
  }

  // ----- about stories

  lemma {:induction false} StoryOfPrefix(a: seq<Happening>, b: seq<Happening>, s: nat, n: nat)
    requires n <= |a|
    ensures StoryUpTo(a + b, s, n) == StoryUpTo(a, s, n)
  {
    if n > 0 { StoryOfPrefix(a, b, s, n - 1); }
  }

  /** A log that goes on without message s. */
  lemma {:induction false} OthersGoOn(a: seq<Happening>, b: seq<Happening>, s: nat, n: nat)
    requires n <= |b| && forall i | 0 <= i < |b| :: b[i].serial != s
    ensures StoryUpTo(a + b, s, |a| + n) == Story(a, s)
  {
    if n == 0 { StoryOfPrefix(a, b, s, |a|); } else { OthersGoOn(a, b, s, n - 1); }
  }

  /** A log that goes on about message s alone. */
  lemma {:induction false} OwnGoesOn(a: seq<Happening>, b: seq<Happening>, s: nat, n: nat)
    requires n <= |b| && forall i | 0 <= i < |b| :: b[i].serial == s
    ensures StoryUpTo(a + b, s, |a| + n) == Story(a, s) + b[..n]
  {
    if n == 0 {
      StoryOfPrefix(a, b, s, |a|);
    } else {
      OwnGoesOn(a, b, s, n - 1);
      assert b[..n] == b[..n - 1] + [b[n - 1]];
    }
  }

  /** The log grows by `more`, which is about message s alone. */
  lemma {:induction false} OneStoryGrows(log: seq<Happening>, more: seq<Happening>, s: nat, s': nat)
    requires forall i | 0 <= i < |more| :: more[i].serial == s
    ensures s' == s ==> Story(log + more, s') == Story(log, s) + more
    ensures s' != s ==> Story(log + more, s') == Story(log, s')
  {
    if s' == s {
      OwnGoesOn(log, more, s, |more|);
      assert more[..|more|] == more;
    } else {
      OthersGoOn(log, more, s', |more|);
    }
  }

  // ----- about a pass

  /** A log that goes on with the first n elements of a pass: the stories of messages
      that are not among them do not change. */
  lemma {:induction false} NoiseOfOthers(log: seq<Happening>, list: seq<WaitACKMsg>, rd: seq<Reading>, n: nat, s: nat)
    requires n <= |list| <= |rd|
    requires forall j | 0 <= j < n :: list[j].serial != s
    ensures Story(log + Noise(list, rd, n), s) == Story(log, s)
  {
    if n == 0 {
      assert log + [] == log;
    } else {
      NoiseOfOthers(log, list, rd, n - 1, s);
      NoiseStep(log, list, rd, n, s);
    }
  }

  lemma {:induction false} NoiseStep(log: seq<Happening>, list: seq<WaitACKMsg>, rd: seq<Reading>, n: nat, s: nat)
    requires 0 < n <= |list| <= |rd|
    ensures var before, after := Story(log + Noise(list, rd, n - 1), s), Story(log + Noise(list, rd, n), s);
      if list[n - 1].serial != s then after == before
      else after == before + Happens(list[n - 1], rd[n - 1], FateOf(list, rd, n - 1))
  {
    var h := Happens(list[n - 1], rd[n - 1], FateOf(list, rd, n - 1));
    assert log + Noise(list, rd, n) == log + Noise(list, rd, n - 1) + h;
    OneStoryGrows(log + Noise(list, rd, n - 1), h, list[n - 1].serial, s);
  }

  /** A pass adds to a story only what happens at its message's own position. */
  lemma {:induction false} NoiseOf(log: seq<Happening>, list: seq<WaitACKMsg>, rd: seq<Reading>, n: nat, i: nat)
    requires i < n <= |list| <= |rd| && Increasing(list)
    ensures Story(log + Noise(list, rd, n), list[i].serial) ==
      Story(log, list[i].serial) + Happens(list[i], rd[i], FateOf(list, rd, i))
  {
    NoiseStep(log, list, rd, n, list[i].serial);
    if i == n - 1 { NoiseOfOthers(log, list, rd, n - 1, list[i].serial); } else { NoiseOf(log, list, rd, n - 1, i); }
  }

  /** Every survivor comes from one position at or after its own. */
  lemma {:induction false} SurvivorFrom(list: seq<WaitACKMsg>, rd: seq<Reading>, n: nat, k: nat) returns (i: nat)
    requires n <= |list| <= |rd| && k < |Kept(list, rd, n)|
    ensures k <= i < n && !FateOf(list, rd, i).Expired?
    ensures Kept(list, rd, n)[k] == After(list[i], rd[i], FateOf(list, rd, i))[0]
    ensures k == |Kept(list, rd, i)|
  {
    if k < |Kept(list, rd, n - 1)| { i := SurvivorFrom(list, rd, n - 1, k); } else {
      KeptLength(list, rd, n - 1);
      i := n - 1;
    }
  }

  lemma {:induction false} KeptLength(list: seq<WaitACKMsg>, rd: seq<Reading>, n: nat)
    requires n <= |list| <= |rd|
    ensures |Kept(list, rd, n)| <= n
    ensures n > 0 && FateOf(list, rd, n - 1).Expired? ==> |Kept(list, rd, n)| < n
  {
    if n > 0 { KeptLength(list, rd, n - 1); }
  }

  /** Every position that does not expire survives, in order. */
  lemma {:induction false} SurvivorAt(list: seq<WaitACKMsg>, rd: seq<Reading>, n: nat, i: nat)
    requires i < n <= |list| <= |rd| && !FateOf(list, rd, i).Expired?
    ensures |Kept(list, rd, i)| < |Kept(list, rd, n)|
    ensures Kept(list, rd, n)[|Kept(list, rd, i)|] == After(list[i], rd[i], FateOf(list, rd, i))[0]
  {
    if i < n - 1 { SurvivorAt(list, rd, n - 1, i); }
  }

  lemma {:induction false} SurvivorsKeepOrder(list: seq<WaitACKMsg>, rd: seq<Reading>, n: nat)
    requires n <= |list| <= |rd| && Increasing(list)
    ensures Increasing(Kept(list, rd, n))
    ensures forall k, j | 0 <= k < |Kept(list, rd, n)| && n <= j < |list| ::
      Kept(list, rd, n)[k].serial < list[j].serial
  {
    if n > 0 { SurvivorsKeepOrder(list, rd, n - 1); }
  }

  lemma {:induction false} WhoExpires(list: seq<WaitACKMsg>, rd: seq<Reading>, n: nat, s: nat)
    requires n <= |list| <= |rd|
    ensures s in ExpiredIn(list, rd, n) <==>
      exists i | 0 <= i < n :: list[i].serial == s && FateOf(list, rd, i).Expired?
  {
    if n > 0 { WhoExpires(list, rd, n - 1, s); }
  }

  // ----- one event

  /** The unsigned difference of two tick counts never exceeds the true elapsed time,
      and equals it below 2^32 milliseconds, across any number of wraps. */
  lemma {:induction false} TicksMeasureTime(now: nat, last: nat)
    requires last <= now
    ensures Elapsed(Tick(now), Tick(last)) == (now - last) % WORD <= now - last
    ensures now - last < WORD ==> Elapsed(Tick(now), Tick(last)) == now - last
  {
  }

  lemma {:induction false} DelayedResidue(x: nat, d: nat)
    ensures d % WORD == 0 ==> (x + d) % WORD == x % WORD <= x
    ensures x + d % WORD < WORD ==> (x + d) % WORD == x + d % WORD
  {
  }

  lemma {:induction false} SentFarFromLast(m: WaitACKMsg, t: Ticket, st: seq<Happening>, clock: nat, r: Reading)
    requires PendingStory(m, t, st, clock) && !t.forever && Due(m, r) && clock <= r.test <= r.sent
    ensures SendsOnly(st + [SendOf(m, r.sent)], m.serial, t) && Spaced(st + [SendOf(m, r.sent)], t.stamp)
  {
    TicksMeasureTime(r.test, m.stampedAt);
    DelayedResidue(r.test - TimeOf(st[0]), TimeOf(st[0]) - t.stamp);
    var st' := st + [SendOf(m, r.sent)];
    forall i | 0 < i < |st'| ensures FarFromLast(st', t.stamp, i) {
      if i < |st| { assert FarFromLast(st, t.stamp, i); }
    }
  }

  /** What a pass does to the story of one message. */
  lemma {:induction false} PassStory(m: WaitACKMsg, t: Ticket, st: seq<Happening>, clock: nat, r: Reading, end: nat,
        f: Fate)
    requires PendingStory(m, t, st, clock) && clock <= r.test <= r.sent <= r.stamp <= end
    requires f.Expired? || f.Resent? ==> Due(m, r)
    requires f.Expired? ==> m.leftTryTimes == 0
    requires f.Resent? ==> m.leftTryTimes != 0
    ensures f.Expired? ==> ExpiredStory(m.serial, t, st + Happens(m, r, f))
    ensures !f.Expired? ==> PendingStory(After(m, r, f)[0], t, st + Happens(m, r, f), end)
  {
    var st' := st + Happens(m, r, f);
    match f
    case Expired =>
      SentFarFromLast(m, t, st, clock, r);
      var sends := st + [SendOf(m, r.sent)];
      assert st' == sends + FailureCall(m);
      assert st'[..|sends|] == sends && st'[|sends|..] == FailureCall(m);
    case Resent =>
      if !t.forever { SentFarFromLast(m, t, st, clock, r); }
    case _ => assert st' == st;
  }

  lemma {:induction false} DeleteStory(m: WaitACKMsg, t: Ticket, st: seq<Happening>, clock: nat, a: Ack)
    requires PendingStory(m, t, st, clock) && CanTell(m, a)
    ensures DeletedStory(m.serial, t, a, st + AckCall(m, a))
  {
    var st' := st + AckCall(m, a);
    assert AckCall(m, a) == AckCall(NewMsg(m.serial, t), a);
    assert st'[..|st|] == st && st'[|st|..] == AckCall(m, a);
  }

  lemma {:induction false} IsPending(list: seq<WaitACKMsg>, i: nat)
    requires i < |list|
    ensures Pending(list, list[i].serial)
  {
  }

  /** Where a message that waits is. */
  lemma {:induction false} FindPending(list: seq<WaitACKMsg>, s: nat) returns (i: nat)
    requires Pending(list, s)
    ensures i < |list| && list[i].serial == s
  {
    i :| 0 <= i < |list| && list[i].serial == s;
  }

  lemma {:induction false} AddConserves(p: Pool, e: Event)
    requires Inv(p) && e.Add?
    ensures Increasing(Apply(p, e).list) && Conserved(Apply(p, e))
  {
    var q, n := Apply(p, e), p.midCount;
    forall i: nat | i < |p.list| ensures p.list[i].serial < n {
      IsPending(p.list, i);
      assert Placed(p, p.list[i].serial);
    }
    forall s: nat ensures Placed(q, s) {
      assert Placed(p, s);
      IsPending(q.list, |p.list|);
      if Pending(p.list, s) {
        var i := FindPending(p.list, s);
        assert q.list[i] == p.list[i];
        IsPending(q.list, i);
      }
    }
  }

  lemma {:induction false} AddKeeps(p: Pool, e: Event)
    requires Inv(p) && e.Add? && Timely(p, e)
    ensures Inv(Apply(p, e))
  {
    var q, n, m := Apply(p, e), p.midCount, NewMsg(p.midCount, e.ticket);
    AddConserves(p, e);
    forall i: nat | i < |q.list| ensures PendingAt(q, i) {
      OneStoryGrows(p.log, [SendOf(m, e.sent)], n, q.list[i].serial);
      if i < |p.list| { assert PendingAt(p, i); } else { assert Told(p, n); }
    }
    forall s: nat ensures Told(q, s) {
      OneStoryGrows(p.log, [SendOf(m, e.sent)], n, s);
      assert Told(p, s) && Placed(p, s);
    }
  }

  lemma {:induction false} PendingWithout(list: seq<WaitACKMsg>, k: nat, s: nat)
    requires k < |list| && Increasing(list)
    ensures Pending(list[..k] + list[k + 1..], s) <==> Pending(list, s) && s != list[k].serial
  {
    var rest := list[..k] + list[k + 1..];
    if Pending(list, s) && s != list[k].serial {
      var i := FindPending(list, s);
      IsPending(rest, if i < k then i else i - 1);
    }
    if Pending(rest, s) {
      var i := FindPending(rest, s);
      IsPending(list, if i < k then i else i + 1);
    }
  }

  lemma {:induction false} DeleteConserves(p: Pool, e: Event)
    requires Inv(p) && e.Delete? && Has(p.list, e.mid) && Defined(p, e)
    ensures Increasing(Apply(p, e).list) && Conserved(Apply(p, e))
    ensures !Pending(Apply(p, e).list, p.list[First(p.list, e.mid)].serial)
  {
    var q, k := Apply(p, e), First(p.list, e.mid);
    IsPending(p.list, k);
    forall s: nat ensures Placed(q, s) {
      assert Placed(p, s);
      PendingWithout(p.list, k, s);
    }
    PendingWithout(p.list, k, p.list[k].serial);
  }

  /** The position before a deletion of the message that is at i after it. */
  function Before(i: nat, k: nat): nat { if i < k then i else i + 1 }

  lemma {:induction false} DeleteKeepsWaiting(p: Pool, e: Event, i: nat)
    requires Inv(p) && e.Delete? && Has(p.list, e.mid) && Defined(p, e) && i < |Apply(p, e).list|
    ensures PendingAt(Apply(p, e), i)
  {
    var k, j := First(p.list, e.mid), Before(i, First(p.list, e.mid));
    assert Apply(p, e).list[i] == p.list[j] && p.list[j].serial != p.list[k].serial;
    assert PendingAt(p, j);
    OneStoryGrows(p.log, AckCall(p.list[k], e.ack), p.list[k].serial, p.list[j].serial);
  }

  lemma {:induction false} DeleteTells(p: Pool, e: Event, s: nat)
    requires Inv(p) && e.Delete? && Has(p.list, e.mid) && Defined(p, e)
    ensures Told(Apply(p, e), s)
  {
    var k := First(p.list, e.mid);
    var m := p.list[k];
    IsPending(p.list, k);
    assert PendingAt(p, k) && Told(p, s) && Placed(p, s);
    OneStoryGrows(p.log, AckCall(m, e.ack), m.serial, s);
    if s == m.serial { DeleteStory(m, p.tickets[s], Story(p.log, s), p.clock, e.ack); }
  }

  lemma {:induction false} DeleteKeeps(p: Pool, e: Event)
    requires Inv(p) && e.Delete? && Has(p.list, e.mid) && Defined(p, e)
    ensures Inv(Apply(p, e))
  {
    var q := Apply(p, e);
    DeleteConserves(p, e);
    forall i: nat | i < |q.list| ensures PendingAt(q, i) { DeleteKeepsWaiting(p, e, i); }
    forall s: nat ensures Told(q, s) { DeleteTells(p, e, s); }
  }

  lemma {:induction false} SurvivorWasPending(list: seq<WaitACKMsg>, rd: seq<Reading>, s: nat)
    requires Increasing(list) && |rd| == |list| && Pending(Kept(list, rd, |list|), s)
    ensures Pending(list, s) && s !in ExpiredIn(list, rd, |list|)
  {
    var k := FindPending(Kept(list, rd, |list|), s);
    var i := SurvivorFrom(list, rd, |list|, k);
    IsPending(list, i);
    WhoExpires(list, rd, |list|, s);
  }

  lemma {:induction false} PendingMeetsItsFate(list: seq<WaitACKMsg>, rd: seq<Reading>, s: nat)
    requires |rd| == |list| && Pending(list, s)
    ensures Pending(Kept(list, rd, |list|), s) || s in ExpiredIn(list, rd, |list|)
  {
    var i := FindPending(list, s);
    WhoExpires(list, rd, |list|, s);
    if !FateOf(list, rd, i).Expired? {
      SurvivorAt(list, rd, |list|, i);
      IsPending(Kept(list, rd, |list|), |Kept(list, rd, i)|);
    }
  }

  /** Who is still there after a pass. */
  lemma {:induction false} PendingAfter(p: Pool, e: Event, s: nat)
    requires Increasing(p.list) && e.Traverse? && |e.readings| == |p.list|
    ensures var q := Apply(p, e);
      && (Pending(q.list, s) || s in q.expired <==> Pending(p.list, s) || s in p.expired)
      && (Pending(q.list, s) ==> Pending(p.list, s) && (s in q.expired ==> s in p.expired))
  {
    WhoExpires(p.list, e.readings, |p.list|, s);
    if Pending(Apply(p, e).list, s) { SurvivorWasPending(p.list, e.readings, s); }
    if Pending(p.list, s) { PendingMeetsItsFate(p.list, e.readings, s); }
  }

  lemma {:induction false} TraverseConserves(p: Pool, e: Event)
    requires Inv(p) && e.Traverse? && Timely(p, e)
    ensures Increasing(Apply(p, e).list) && Conserved(Apply(p, e))
  {
    var q := Apply(p, e);
    SurvivorsKeepOrder(p.list, e.readings, |p.list|);
    forall s: nat ensures Placed(q, s) {
      assert Placed(p, s);
      PendingAfter(p, e, s);
    }
  }

  /** The story of the message at position i, a pass later. */
  lemma {:induction false} TraverseStory(p: Pool, e: Event, i: nat)
    requires Inv(p) && e.Traverse? && Timely(p, e) && i < |p.list|
    ensures var m, q, f := p.list[i], Apply(p, e), FateOf(p.list, e.readings, i);
      && m.serial < |p.tickets|
      && (f.Expired? ==> ExpiredStory(m.serial, p.tickets[m.serial], Story(q.log, m.serial)))
      && (!f.Expired? ==>
            PendingStory(After(m, e.readings[i], f)[0], p.tickets[m.serial], Story(q.log, m.serial), q.clock))
  {
    var m := p.list[i];
    assert PendingAt(p, i);
    NoiseOf(p.log, p.list, e.readings, |p.list|, i);
    PassStory(m, p.tickets[m.serial], Story(p.log, m.serial), p.clock, e.readings[i], e.end,
      FateOf(p.list, e.readings, i));
  }

  lemma {:induction false} TraverseTells(p: Pool, e: Event, s: nat)
    requires Inv(p) && e.Traverse? && Timely(p, e)
    ensures Told(Apply(p, e), s)
  {
    var q := Apply(p, e);
    assert Told(p, s) && Placed(p, s);
    PendingAfter(p, e, s);
    if Pending(p.list, s) {
      WhoExpires(p.list, e.readings, |p.list|, s);
      if s in q.expired {
        var i: nat :| i < |p.list| && p.list[i].serial == s && FateOf(p.list, e.readings, i).Expired?;
        TraverseStory(p, e, i);
      }
    } else {
      NoiseOfOthers(p.log, p.list, e.readings, |p.list|, s);
    }
  }

  lemma {:induction false} TraverseKeeps(p: Pool, e: Event)
    requires Inv(p) && e.Traverse? && Timely(p, e)
    ensures Inv(Apply(p, e))
  {
    var q := Apply(p, e);
    TraverseConserves(p, e);
    forall k: nat | k < |q.list| ensures PendingAt(q, k) {
      var i := SurvivorFrom(p.list, e.readings, |p.list|, k);
      TraverseStory(p, e, i);
    }
    forall s: nat ensures Told(q, s) { TraverseTells(p, e, s); }
  }

  lemma {:induction false} ApplyKeeps(p: Pool, e: Event)
    requires Inv(p) && CanHappen(p, e)
    ensures Inv(Apply(p, e))
  {
    match e
    case Add(_, _) => AddKeeps(p, e);
    case Delete(_, _) => if Has(p.list, e.mid) { DeleteKeeps(p, e); }
    case Traverse(_, _) => TraverseKeeps(p, e);
  }

  lemma {:induction false} RunKeeps(p: Pool, es: seq<Event>)
    requires Inv(p) && Valid(p, es)
    ensures Inv(RunFrom(p, es))
    decreases |es|
  {
    if es != [] {
      ApplyKeeps(p, es[0]);
      RunKeeps(Apply(p, es[0]), es[1..]);
    }
  }

  // ----- main results

  /** MAIN RESULT. After any run at all, every message ever added is pending, deleted
      or expired, in exactly one way, and its part of the log is as its state says. */
  lemma {:induction false} EveryRunIsConserved(es: seq<Event>)
    requires Valid(EMPTY, es)
    ensures Inv(RunFrom(EMPTY, es))
  {
    RunKeeps(EMPTY, es);
  }

  function CountSends(h: seq<Happening>): nat {
    if h == [] then 0 else (if h[0].Sent? then 1 else 0) + CountSends(h[1..])
  }

  function CountCalls(h: seq<Happening>): nat {
    if h == [] then 0 else (if h[0].Called? then 1 else 0) + CountCalls(h[1..])
  }

  lemma {:induction false} CountStory(sends: seq<Happening>, calls: seq<Happening>, s: nat, t: Ticket)
    requires SendsOnly(sends, s, t) && |calls| <= 1 && forall i | 0 <= i < |calls| :: calls[i].Called?
    ensures CountSends(sends + calls) == |sends| && CountCalls(sends + calls) == |calls|
  {
    var h := sends + calls;
    if sends == [] {
      assert h == calls;
      if calls != [] { assert calls[1..] == []; }
    } else {
      assert h[1..] == sends[1..] + calls && IsSend(sends[0], s, t);
      forall i | 0 <= i < |sends| - 1 ensures IsSend(sends[1..][i], s, t) { assert IsSend(sends[i + 1], s, t); }
      CountStory(sends[1..], calls, s, t);
    }
  }

  /** How often message s has been sent and its callback called. */
  predicate LifeIs(p: Pool, s: nat)
    requires s < |p.tickets|
  {
    var t, sends, calls := p.tickets[s], CountSends(Story(p.log, s)), CountCalls(Story(p.log, s));
    && calls == (if Pending(p.list, s) || t.callBack.None? then 0 else 1)
    && (t.forever ==> s !in p.expired)
    && (s in p.expired ==> sends == MAX_TRY_TIMES + 1)
    && (!t.forever && s in p.deleted ==> 1 <= sends <= MAX_TRY_TIMES)
    && forall i | 0 <= i < |p.list| && p.list[i].serial == s && !t.forever ::
         sends + p.list[i].leftTryTimes == MAX_TRY_TIMES
  }

  lemma {:induction false} LifeIn(p: Pool, s: nat)
    requires Inv(p) && s < |p.tickets|
    ensures LifeIs(p, s)
  {
    assert Placed(p, s) && Told(p, s);
    var t, st := p.tickets[s], Story(p.log, s);
    if Pending(p.list, s) {
      forall i: nat | i < |p.list| && p.list[i].serial == s
        ensures PendingStory(p.list[i], t, st, p.clock) { assert PendingAt(p, i); }
      var i := FindPending(p.list, s);
      CountStory(st, [], s, t);
      assert st + [] == st;
    } else {
      var calls := if s in p.expired then FailureCall(NewMsg(s, t)) else AckCall(NewMsg(s, t), p.deleted[s]);
      var k := |st| - |calls|;
      assert st == st[..k] + st[k..];
      CountStory(st[..k], calls, s, t);
      forall i: nat | i < |p.list| && p.list[i].serial == s ensures false { IsPending(p.list, i); }
    }
  }

  /** MAIN RESULT. The counts are right after any run, whatever has been added,
      acknowledged and traversed in between. */
  lemma {:induction false} LifeOfMessage(es: seq<Event>, s: nat)
    requires Valid(EMPTY, es) && s < |RunFrom(EMPTY, es).tickets|
    ensures LifeIs(RunFrom(EMPTY, es), s)
  {
    EveryRunIsConserved(es);
    LifeIn(RunFrom(EMPTY, es), s);
  }

  lemma {:induction false} SpacedIn(p: Pool, s: nat, i: nat)
    requires Inv(p) && s < |p.tickets| && !p.tickets[s].forever
    requires 0 < i < |Story(p.log, s)| && Story(p.log, s)[i].Sent?
    ensures Story(p.log, s)[i - 1].Sent? && FarFromLast(Story(p.log, s), p.tickets[s].stamp, i)
  {
    assert Placed(p, s) && Told(p, s);
    var t, st := p.tickets[s], Story(p.log, s);
    var sends := st;
    if Pending(p.list, s) {
      var j := FindPending(p.list, s);
      assert PendingAt(p, j);
    } else {
      var calls := if s in p.expired then FailureCall(NewMsg(s, t)) else AckCall(NewMsg(s, t), p.deleted[s]);
      var k := |st| - |calls|;
      sends := st[..k];
      forall j | k <= j < |st| ensures st[j].Called? { assert st[j] == st[k..][j - k]; }
    }
    assert IsSend(sends[i - 1], s, t) && IsSend(sends[i], s, t) && FarFromLast(sends, t.stamp, i);
    assert sends[0] == st[0] && sends[1] == st[1];
  }

  /** Two consecutive sends of a message that is not forever are more than the interval
      apart in true time, over any number of wraps of the tick count; only before the
      first repetition can the time AddMsg took between its stamp and its send be lost. */
  lemma {:induction false} SendsAreSpaced(es: seq<Event>, s: nat, i: nat)
    requires Valid(EMPTY, es) && s < |RunFrom(EMPTY, es).tickets| && !RunFrom(EMPTY, es).tickets[s].forever
    requires 0 < i < |Story(RunFrom(EMPTY, es).log, s)| && Story(RunFrom(EMPTY, es).log, s)[i].Sent?
    ensures var st, t := Story(RunFrom(EMPTY, es).log, s), RunFrom(EMPTY, es).tickets[s];
      && st[i - 1].Sent?
      && (i > 1 ==> st[i].at - st[i - 1].at > RESEND_AFTER)
      && (i == 1 ==> st[1].at - st[0].at > RESEND_AFTER - (st[0].at - t.stamp))
  {
    EveryRunIsConserved(es);
    SpacedIn(RunFrom(EMPTY, es), s, i);
  }

  // ----- what the peer and the callback are told

  lemma {:induction false} InStory(log: seq<Happening>, n: nat, i: nat)
    requires i < n <= |log|
    ensures log[i] in StoryUpTo(log, log[i].serial, n)
  {
    if i < n - 1 { InStory(log, n - 1, i); }
  }

  /** Every send and every call in the log of any run says what its message was added
      with: sends carry the peer, the id and the content; the one call is of the given
      callback, with the failure if the message has expired, else as it was acknowledged. */
  lemma {:induction false} LogTells(es: seq<Event>, i: nat)
    requires Valid(EMPTY, es) && i < |RunFrom(EMPTY, es).log|
    ensures var p := RunFrom(EMPTY, es); var h := p.log[i]; var s := h.serial;
      && s < |p.tickets|
      && var t := p.tickets[s]; var text := Envelope(s % WORD, t.content);
      match h
      case Sent(_, at, _, _, _) => h == Sent(s, at, t.ip, t.port, text)
      case Called(_, _, _, _, _, _) =>
        && t.callBack.Some?
        && if s in p.expired || (s in p.deleted && !p.deleted[s].hasSend) then
             h == Called(s, t.callBack.value, false, t.ip, t.port, Unacknowledged(text))
           else
             && s in p.deleted && p.deleted[s].msg.Some?
             && var a := p.deleted[s];
             h == Called(s, t.callBack.value, true, if a.ip.Some? then a.ip.value else t.ip, t.port, Reply(a.msg.value))
  {
    var p := RunFrom(EMPTY, es);
    EveryRunIsConserved(es);
    var s := p.log[i].serial;
    InStory(p.log, |p.log|, i);
    assert Told(p, s) && Placed(p, s);
    var st := Story(p.log, s);
    var k: nat :| k < |st| && st[k] == p.log[i];
    if Pending(p.list, s) {
      var j := FindPending(p.list, s);
      assert PendingAt(p, j) && IsSend(st[k], s, p.tickets[s]);
    } else {
      ToldAt(p, s, k);
    }
  }

  /** A happening of a closed story is a send or its call. */
  lemma {:induction false} ToldAt(p: Pool, s: nat, k: nat)
    requires Inv(p) && s < |p.tickets| && !Pending(p.list, s) && k < |Story(p.log, s)|
    ensures var t, h := p.tickets[s], Story(p.log, s)[k];
      if h.Sent? then IsSend(h, s, t)
      else if s in p.expired then FailureCall(NewMsg(s, t)) == [h]
      else s in p.deleted && CanTell(NewMsg(s, t), p.deleted[s]) && AckCall(NewMsg(s, t), p.deleted[s]) == [h]
  {
    assert Told(p, s) && Placed(p, s);
    var t, st := p.tickets[s], Story(p.log, s);
    var calls := if s in p.expired then FailureCall(NewMsg(s, t)) else AckCall(NewMsg(s, t), p.deleted[s]);
    var n := |st| - |calls|;
    if k < n { assert st[..n][k] == st[k] && IsSend(st[..n][k], s, t); } else { assert st[n..][k - n] == st[k]; }
  }

  /** An addition, told without the functions of the model. */
  lemma {:induction false} AddDoes(p: Pool, t: Ticket, sent: nat)
    ensures var q, mid := Apply(p, Add(t, sent)), p.midCount % WORD;
      && q.list == p.list + [
           WaitACKMsg(mid, if t.forever then ETERNAL_TRY_TIMES else MAX_TRY_TIMES - 1, t.stamp % WORD,
                      t.ip, t.port, Envelope(mid, t.content), t.callBack, p.midCount, t.stamp)]
      && q.log == p.log + [Sent(p.midCount, sent, t.ip, t.port, Envelope(mid, t.content))]
      && q.midCount == p.midCount + 1 && q.tickets == p.tickets + [t]
      && q.deleted == p.deleted && q.expired == p.expired
  {
  }

  /** The sends of the log are in the order of time. */
  predicate InOrder(log: seq<Happening>, clock: nat) {
    && (forall i | 0 <= i < |log| :: TimeOf(log[i]) <= clock)
    && forall i, j | 0 <= i < j < |log| && log[i].Sent? && log[j].Sent? :: TimeOf(log[i]) <= TimeOf(log[j])
  }

  lemma {:induction false} OrderGrows(log: seq<Happening>, clock: nat, more: seq<Happening>, at: nat, end: nat)
    requires InOrder(log, clock) && clock <= at <= end
    requires forall h | h in more :: h.Sent? ==> h.at == at
    ensures InOrder(log + more, end)
  {
    forall i | |log| <= i < |log + more| ensures (log + more)[i].Sent? ==> TimeOf((log + more)[i]) == at {
      assert (log + more)[i] in more;
    }
  }

  lemma {:induction false} NoiseInOrder(p: Pool, rd: seq<Reading>, end: nat, n: nat)
    requires Timely(p, Traverse(rd, end)) && n <= |rd| && InOrder(p.log, p.clock)
    ensures InOrder(p.log + Noise(p.list, rd, n), if n == 0 then p.clock else rd[n - 1].stamp)
  {
    if n == 0 {
      assert p.log + [] == p.log;
    } else {
      NoiseInOrder(p, rd, end, n - 1);
      var h := Happens(p.list[n - 1], rd[n - 1], FateOf(p.list, rd, n - 1));
      OrderGrows(p.log + Noise(p.list, rd, n - 1), if n == 1 then p.clock else rd[n - 2].stamp, h, rd[n - 1].sent,
        rd[n - 1].stamp);
      assert p.log + Noise(p.list, rd, n) == p.log + Noise(p.list, rd, n - 1) + h;
    }
  }

  lemma {:induction false} OrderIsKept(p: Pool, e: Event)
    requires CanHappen(p, e) && InOrder(p.log, p.clock)
    ensures InOrder(Apply(p, e).log, Apply(p, e).clock)
  {
    match e
    case Add(t, sent) => OrderGrows(p.log, p.clock, [SendOf(NewMsg(p.midCount, t), sent)], sent, sent);
    case Delete(mid, ack) =>
      if Has(p.list, mid) { OrderGrows(p.log, p.clock, AckCall(p.list[First(p.list, mid)], ack), p.clock, p.clock); }
    case Traverse(rd, end) => NoiseInOrder(p, rd, end, |rd|);
  }

  /** Whatever the run, all messages together are sent in the order of the log. */
  lemma {:induction false} SendsAreInOrder(p: Pool, es: seq<Event>)
    requires Valid(p, es) && InOrder(p.log, p.clock)
    ensures InOrder(RunFrom(p, es).log, RunFrom(p, es).clock)
    decreases |es|
  {
    if es != [] {
      OrderIsKept(p, es[0]);
      SendsAreInOrder(Apply(p, es[0]), es[1..]);
    }
  }

  // ----- the first gap

  /** The first repetition of message s, if there has been one, kept its distance. */
  predicate FirstGapKept(p: Pool, s: nat) {
    var st := Story(p.log, s);
    |st| >= 2 && st[1].Sent? ==> TimeOf(st[1]) - TimeOf(st[0]) > RESEND_AFTER
  }

  lemma {:induction false} StoryGrows(log: seq<Happening>, s: nat, n: nat, m: nat)
    requires n <= m <= |log|
    ensures StoryUpTo(log, s, n) <= StoryUpTo(log, s, m)
  {
    if n < m { StoryGrows(log, s, n, m - 1); }
  }

  /** Nothing that has happened is forgotten. */
  lemma {:induction false} HistoryGrows(p: Pool, es: seq<Event>, s: nat)
    requires Valid(p, es)
    ensures p.tickets <= RunFrom(p, es).tickets && Story(p.log, s) <= Story(RunFrom(p, es).log, s)
    decreases |es|
  {
    if es != [] {
      var q := Apply(p, es[0]);
      assert p.log <= q.log && q.log == p.log + q.log[|p.log|..];
      StoryOfPrefix(p.log, q.log[|p.log|..], s, |p.log|);
      StoryGrows(q.log, s, |p.log|, |q.log|);
      HistoryGrows(q, es[1..], s);
    }
  }

  lemma {:induction false} RunAppend(p: Pool, es: seq<Event>, e: Event)
    requires Valid(p, es) && CanHappen(RunFrom(p, es), e)
    ensures Valid(p, es + [e]) && RunFrom(p, es + [e]) == Apply(RunFrom(p, es), e)
    decreases |es|
  {
    if es == [] {
      assert es + [e] == [e] && [e][1..] == [];
    } else {
      assert (es + [e])[1..] == es[1..] + [e];
      RunAppend(Apply(p, es[0]), es[1..], e);
    }
  }

  /** A run that leaves the messages from position k on, and the story of message s. */
  ghost predicate Clears(p: Pool, es: seq<Event>, q: Pool, k: nat, s: nat)
    requires k <= |p.list|
  {
    && Valid(p, es) && q == RunFrom(p, es)
    && q.list == p.list[k..] && q.clock == p.clock && Story(q.log, s) == Story(p.log, s)
  }

  /** Acknowledging the message in front. */
  lemma {:induction false} ClearFirst(p: Pool, es: seq<Event>, q: Pool, k: nat, s: nat, e: Event)
    requires k < |p.list| && Clears(p, es, q, k, s) && Inv(q) && q.list[0].serial != s
    requires e == Delete(q.list[0].mid, Ack(false, None, None))
    ensures Defined(q, e) && Inv(Apply(q, e)) && Clears(p, es + [e], Apply(q, e), k + 1, s)
  {
    var m := q.list[0];
    assert Has(q.list, m.mid) && First(q.list, m.mid) == 0;
    DeleteKeeps(q, e);
    OneStoryGrows(q.log, AckCall(m, e.ack), m.serial, s);
    RunAppend(p, es, e);
  }

  /** Acknowledging the k messages in front, one by one, leaves the others alone. */
  lemma {:induction false} ClearFront(p: Pool, k: nat, s: nat) returns (es: seq<Event>, q: Pool)
    requires Inv(p) && k <= |p.list| && forall j | 0 <= j < k :: p.list[j].serial != s
    ensures Inv(q) && Clears(p, es, q, k, s)
  {
    if k == 0 {
      es, q := [], p;
    } else {
      es, q := ClearFront(p, k - 1, s);
      var e := Delete(q.list[0].mid, Ack(false, None, None));
      ClearFirst(p, es, q, k - 1, s, e);
      es, q := es + [e], Apply(q, e);
    }
  }

  /** A pass over a message alone in the pool that has just been added. */
  lemma {:induction false} FirstPass(q: Pool, e: Event, s: nat, t: Ticket, now: nat)
    requires q.list == [NewMsg(s, t)] && q.clock <= now && t.stamp <= now
    requires e == Traverse([Reading(now, now, now)], now) && (now - t.stamp) % WORD > RESEND_AFTER
    ensures Timely(q, e) && Story(Apply(q, e).log, s) == Story(q.log, s) + [SendOf(NewMsg(s, t), now)]
  {
    var rd, m := [Reading(now, now, now)], NewMsg(s, t);
    TicksMeasureTime(now, t.stamp);
    assert FateOf(q.list, rd, 0).Resent?;
    assert Noise(q.list, rd, 1) == [SendOf(m, now)];
    OneStoryGrows(q.log, [SendOf(m, now)], s, s);
  }

  /** Whatever the pool, the distance between AddMsg's send and the first repetition is
      kept by every continuation exactly when the delay between AddMsg's stamp and its
      send is a multiple of the tick counter's range, in practice when there is none. */
  lemma {:induction false} FirstGapIsKept(p: Pool, t: Ticket, sent: nat)
    requires Inv(p) && !t.forever && p.clock <= t.stamp <= sent
    ensures (forall es: seq<Event> | Valid(Apply(p, Add(t, sent)), es) ::
              FirstGapKept(RunFrom(Apply(p, Add(t, sent)), es), p.midCount))
       <==> (sent - t.stamp) % WORD == 0
  {
    var p1, s := Apply(p, Add(t, sent)), p.midCount;
    var first := SendOf(NewMsg(s, t), sent);
    AddKeeps(p, Add(t, sent));
    assert Told(p, s);
    OneStoryGrows(p.log, [first], s, s);
    assert Story(p1.log, s) == [first];
    if (sent - t.stamp) % WORD == 0 {
      forall es | Valid(p1, es) ensures FirstGapKept(RunFrom(p1, es), s) { GapIsKept(p1, es, s, t, sent); }
    } else {
      var es := GapCanBreak(p1, s, t, sent);
      assert !FirstGapKept(RunFrom(p1, es), s);
    }
  }

  lemma {:induction false} GapIsKept(p: Pool, es: seq<Event>, s: nat, t: Ticket, sent: nat)
    requires Inv(p) && Valid(p, es) && s < |p.tickets| && p.tickets[s] == t && !t.forever
    requires Story(p.log, s) == [SendOf(NewMsg(s, t), sent)] && t.stamp <= sent && (sent - t.stamp) % WORD == 0
    ensures FirstGapKept(RunFrom(p, es), s)
  {
    var q := RunFrom(p, es);
    RunKeeps(p, es);
    HistoryGrows(p, es, s);
    var st := Story(q.log, s);
    assert st[0] == Story(p.log, s)[0];
    if |st| >= 2 && st[1].Sent? { SpacedIn(q, s, 1); }
  }

  /** With a delay that shows, the code's test passes before the interval is over. */
  lemma {:induction false} DueTooSoon(stamp: nat, sent: nat) returns (now: nat)
    requires stamp <= sent && (sent - stamp) % WORD > 0
    ensures sent <= now <= sent + RESEND_AFTER && (now - stamp) % WORD > RESEND_AFTER
  {
    var delay := (sent - stamp) % WORD;
    now := if delay > RESEND_AFTER then sent else sent + (RESEND_AFTER + 1 - delay);
    DelayedResidue(now - sent, sent - stamp);
    assert now - stamp == (now - sent) + (sent - stamp);
  }

  lemma {:induction false} PassBreaksGap(q: Pool, e: Event, s: nat, t: Ticket, sent: nat, now: nat)
    requires q.list == [NewMsg(s, t)] && Story(q.log, s) == [SendOf(NewMsg(s, t), sent)]
    requires q.clock == sent <= now <= sent + RESEND_AFTER && t.stamp <= sent
    requires e == Traverse([Reading(now, now, now)], now) && (now - t.stamp) % WORD > RESEND_AFTER
    ensures Timely(q, e) && !FirstGapKept(Apply(q, e), s)
  {
    FirstPass(q, e, s, t, now);
  }

  lemma {:induction false} GapCanBreak(p: Pool, s: nat, t: Ticket, sent: nat) returns (es: seq<Event>)
    requires Inv(p) && |p.list| > 0 && p.list[|p.list| - 1] == NewMsg(s, t)
    requires p.clock == sent && t.stamp <= sent && (sent - t.stamp) % WORD > 0
    requires Story(p.log, s) == [SendOf(NewMsg(s, t), sent)]
    ensures Valid(p, es) && !FirstGapKept(RunFrom(p, es), s)
  {
    var now := DueTooSoon(t.stamp, sent);
    var clear, q := ClearFront(p, |p.list| - 1, s);
    var e := Traverse([Reading(now, now, now)], now);
    PassBreaksGap(q, e, s, t, sent, now);
    RunAppend(p, clear, e);
    es := clear + [e];
  }

  // ----- forever messages

  /** The code's test in true time. */
  lemma {:induction false} DueInTrueTime(p: Pool, i: nat, r: Reading)
    requires Inv(p) && i < |p.list| && p.clock <= r.test
    ensures p.list[i].stampedAt <= r.test
    ensures Due(p.list[i], r) <==> (r.test - p.list[i].stampedAt) % WORD > RESEND_AFTER
  {
    assert PendingAt(p, i);
    TicksMeasureTime(r.test, p.list[i].stampedAt);
  }

  lemma {:induction false} ForeverMsg(p: Pool, i: nat)
    requires Inv(p) && i < |p.list| && p.list[i].serial < |p.tickets| && p.tickets[p.list[i].serial].forever
    ensures p.list[i].leftTryTimes == ETERNAL_TRY_TIMES && p.list[i].stampedAt == p.tickets[p.list[i].serial].stamp
  {
    assert PendingAt(p, i);
  }

  lemma {:induction false} UnexpiredStays(p: Pool, e: Event, i: nat)
    requires Inv(p) && e.Traverse? && |e.readings| == |p.list| && i < |p.list|
    requires !FateOf(p.list, e.readings, i).Expired?
    ensures Pending(Apply(p, e).list, p.list[i].serial)
  {
    SurvivorAt(p.list, e.readings, |p.list|, i);
    IsPending(Kept(p.list, e.readings, |p.list|), |Kept(p.list, e.readings, i)|);
  }

  lemma {:induction false} ExpiredNow(p: Pool, e: Event, i: nat)
    requires Inv(p) && e.Traverse? && |e.readings| == |p.list| && i < |p.list|
    ensures p.list[i].serial in Apply(p, e).expired <==> FateOf(p.list, e.readings, i).Expired?
  {
    WhoExpires(p.list, e.readings, |p.list|, p.list[i].serial);
    IsPending(p.list, i);
    assert Placed(p, p.list[i].serial);
  }

  lemma {:induction false} SurvivorIsIn(p: Pool, e: Event, i: nat)
    requires e.Traverse? && |e.readings| == |p.list| && i < |p.list| && !FateOf(p.list, e.readings, i).Expired?
    ensures After(p.list[i], e.readings[i], FateOf(p.list, e.readings, i))[0] in Apply(p, e).list
  {
    SurvivorAt(p.list, e.readings, |p.list|, i);
  }

  lemma {:induction false} ExpiredIsOut(p: Pool, e: Event, i: nat)
    requires Inv(p) && e.Traverse? && Timely(p, e) && i < |p.list| && FateOf(p.list, e.readings, i).Expired?
    ensures !Pending(Apply(p, e).list, p.list[i].serial)
  {
    ExpiredNow(p, e, i);
    TraverseConserves(p, e);
    assert Placed(Apply(p, e), p.list[i].serial);
  }

  /** The fate of a position, from who expired and from true time. */
  lemma {:induction false} FateInTime(p: Pool, e: Event, i: nat)
    requires Inv(p) && e.Traverse? && Timely(p, e) && i < |p.list|
    ensures FateOf(p.list, e.readings, i) ==
      if i > 0 && p.list[i - 1].serial in Apply(p, e).expired then Skipped
      else if (e.readings[i].test - p.list[i].stampedAt) % WORD <= RESEND_AFTER then Waiting
      else if p.list[i].leftTryTimes == 0 then Expired else Resent
    ensures p.list[i].serial in Apply(p, e).expired <==> FateOf(p.list, e.readings, i).Expired?
  {
    DueInTrueTime(p, i, e.readings[i]);
    ExpiredNow(p, e, i);
    if i > 0 { ExpiredNow(p, e, i - 1); }
  }

  /** What a pass does to the message at position i, told without the fates. If the one
      before it expires in this pass, or its time has not come, nothing happens to it.
      Otherwise it is sent; without tries left it then expires and its callback is told,
      else a try is used and it is stamped with the clock read after the send, unless it
      is forever. */
  lemma {:induction false} PassDoes(p: Pool, e: Event, i: nat)
    requires Inv(p) && e.Traverse? && Timely(p, e) && i < |p.list|
    ensures var m, r, q := p.list[i], e.readings[i], Apply(p, e); var s := m.serial;
      && s < |p.tickets|
      && var t, text := p.tickets[s], Envelope(s % WORD, p.tickets[s].content);
      var send := [Sent(s, r.sent, t.ip, t.port, text)];
      if (i > 0 && p.list[i - 1].serial in q.expired) || (r.test - m.stampedAt) % WORD <= RESEND_AFTER then
        m in q.list && s !in q.expired && Story(q.log, s) == Story(p.log, s)
      else if m.leftTryTimes == 0 then
        && !Pending(q.list, s) && s in q.expired
        && Story(q.log, s) == Story(p.log, s) + send +
             (if t.callBack.None? then []
              else [Called(s, t.callBack.value, false, t.ip, t.port, Unacknowledged(text))])
      else
        && s !in q.expired && Story(q.log, s) == Story(p.log, s) + send
        && (if t.forever then m
            else m.(leftTryTimes := m.leftTryTimes - 1, lastSendTime := r.stamp % WORD, stampedAt := r.stamp))
           in q.list
  {
    var m, rd := p.list[i], e.readings;
    assert PendingAt(p, i);
    FateInTime(p, e, i);
    NoiseOf(p.log, p.list, rd, |p.list|, i);
    if FateOf(p.list, rd, i).Expired? {
      ExpiredIsOut(p, e, i);
      var before := Story(p.log, m.serial);
      assert before + Happens(m, rd[i], Expired) == before + [SendOf(m, rd[i].sent)] + FailureCall(m);
    } else {
      SurvivorIsIn(p, e, i);
      assert Story(p.log, m.serial) + [] == Story(p.log, m.serial);
    }
  }

  /** What a pass leaves alone, and that it brings in nobody. */
  lemma {:induction false} PassKeepsOthers(p: Pool, e: Event, s: nat)
    requires Inv(p) && e.Traverse? && Timely(p, e)
    ensures var q := Apply(p, e);
      && q.midCount == p.midCount && q.tickets == p.tickets && q.deleted == p.deleted && q.clock == e.end
      && (!Pending(p.list, s) ==>
            !Pending(q.list, s) && Story(q.log, s) == Story(p.log, s) && (s in q.expired <==> s in p.expired))
  {
    PendingAfter(p, e, s);
    if !Pending(p.list, s) {
      forall i: nat | i < |p.list| ensures p.list[i].serial != s { IsPending(p.list, i); }
      NoiseOfOthers(p.log, p.list, e.readings, |p.list|, s);
      WhoExpires(p.list, e.readings, |p.list|, s);
    }
  }

  /** The exact schedule of a forever message: its stamp stays the one AddMsg took, and
      a pass sends it if and only if the message before it did not expire in that pass
      and the time since the stamp, modulo 2^32, exceeds the interval. It never leaves
      by itself. */
  lemma {:induction false} ForeverSchedule(p: Pool, e: Event, i: nat)
    requires Inv(p) && e.Traverse? && Timely(p, e) && i < |p.list| && p.list[i].serial < |p.tickets|
    requires p.tickets[p.list[i].serial].forever
    ensures var s, rd, q := p.list[i].serial, e.readings, Apply(p, e);
      var stamp := p.tickets[s].stamp;
      var sends := (i == 0 || !FateOf(p.list, rd, i - 1).Expired?) && (rd[i].test - stamp) % WORD > RESEND_AFTER;
      && p.list[i].stampedAt == stamp && Pending(q.list, s)
      && Story(q.log, s) == Story(p.log, s) + (if sends then [SendOf(p.list[i], rd[i].sent)] else [])
  {
    ForeverMsg(p, i);
    DueInTrueTime(p, i, e.readings[i]);
    NoiseOf(p.log, p.list, e.readings, |p.list|, i);
    UnexpiredStays(p, e, i);
  }

  /** So for one interval after every wrap of the elapsed ticks it is not sent. */
  lemma {:induction false} ForeverPausesAtWrap(p: Pool, e: Event, i: nat, wraps: nat)
    requires Inv(p) && e.Traverse? && Timely(p, e) && i < |p.list| && p.list[i].serial < |p.tickets|
    requires p.tickets[p.list[i].serial].forever
    requires var since := e.readings[i].test - p.tickets[p.list[i].serial].stamp;
      wraps * WORD <= since <= wraps * WORD + RESEND_AFTER
    ensures Story(Apply(p, e).log, p.list[i].serial) == Story(p.log, p.list[i].serial)
  {
    ForeverSchedule(p, e, i);
    assert Story(p.log, p.list[i].serial) + [] == Story(p.log, p.list[i].serial);
  }

  /** The first message of a run. */
  lemma {:induction false} FirstAdd(t: Ticket, sent: nat)
    requires t.stamp <= sent
    ensures var p := RunFrom(EMPTY, [Add(t, sent)]);
      && Valid(EMPTY, [Add(t, sent)]) && Inv(p) && p.list == [NewMsg(0, t)] && p.clock == sent
      && p.midCount == 1 && p.tickets == [t]
      && Story(p.log, 0) == [SendOf(NewMsg(0, t), sent)]
  {
    EveryRunIsConserved([]);
    RunAppend(EMPTY, [], Add(t, sent));
    assert [] + [Add(t, sent)] == [Add(t, sent)];
    AddKeeps(EMPTY, Add(t, sent));
    OneStoryGrows([], [SendOf(NewMsg(0, t), sent)], 0, 0);
  }

  /** A run in which a forever message is sent by a pass, and not by a later one. */
  lemma {:induction false} ForeverMissesAPass(t: Ticket) returns (es: seq<Event>, e: Event)
    requires t.forever && t.stamp == 0
    ensures Valid(EMPTY, es) && |es| == 2 && es[1].Traverse? && e.Traverse? && Timely(RunFrom(EMPTY, es), e)
    ensures |Story(RunFrom(EMPTY, es).log, 0)| == 2
    ensures Story(Apply(RunFrom(EMPTY, es), e).log, 0) == Story(RunFrom(EMPTY, es).log, 0)
  {
    var pass := Traverse([Reading(20000, 20000, 20000)], 20000);
    FirstAdd(t, 0);
    ForeverAlone([Add(t, 0)], pass, t, 20000);
    SameTickets([Add(t, 0)], pass);
    es, e := [Add(t, 0)] + [pass], Traverse([Reading(WORD, WORD, WORD)], WORD);
    EveryRunIsConserved(es);
    ForeverPausesAtWrap(RunFrom(EMPTY, es), e, 0, 1);
  }

  /** A pass over a forever message alone in the pool that sends it leaves it there. */
  lemma {:induction false} ForeverAlone(es: seq<Event>, e: Event, t: Ticket, now: nat)
    requires Valid(EMPTY, es) && RunFrom(EMPTY, es).list == [NewMsg(0, t)] && t.forever
    requires RunFrom(EMPTY, es).clock <= now && t.stamp <= now && (now - t.stamp) % WORD > RESEND_AFTER
    requires e == Traverse([Reading(now, now, now)], now)
    ensures Valid(EMPTY, es + [e])
    ensures var p, q := RunFrom(EMPTY, es), RunFrom(EMPTY, es + [e]);
      && q.list == [NewMsg(0, t)] && q.clock == now
      && Story(q.log, 0) == Story(p.log, 0) + [SendOf(NewMsg(0, t), now)]
  {
    var p := RunFrom(EMPTY, es);
    FirstPass(p, e, 0, t, now);
    TicksMeasureTime(now, t.stamp);
    assert FateOf(p.list, e.readings, 0).Resent?;
    assert Kept(p.list, e.readings, 1) == [NewMsg(0, t)];
    RunAppend(EMPTY, es, e);
  }

  /** Two sends of a forever message can be as close together as two passes. */
  lemma {:induction false} ForeverIsNotSpaced(t: Ticket, now: nat, gap: nat) returns (es: seq<Event>)
    requires t.forever && t.stamp + RESEND_AFTER < now && now + gap < t.stamp + WORD
    ensures Valid(EMPTY, es) && RunFrom(EMPTY, es).tickets == [t]
    ensures var m := NewMsg(0, t);
      Story(RunFrom(EMPTY, es).log, 0) == [SendOf(m, t.stamp), SendOf(m, now), SendOf(m, now + gap)]
  {
    es := [Add(t, t.stamp)];
    FirstAdd(t, t.stamp);
    var e := Traverse([Reading(now, now, now)], now);
    ForeverAlone(es, e, t, now);
    SameTickets(es, e);
    es := es + [e];
    e := Traverse([Reading(now + gap, now + gap, now + gap)], now + gap);
    ForeverAlone(es, e, t, now + gap);
    SameTickets(es, e);
    es := es + [e];
  }

  lemma {:induction false} SameTickets(es: seq<Event>, e: Event)
    requires Valid(EMPTY, es) && CanHappen(RunFrom(EMPTY, es), e) && !e.Add?
    ensures Valid(EMPTY, es + [e]) && RunFrom(EMPTY, es + [e]).tickets == RunFrom(EMPTY, es).tickets
  {
    RunAppend(EMPTY, es, e);
  }

  /** And a pass in which the message before it expires does not send it, due or not. */
  lemma {:induction false} ForeverIsSteppedOver(p: Pool, e: Event, i: nat)
    requires Inv(p) && e.Traverse? && Timely(p, e) && 0 < i < |p.list| && p.list[i].serial < |p.tickets|
    requires p.tickets[p.list[i].serial].forever && FateOf(p.list, e.readings, i - 1).Expired?
    ensures Story(Apply(p, e).log, p.list[i].serial) == Story(p.log, p.list[i].serial)
  {
    ForeverSchedule(p, e, i);
    assert Story(p.log, p.list[i].serial) + [] == Story(p.log, p.list[i].serial);
  }

  function PassAt(now: nat): Event {
    Traverse([Reading(now, now, now), Reading(now, now, now)], now)
  }

  /** A pass over two messages that are both due, the first with tries left. */
  lemma {:induction false} PassOverTwo(es: seq<Event>, m: WaitACKMsg, f: WaitACKMsg, now: nat)
    requires Valid(EMPTY, es) && RunFrom(EMPTY, es).list == [m, f] && RunFrom(EMPTY, es).clock <= now
    requires Elapsed(Tick(now), m.lastSendTime) > RESEND_AFTER && Elapsed(Tick(now), f.lastSendTime) > RESEND_AFTER
    requires m.leftTryTimes > 0 && f.leftTryTimes == ETERNAL_TRY_TIMES
    ensures Valid(EMPTY, es + [PassAt(now)])
    ensures var p, q := RunFrom(EMPTY, es), RunFrom(EMPTY, es + [PassAt(now)]);
      && q.list == [m.(leftTryTimes := m.leftTryTimes - 1, lastSendTime := Tick(now), stampedAt := now), f]
      && q.clock == now && q.tickets == p.tickets
  {
    var p, rd := RunFrom(EMPTY, es), PassAt(now).readings;
    assert FateOf(p.list, rd, 0).Resent? && FateOf(p.list, rd, 1).Resent?;
    assert Kept(p.list, rd, 1) == [Retried(m, rd[0])];
    assert Kept(p.list, rd, 2) == [Retried(m, rd[0]), f];
    RunAppend(EMPTY, es, PassAt(now));
  }

  /** A run after which a pass steps over a forever message that is due. */
  lemma {:induction false} ForeverMissesItsTurn(t: Ticket, u: Ticket) returns (es: seq<Event>, e: Event)
    requires !t.forever && u.forever && t.stamp == u.stamp == 0
    ensures Valid(EMPTY, es) && e.Traverse? && Timely(RunFrom(EMPTY, es), e)
    ensures var p := RunFrom(EMPTY, es);
      && |p.list| == 2 && p.list[1] == NewMsg(1, u) && p.tickets == [t, u] && Due(p.list[1], e.readings[1])
      && Story(Apply(p, e).log, 1) == Story(p.log, 1)
  {
    FirstAdd(t, 0);
    RunAppend(EMPTY, [Add(t, 0)], Add(u, 0));
    es := [Add(t, 0)] + [Add(u, 0)];
    PassOverTwo(es, NewMsg(0, t), NewMsg(1, u), 20000);
    es := es + [PassAt(20000)];
    PassOverTwo(es, RunFrom(EMPTY, es).list[0], NewMsg(1, u), 40000);
    es, e := es + [PassAt(40000)], PassAt(60000);
    EveryRunIsConserved(es);
    assert FateOf(RunFrom(EMPTY, es).list, e.readings, 0).Expired?;
    ForeverIsSteppedOver(RunFrom(EMPTY, es), e, 1);
  }

  // ----- ids that wrap

  /** No message has waited while 2^32 others were added after it. */
  predicate Recent(p: Pool) {
    forall i | 0 <= i < |p.list| :: p.midCount - p.list[i].serial <= WORD
  }

  /** The id of message s is found exactly while s is pending, and finds s itself. */
  ghost predicate FindsItself(p: Pool, s: nat) {
    && (Has(p.list, s % WORD) <==> s !in p.deleted && s !in p.expired)
    && (Has(p.list, s % WORD) ==> p.list[First(p.list, s % WORD)].serial == s)
  }

  /** For every run: the ids of the last 2^32 messages all find themselves if and only
      if nothing older is still waiting. */
  lemma {:induction false} IdFindsItsMessage(es: seq<Event>)
    requires Valid(EMPTY, es)
    ensures var p := RunFrom(EMPTY, es);
      Recent(p) <==> (forall s: nat | s < p.midCount <= s + WORD :: FindsItself(p, s))
  {
    var p := RunFrom(EMPTY, es);
    EveryRunIsConserved(es);
    if Recent(p) {
      forall s: nat | s < p.midCount <= s + WORD ensures FindsItself(p, s) { RecentFindsItself(p, s); }
    } else {
      var i: nat :| i < |p.list| && p.midCount - p.list[i].serial > WORD;
      var s := HidingOld(p, i);
      assert !FindsItself(p, s);
    }
  }

  lemma {:induction false} RecentFindsItself(p: Pool, s: nat)
    requires Inv(p) && Recent(p) && s < p.midCount <= s + WORD
    ensures FindsItself(p, s)
  {
    assert Placed(p, s);
    forall i: nat | i < |p.list| ensures p.list[i].mid == s % WORD <==> p.list[i].serial == s {
      assert PendingAt(p, i);
      IsPending(p.list, i);
      assert Placed(p, p.list[i].serial);
      if p.list[i].mid == s % WORD { SameResidue(p.list[i].serial, s, p.midCount); }
    }
    if Pending(p.list, s) {
      var i := FindPending(p.list, s);
      assert p.list[i].mid == s % WORD;
    }
    if Has(p.list, s % WORD) { IsPending(p.list, First(p.list, s % WORD)); }
  }

  /** A message that has waited longer hides the recent one with the same id. */
  lemma {:induction false} HidingOld(p: Pool, i: nat) returns (s: nat)
    requires Inv(p) && i < |p.list| && p.midCount - p.list[i].serial > WORD
    ensures s < p.midCount <= s + WORD && !FindsItself(p, s)
  {
    var old' := p.list[i].serial;
    s := p.midCount - 1 - (p.midCount - 1 - old') % WORD;
    assert PendingAt(p, i);
    assert s % WORD == old' % WORD && s > old';
    assert p.list[i].mid == s % WORD && Has(p.list, s % WORD);
    var k := First(p.list, s % WORD);
    assert k <= i && p.list[k].serial <= old';
  }

  /** n additions of the same message, one after the other. */
  lemma {:induction false} AddMany(t: Ticket, n: nat) returns (es: seq<Event>)
    requires n > 0
    ensures Valid(EMPTY, es) && RunFrom(EMPTY, es).clock <= t.stamp && RunFrom(EMPTY, es).midCount == n
    ensures RunFrom(EMPTY, es).list != [] && RunFrom(EMPTY, es).list[0] == NewMsg(0, t)
  {
    if n == 1 {
      es := [Add(t, t.stamp)];
      FirstAdd(t, t.stamp);
    } else {
      es := AddMany(t, n - 1);
      RunAppend(EMPTY, es, Add(t, t.stamp));
      es := es + [Add(t, t.stamp)];
    }
  }

  /** A run after which the newest message cannot be found under its own id: an
      acknowledgement for it goes to the oldest. */
  lemma {:induction false} OldestHidesNewest(t: Ticket) returns (es: seq<Event>)
    ensures Valid(EMPTY, es) && RunFrom(EMPTY, es).midCount == WORD + 1
    ensures var p := RunFrom(EMPTY, es);
      && !Recent(p) && !FindsItself(p, WORD)
      && Has(p.list, WORD % WORD) && p.list[First(p.list, WORD % WORD)].serial == 0
  {
    es := AddMany(t, WORD + 1);
    var p := RunFrom(EMPTY, es);
    EveryRunIsConserved(es);
    assert p.list[0] == NewMsg(0, t);
    assert p.midCount - p.list[0].serial > WORD;
    assert First(p.list, 0) == 0;
    assert Placed(p, WORD);
  }

  lemma {:induction false} SameResidue(a: nat, b: nat, n: nat)
    requires a < n <= a + WORD && b < n <= b + WORD && a % WORD == b % WORD
    ensures a == b
  {
  }

  /** However long after a message has been acknowledged or has expired, and whatever
      has happened since, an acknowledgement for it changes nothing and tells nobody. */
  lemma {:induction false} DuplicateAckIsIgnored(es: seq<Event>, s: nat, ack: Ack)
    requires Valid(EMPTY, es) && Recent(RunFrom(EMPTY, es))
    requires s < RunFrom(EMPTY, es).midCount <= s + WORD
    requires s in RunFrom(EMPTY, es).deleted || s in RunFrom(EMPTY, es).expired
    ensures var p, e := RunFrom(EMPTY, es), Delete(s % WORD, ack);
      Defined(p, e) && Apply(p, e) == p
  {
    EveryRunIsConserved(es);
    RecentFindsItself(RunFrom(EMPTY, es), s);
  }

  // ----- null texts

  /** Of the messages that wait with this id, s was added first. */
  ghost predicate OldestWith(p: Pool, mid: nat, s: nat) {
    Pending(p.list, s) && s % WORD == mid && forall r: nat | r < s && r % WORD == mid :: !Pending(p.list, r)
  }

  lemma {:induction false} FirstIsOldest(p: Pool, mid: nat)
    requires Inv(p) && Has(p.list, mid)
    ensures var m := p.list[First(p.list, mid)];
      OldestWith(p, mid, m.serial) && m.serial < |p.tickets| && m.callBack == p.tickets[m.serial].callBack
  {
    var i := First(p.list, mid);
    assert PendingAt(p, i);
    IsPending(p.list, i);
    forall j: nat | j < |p.list| ensures p.list[j].serial % WORD == mid ==> p.list[j].serial >= p.list[i].serial {
      assert PendingAt(p, j);
    }
  }

  /** Some message waits with this id. */
  ghost predicate Waits(p: Pool, mid: nat) {
    exists s: nat :: Pending(p.list, s) && s % WORD == mid
  }

  lemma {:induction false} WaitsIsHas(p: Pool, mid: nat)
    requires Inv(p)
    ensures Waits(p, mid) <==> Has(p.list, mid)
  {
    if s: nat :| Pending(p.list, s) && s % WORD == mid {
      var i := FindPending(p.list, s);
      assert PendingAt(p, i) && p.list[i].mid == mid;
    }
    if Has(p.list, mid) { FirstIsOldest(p, mid); }
  }

  lemma {:induction false} ErasedFrom(list: seq<WaitACKMsg>, k: nat, m: WaitACKMsg)
    requires Increasing(list) && k < |list|
    ensures m in list[..k] + list[k + 1..] <==> m in list && m.serial != list[k].serial
  {
    var rest := list[..k] + list[k + 1..];
    if i :| 0 <= i < |list| && list[i] == m && i != k { assert rest[if i < k then i else i - 1] == m; }
    if i :| 0 <= i < |rest| && rest[i] == m { assert list[Before(i, k)] == m; }
  }

  /** What an acknowledgement does, told without the functions of the model: of the
      messages that wait with the id the oldest leaves, no other; its callback, if it
      has one, is told what was passed on, or the message itself; if none waits, nothing
      happens. */
  lemma {:induction false} DeleteDoes(p: Pool, mid: nat, a: Ack) returns (s: nat)
    requires Inv(p) && Defined(p, Delete(mid, a))
    ensures var q := Apply(p, Delete(mid, a));
      if !Waits(p, mid) then q == p
      else
        && OldestWith(p, mid, s) && s < |p.tickets|
        && var t := p.tickets[s];
        && q == p.(list := q.list, log := q.log, deleted := p.deleted[s := a])
        && (forall m :: m in q.list <==> m in p.list && m.serial != s)
        && if t.callBack.None? then q.log == p.log
           else if a.hasSend then
             && a.msg.Some?
             && q.log == p.log + [Called(s, t.callBack.value, true, if a.ip.Some? then a.ip.value else t.ip, t.port,
                                         Reply(a.msg.value))]
           else
             q.log == p.log + [Called(s, t.callBack.value, false, t.ip, t.port,
                                      Unacknowledged(Envelope(s % WORD, t.content)))]
  {
    WaitsIsHas(p, mid);
    s := 0;
    if Has(p.list, mid) {
      var i := First(p.list, mid);
      FirstIsOldest(p, mid);
      assert PendingAt(p, i);
      s := p.list[i].serial;
      forall m ensures m in Apply(p, Delete(mid, a)).list <==> m in p.list && m.serial != s {
        ErasedFrom(p.list, i, m);
      }
      assert p.log + [] == p.log;
    }
  }

  /** Which acknowledgements are undefined, after any run: those that pass on a null
      text, if the oldest message that waits with the id has a callback. */
  lemma {:induction false} NullTextIsUndefined(es: seq<Event>, mid: nat, ack: Ack)
    requires Valid(EMPTY, es)
    ensures var p := RunFrom(EMPTY, es);
      !Defined(p, Delete(mid, ack)) <==>
        && ack.hasSend && ack.msg.None?
        && exists s: nat | s < |p.tickets| :: OldestWith(p, mid, s) && p.tickets[s].callBack.Some?
  {
    var p := RunFrom(EMPTY, es);
    EveryRunIsConserved(es);
    if s: nat :| s < |p.tickets| && OldestWith(p, mid, s) && p.tickets[s].callBack.Some? {
      var i := FindPending(p.list, s);
      assert PendingAt(p, i) && p.list[i].mid == mid;
    }
    if Has(p.list, mid) { FirstIsOldest(p, mid); }
  }

  /** Acknowledging one of the last 2^32 messages with a null text is defined exactly if
      it has left or never had a callback, unless something older still waits. */
  lemma {:induction false} NullTextToRecent(es: seq<Event>, s: nat, ip: Option<string>)
    requires Valid(EMPTY, es) && Recent(RunFrom(EMPTY, es))
    requires s < RunFrom(EMPTY, es).midCount <= s + WORD
    ensures var p := RunFrom(EMPTY, es);
      && s < |p.tickets|
      && (Defined(p, Delete(s % WORD, Ack(true, None, ip))) <==>
            s in p.deleted || s in p.expired || p.tickets[s].callBack.None?)
  {
    var p := RunFrom(EMPTY, es);
    EveryRunIsConserved(es);
    RecentFindsItself(p, s);
    if Has(p.list, s % WORD) { FirstIsOldest(p, s % WORD); }
  }

  /** The failing input: one message with a callback, acknowledged at once. */
  lemma {:induction false} NullTextFails(t: Ticket, ip: Option<string>)
    requires t.callBack.Some?
    ensures Valid(EMPTY, [Add(t, t.stamp)])
    ensures !Defined(RunFrom(EMPTY, [Add(t, t.stamp)]), Delete(0, Ack(true, None, ip)))
  {
    FirstAdd(t, t.stamp);
    var list := RunFrom(EMPTY, [Add(t, t.stamp)]).list;
    assert list[0].mid == 0 && Has(list, 0);
  }
}
