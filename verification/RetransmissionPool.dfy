/** WaitACKMsgSender: the pool of UDP messages that are sent again until they are
    acknowledged or have been tried too often. Each method holds the lock for all of its
    body, so each is one step. */
module RetransmissionPool {
  import opened Options

  const MAX_TRY_TIMES := 3
  const ETERNAL_TRY_TIMES := -1
  const SEND_WAITACKMSG_LOOP_TIME := 5 * 1000
  const RESEND_AFTER := 3 * SEND_WAITACKMSG_LOOP_TIME

  /** One more than the largest unsigned long, and the largest GetTickCount. */
  const WORD := 0x1_0000_0000

  /** GetTickCount at `time` true milliseconds. */
  function Tick(time: nat): nat { time % WORD }

  /** The unsigned subtraction of two tick counts. */
  function Elapsed(now: nat, last: nat): nat { (now - last) % WORD }

  /** The JSON text that is sent; its encoding is left out. */
  datatype Envelope = Envelope(mid: nat, content: string)

  type CallBackProc = nat

  /** A message of the pool. `serial` and `stampedAt` are history that no branch reads:
      the number of messages added before it, and the true time of `lastSendTime`. */
  datatype WaitACKMsg = WaitACKMsg(
    mid: nat, leftTryTimes: int, lastSendTime: nat,
    peerIp: string, peerPort: int, message: Envelope, callBack: Option<CallBackProc>,
    serial: nat, stampedAt: nat)

  /** What a callback is told: the peer's text, or the message that was not
      acknowledged. */
  datatype Text = Reply(msg: string) | Unacknowledged(message: Envelope)

  datatype Happening =
    | Sent(serial: nat, at: nat, ip: string, port: int, message: Envelope)
    | Called(serial: nat, proc: CallBackProc, hasSend: bool, ip: string, port: int, text: Text)

  /** The times a pass meets at one element: the test of the clock, the send, and the
      second reading of the clock. */
  datatype Reading = Reading(test: nat, sent: nat, stamp: nat)

  /** What AddMsg was asked for, and when it read the clock. */
  datatype Ticket = Ticket(ip: string, port: int, content: string, callBack: Option<CallBackProc>,
                           forever: bool, stamp: nat)

  /** What DeleteMsg was told; None is a null pointer, which is what msg and ip are by
      default. */
  datatype Ack = Ack(hasSend: bool, msg: Option<string>, ip: Option<string>)

  /** The state: the vector and the counter of the class, and the history of the run.
      The C counter is `midCount` modulo WORD. */
  datatype Pool = Pool(
    list: seq<WaitACKMsg>, midCount: nat,
    tickets: seq<Ticket>, log: seq<Happening>, deleted: map<nat, Ack>, expired: set<nat>, clock: nat)

  const EMPTY := Pool([], 0, [], [], map[], {}, 0)

  // ----- one message

  function NewMsg(serial: nat, t: Ticket): WaitACKMsg {
    WaitACKMsg(serial % WORD, if t.forever then ETERNAL_TRY_TIMES else MAX_TRY_TIMES - 1, Tick(t.stamp),
               t.ip, t.port, Envelope(serial % WORD, t.content), t.callBack, serial, t.stamp)
  }

  function SendOf(m: WaitACKMsg, at: nat): Happening {
    Sent(m.serial, at, m.peerIp, m.peerPort, m.message)
  }

  function FailureCall(m: WaitACKMsg): seq<Happening> {
    if m.callBack.None? then []
    else [Called(m.serial, m.callBack.value, false, m.peerIp, m.peerPort, Unacknowledged(m.message))]
  }

  /** A callback takes a std::string, and making one of a null text is undefined. */
  predicate CanTell(m: WaitACKMsg, a: Ack) {
    m.callBack.Some? && a.hasSend ==> a.msg.Some?
  }

  function AckCall(m: WaitACKMsg, a: Ack): seq<Happening>
    requires CanTell(m, a)
  {
    if m.callBack.None? then []
    else if a.hasSend then
      [Called(m.serial, m.callBack.value, true, if a.ip.Some? then a.ip.value else m.peerIp, m.peerPort,
              Reply(a.msg.value))]
    else FailureCall(m)
  }

  predicate Due(m: WaitACKMsg, r: Reading) {
    Elapsed(Tick(r.test), m.lastSendTime) > RESEND_AFTER
  }

  function Retried(m: WaitACKMsg, r: Reading): WaitACKMsg {
    if m.leftTryTimes == ETERNAL_TRY_TIMES then m
    else m.(leftTryTimes := m.leftTryTimes - 1, lastSendTime := Tick(r.stamp), stampedAt := r.stamp)
  }

  // ----- what a pass does to each position, without any iterator

  datatype Fate = Skipped | Waiting | Resent | Expired

  /** The element after an expired one is not looked at; every other one is, once. */
  function FateOf(list: seq<WaitACKMsg>, rd: seq<Reading>, i: nat): Fate
    requires i < |list| <= |rd|
  {
    if i > 0 && FateOf(list, rd, i - 1).Expired? then Skipped
    else if !Due(list[i], rd[i]) then Waiting
    else if list[i].leftTryTimes == 0 then Expired
    else Resent
  }

  function After(m: WaitACKMsg, r: Reading, f: Fate): seq<WaitACKMsg> {
    match f
    case Expired => []
    case Resent => [Retried(m, r)]
    case _ => [m]
  }

  function Happens(m: WaitACKMsg, r: Reading, f: Fate): seq<Happening> {
    match f
    case Expired => [SendOf(m, r.sent)] + FailureCall(m)
    case Resent => [SendOf(m, r.sent)]
    case _ => []
  }

  /** What is left of the first n elements, in order. */
  function Kept(list: seq<WaitACKMsg>, rd: seq<Reading>, n: nat): seq<WaitACKMsg>
    requires n <= |list| <= |rd|
  {
    if n == 0 then [] else Kept(list, rd, n - 1) + After(list[n - 1], rd[n - 1], FateOf(list, rd, n - 1))
  }

  function Noise(list: seq<WaitACKMsg>, rd: seq<Reading>, n: nat): seq<Happening>
    requires n <= |list| <= |rd|
  {
    if n == 0 then [] else Noise(list, rd, n - 1) + Happens(list[n - 1], rd[n - 1], FateOf(list, rd, n - 1))
  }

  function ExpiredIn(list: seq<WaitACKMsg>, rd: seq<Reading>, n: nat): set<nat>
    requires n <= |list| <= |rd|
  {
    if n == 0 then {}
    else ExpiredIn(list, rd, n - 1) + (if FateOf(list, rd, n - 1).Expired? then {list[n - 1].serial} else {})
  }

  // ----- the steps

  datatype Event =
    | Add(ticket: Ticket, sent: nat)
    | Delete(mid: nat, ack: Ack)
    | Traverse(readings: seq<Reading>, end: nat)

  /** The clock does not run backwards during an event, and a pass has a reading for
      every element. */
  ghost predicate Timely(p: Pool, e: Event) {
    match e
    case Add(t, sent) => p.clock <= t.stamp <= sent
    case Delete(_, _) => true
    case Traverse(rd, end) =>
      && |rd| == |p.list| && p.clock <= end
      && (forall i | 0 <= i < |rd| :: p.clock <= rd[i].test <= rd[i].sent <= rd[i].stamp <= end)
      && (forall i | 0 < i < |rd| :: rd[i - 1].stamp <= rd[i].test)
  }

  predicate Has(list: seq<WaitACKMsg>, mid: nat) {
    exists i | 0 <= i < |list| :: list[i].mid == mid
  }

  /** The position of the first message with this id. */
  function First(list: seq<WaitACKMsg>, mid: nat): (i: nat)
    requires Has(list, mid)
    ensures i < |list| && list[i].mid == mid
    ensures forall j | 0 <= j < i :: list[j].mid != mid
  {
    if list[0].mid == mid then 0 else 1 + First(list[1..], mid)
  }

  /** The event does nothing that C++ leaves undefined. */
  predicate Defined(p: Pool, e: Event) {
    e.Delete? && Has(p.list, e.mid) ==> CanTell(p.list[First(p.list, e.mid)], e.ack)
  }

  ghost predicate CanHappen(p: Pool, e: Event) {
    Timely(p, e) && Defined(p, e)
  }

  function Apply(p: Pool, e: Event): Pool
    requires e.Traverse? ==> |e.readings| == |p.list|
    requires Defined(p, e)
  {
    match e
    case Add(t, sent) =>
      var m := NewMsg(p.midCount, t);
      p.(list := p.list + [m], midCount := p.midCount + 1, tickets := p.tickets + [t],
         log := p.log + [SendOf(m, sent)], clock := sent)
    case Delete(mid, ack) =>
      if !Has(p.list, mid) then p
      else
        var i := First(p.list, mid);
        p.(list := p.list[..i] + p.list[i + 1..], log := p.log + AckCall(p.list[i], ack),
           deleted := p.deleted[p.list[i].serial := ack])
    case Traverse(rd, end) =>
      var n := |p.list|;
      p.(list := Kept(p.list, rd, n), log := p.log + Noise(p.list, rd, n),
         expired := p.expired + ExpiredIn(p.list, rd, n), clock := end)
  }

  // ----- the loop against the fates

  /** A pass that has dealt with the first so many elements: the pool, where the
      iterator stands, and whether the element there is about to be skipped. */
  datatype Stage = Stage(pool: Pool, iter: nat, skip: bool)

  ghost function StageAt(p: Pool, rd: seq<Reading>, i: nat): Stage
    requires i <= |p.list| <= |rd|
  {
    Stage(p.(list := Kept(p.list, rd, i) + p.list[i..], log := p.log + Noise(p.list, rd, i),
             expired := p.expired + ExpiredIn(p.list, rd, i)),
          |Kept(p.list, rd, i)|, i > 0 && FateOf(p.list, rd, i - 1).Expired?)
  }

  /** The pool when the element at `iter` is due and has been dealt with. */
  function Sending(q: Pool, iter: nat, r: Reading): Pool
    requires iter < |q.list|
  {
    var m := q.list[iter];
    if m.leftTryTimes == 0 then
      q.(list := q.list[..iter] + q.list[iter + 1..],
         log := q.log + [SendOf(m, r.sent)] + FailureCall(m), expired := q.expired + {m.serial})
    else
      q.(list := q.list[iter := Retried(m, r)], log := q.log + [SendOf(m, r.sent)])
  }

  /** One element further, in terms of the vector as it now is. */
  ghost function NextStage(s: Stage, r: Reading): Stage
    requires s.iter < |s.pool.list|
  {
    var m := s.pool.list[s.iter];
    if s.skip || !Due(m, r) then Stage(s.pool, s.iter + 1, false)
    else Stage(Sending(s.pool, s.iter, r), if m.leftTryTimes == 0 then s.iter else s.iter + 1, m.leftTryTimes == 0)
  }

  ghost predicate Advances(st: seq<Stage>, rd: seq<Reading>, i: nat)
    requires i + 1 < |st| && i < |rd|
  {
    st[i].iter < |st[i].pool.list| && st[i + 1] == NextStage(st[i], rd[i])
  }

  ghost function Remaining(st: seq<Stage>, i: nat): int
    requires i < |st|
  {
    |st[i].pool.list| - st[i].iter
  }

  /** Erasing or replacing the first element after `kept`. */
  lemma {:induction false} EditAfter(kept: seq<WaitACKMsg>, list: seq<WaitACKMsg>, i: nat, m: WaitACKMsg)
    requires i < |list|
    ensures var now := kept + list[i..];
      && |kept| < |now| && now[|kept|] == list[i]
      && now[..|kept|] + now[|kept| + 1..] == kept + [] + list[i + 1..]
      && now[|kept| := m] == kept + [m] + list[i + 1..]
      && now == kept + [list[i]] + list[i + 1..]
  {
  }

  lemma {:induction false} StageList(p: Pool, rd: seq<Reading>, i: nat)
    requires i < |p.list| <= |rd|
    ensures var s, s', m, r := StageAt(p, rd, i), StageAt(p, rd, i + 1), p.list[i], rd[i];
      && s.iter < |s.pool.list| && s.pool.list[s.iter] == m
      && (match FateOf(p.list, rd, i)
          case Expired =>
            s'.iter == s.iter && s'.pool.list == s.pool.list[..s.iter] + s.pool.list[s.iter + 1..]
          case Resent => s'.iter == s.iter + 1 && s'.pool.list == s.pool.list[s.iter := Retried(m, r)]
          case _ => s'.iter == s.iter + 1 && s'.pool.list == s.pool.list)
  {
    EditAfter(Kept(p.list, rd, i), p.list, i, Retried(p.list[i], rd[i]));
  }

  lemma {:induction false} StageLog(p: Pool, rd: seq<Reading>, i: nat)
    requires i < |p.list| <= |rd|
    ensures var q, q', m, r := StageAt(p, rd, i).pool, StageAt(p, rd, i + 1).pool, p.list[i], rd[i];
      match FateOf(p.list, rd, i)
      case Expired =>
        q'.log == q.log + [SendOf(m, r.sent)] + FailureCall(m) && q'.expired == q.expired + {m.serial}
      case Resent => q'.log == q.log + [SendOf(m, r.sent)] && q'.expired == q.expired
      case _ => q'.log == q.log && q'.expired == q.expired
  {
    var m, r, f := p.list[i], rd[i], FateOf(p.list, rd, i);
    var noise := Noise(p.list, rd, i);
    assert p.log + noise + Happens(m, r, f) == p.log + (noise + Happens(m, r, f));
    if f.Expired? {
      assert p.log + noise + Happens(m, r, f) == p.log + noise + [SendOf(m, r.sent)] + FailureCall(m);
    }
  }

  lemma {:induction false} StageAdvances(p: Pool, rd: seq<Reading>, i: nat, st: seq<Stage>)
    requires i < |p.list| <= |rd| && i + 1 < |st|
    requires st[i] == StageAt(p, rd, i) && st[i + 1] == StageAt(p, rd, i + 1)
    ensures Advances(st, rd, i)
  {
    StageList(p, rd, i);
    StageLog(p, rd, i);
  }

  /** All stages of a pass, the last of which is what the step specifies. */
  lemma {:induction false} Stages(p: Pool, rd: seq<Reading>, end: nat) returns (st: seq<Stage>)
    requires |p.list| == |rd|
    ensures |st| == |p.list| + 1 && st[0] == Stage(p, 0, false)
    ensures forall i: nat | i < |p.list| :: Advances(st, rd, i)
    ensures forall i: nat | i <= |p.list| :: Remaining(st, i) == |p.list| - i
    ensures st[|p.list|].pool.(clock := end) == Apply(p, Traverse(rd, end))
  {
    var n := |p.list|;
    st := seq(n + 1, i requires 0 <= i <= n => StageAt(p, rd, i));
    forall i: nat | i < n ensures Advances(st, rd, i) { StageAdvances(p, rd, i, st); }
    assert p.log + [] == p.log && [] + p.list == p.list && p.expired + {} == p.expired;
    assert Kept(p.list, rd, n) + p.list[n..] == Kept(p.list, rd, n);
  }

  // ----- the class

  class WaitACKMsgSender {
    var waitACKMsgList: seq<WaitACKMsg>
    var midCount: nat
    ghost var tickets: seq<Ticket>
    ghost var log: seq<Happening>
    ghost var deleted: map<nat, Ack>
    ghost var expired: set<nat>
    ghost var clock: nat
    ghost var undefined: bool  // has a callback been given a null text?

    ghost function View(): Pool
      reads this
    {
      Pool(waitACKMsgList, midCount, tickets, log, deleted, expired, clock)
    }

    constructor ()
      ensures View() == EMPTY && !undefined
    {
      waitACKMsgList, midCount := [], 0;
      tickets, log, deleted, expired, clock, undefined := [], [], map[], {}, 0, false;
    }

    /** `stamp` is the reading of the clock and `sent` the later time of the send. */
    method AddMsg(peerIp: string, peerPort: int, message: string, callBack: Option<CallBackProc>, forever: bool,
                  stamp: nat, ghost sent: nat) returns (mid: nat)
      modifies this`waitACKMsgList, this`midCount, this`tickets, this`log, this`clock
      ensures View() == Apply(old(View()), Add(Ticket(peerIp, peerPort, message, callBack, forever, stamp), sent))
      ensures mid == old(midCount) % WORD && Has(waitACKMsgList, mid)
      ensures log == old(log) + [Sent(old(midCount), sent, peerIp, peerPort, Envelope(mid, message))]
    {
      mid := midCount % WORD;
      var leftTryTimes := if forever then ETERNAL_TRY_TIMES else MAX_TRY_TIMES - 1;
      var newmessage := WaitACKMsg(mid, leftTryTimes, Tick(stamp), peerIp, peerPort, Envelope(mid, message), callBack,
                                   midCount, stamp);
      midCount := midCount + 1;
      waitACKMsgList := waitACKMsgList + [newmessage];
      tickets := tickets + [Ticket(peerIp, peerPort, message, callBack, forever, stamp)];
      log, clock := log + [SendOf(newmessage, sent)], sent;
      assert waitACKMsgList[|waitACKMsgList| - 1].mid == mid;
    }

    method DeleteMsg(hasSend: bool, mid: nat, msg: Option<string>, ip: Option<string>)
      modifies this`waitACKMsgList, this`log, this`deleted, this`undefined
      ensures undefined <==> old(undefined) || !Defined(old(View()), Delete(mid, Ack(hasSend, msg, ip)))
      ensures Defined(old(View()), Delete(mid, Ack(hasSend, msg, ip))) ==>
        View() == Apply(old(View()), Delete(mid, Ack(hasSend, msg, ip)))
    {
      var i := 0;
      while i < |waitACKMsgList|
        invariant i <= |waitACKMsgList| && View() == old(View()) && undefined == old(undefined)
        invariant forall j | 0 <= j < i :: waitACKMsgList[j].mid != mid
      {
        if waitACKMsgList[i].mid == mid {
          var m := waitACKMsgList[i];
          assert Has(waitACKMsgList, mid) && First(waitACKMsgList, mid) == i;
          if m.callBack.Some? {
            if hasSend {
              if msg.None? {
                undefined := true;
                return;
              }
              if ip.Some? {
                log := log + [Called(m.serial, m.callBack.value, hasSend, ip.value, m.peerPort, Reply(msg.value))];
              } else {
                log := log + [Called(m.serial, m.callBack.value, hasSend, m.peerIp, m.peerPort, Reply(msg.value))];
              }
            } else {
              log := log + [Called(m.serial, m.callBack.value, hasSend, m.peerIp, m.peerPort,
                                   Unacknowledged(m.message))];
            }
          }
          waitACKMsgList := waitACKMsgList[..i] + waitACKMsgList[i + 1..];
          deleted := deleted[m.serial := Ack(hasSend, msg, ip)];
          assert log == old(log) + AckCall(m, Ack(hasSend, msg, ip));
          return;
        }
        i := i + 1;
      }
    }

    method FindMsg(mid: nat) returns (found: bool)
      ensures found <==> Has(waitACKMsgList, mid)
    {
      var i := 0;
      while i < |waitACKMsgList|
        invariant i <= |waitACKMsgList|
        invariant forall j | 0 <= j < i :: waitACKMsgList[j].mid != mid
      {
        if waitACKMsgList[i].mid == mid { return true; }
        i := i + 1;
      }
      return false;
    }

    /** What the loop does to an element that is due: it is sent again; without tries
        left its callback is told and it is erased, otherwise a try is used up. */
    method Overdue(iter: nat, now: Reading) returns (erased: bool)
      requires iter < |waitACKMsgList|
      modifies this`waitACKMsgList, this`log, this`expired
      ensures erased == (old(waitACKMsgList[iter].leftTryTimes) == 0)
      ensures View() == Sending(old(View()), iter, now)
    {
      var m := waitACKMsgList[iter];
      log := log + [SendOf(m, now.sent)];
      erased := false;
      if m.leftTryTimes == 0 {
        if m.callBack.Some? {
          log := log + [Called(m.serial, m.callBack.value, false, m.peerIp, m.peerPort, Unacknowledged(m.message))];
        } else {
          assert log + [] == log;
        }
        waitACKMsgList := waitACKMsgList[..iter] + waitACKMsgList[iter + 1..];
        expired := expired + {m.serial};
        erased := true;
      } else if m.leftTryTimes != ETERNAL_TRY_TIMES {
        m := m.(leftTryTimes := m.leftTryTimes - 1, lastSendTime := Tick(now.stamp), stampedAt := now.stamp);
        waitACKMsgList := waitACKMsgList[iter := m];
      } else {
        assert waitACKMsgList[iter := m] == waitACKMsgList;
      }
    }

    /** The erase-while-iterating loop: after an erase, iter denotes the element that
        followed, and the loop's ++iter steps past it. `readings` are the times of the
        clock at each element of the vector as it was on entry. */
    method TraverseAllMsg(readings: seq<Reading>, ghost end: nat)
      requires |readings| == |waitACKMsgList|
      modifies this`waitACKMsgList, this`log, this`expired, this`clock
      ensures View() == Apply(old(View()), Traverse(readings, end))
    {
      ghost var n, i := |waitACKMsgList|, 0;
      ghost var st := Stages(View(), readings, end);
      var iter, gone := 0, 0;  // `gone` only finds the readings of the element at iter
      while iter < |waitACKMsgList|
        invariant i == iter + gone <= n
        invariant st[i].pool == View() && st[i].iter == iter && Remaining(st, i) == n - i
        invariant st[i].skip ==> i == n
        decreases n - i
      {
        assert Advances(st, readings, i);
        var now := readings[iter + gone];
        if (Tick(now.test) - waitACKMsgList[iter].lastSendTime) % WORD > RESEND_AFTER {
          var erased := Overdue(iter, now);
          if erased {
            gone, i := gone + 1, i + 1;
            assert Remaining(st, i) == n - i;
            if iter == |waitACKMsgList| { break; }
            assert Advances(st, readings, i);
          }
          assert !st[i + 1].skip && st[i + 1].iter == iter + 1 && st[i + 1].pool == View();
        } else {
          assert !st[i + 1].skip && st[i + 1].iter == iter + 1 && st[i + 1].pool == View();
        }
        iter, i := iter + 1, i + 1;
        assert Remaining(st, i) == n - i;
      }
      clock := end;
    }
  }
}
