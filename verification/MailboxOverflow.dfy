/**
  A run in which the average number of used slots comes out wrong: in the polling mode, with its one slot,
  after enough calls, read while the next call is between its two counters.
*/
module MailboxOverflow {
  import opened BitMasks
  import opened MailboxModel
  import opened MailboxQueue
  import opened MailboxStats
  import opened Options
  import opened Words

  const POLLING: Config := Config(1, false)

  // ---------------------------------------------------------------- one call after the other

  // Between two calls, after `calls` of them
  ghost predicate Calm(s: State, calls: nat) {
    && s.q.empty == 1 && s.q.pend == s.q.replied == 0 && |s.q.slots| == 1
    && s.tasks == map[] && s.sem == 1 && s.isr.IsrIdle? && s.sec == [Rest]
    && s.q.nrTx == s.q.nrUsed == s.txTotal == calls
  }

  // After a call was transmitted, with its message pending
  ghost predicate Sent(s: State, calls: nat, msg: Msg) {
    && s.q.empty == 0 && s.q.pend == 1 && s.q.replied == 0 && |s.q.slots| == 1 && s.q.slots[0].msg == msg
    && (exists since :: s.tasks == map[0 := Waiting(msg, 0, since)]) && s.sem == 0 && s.isr.IsrIdle? && s.sec == [Rest]
    && s.q.nrTx == s.q.nrUsed == s.txTotal == calls
  }

  // After the secure core replied to it
  ghost predicate Answered(s: State, calls: nat, msg: Msg) {
    && s.q.empty == 0 && s.q.pend == 0 && s.q.replied == 1 && |s.q.slots| == 1
    && (exists since :: s.tasks == map[0 := Waiting(msg, 0, since)]) && s.sem == 0 && s.isr.IsrIdle? && s.sec == [Rest]
    && s.q.nrTx == s.q.nrUsed == s.txTotal == calls
  }

  lemma InitiallyCalm()
    ensures Calm(Initial(POLLING), 0)
  {
    assert Pow2(0) == 1;
  }

  // The bits of a mask of one slot
  lemma OneBit()
    ensures !TestBit(0, 0) && TestBit(1, 0)
    ensures SetBit(0, 0) == 1 && ClearBit(1, 0) == 0 && LowestBit(1, 1) == 0
    ensures CountBits(0, 1) == 0
  {
    assert CountBits(0, 1) == CountBits(0, 0) + if TestBit(0, 0) then 1 else 0;
  }

  lemma {:induction false} StepsThen(s: State, evs: seq<Event>, more: seq<Event>)
    requires Steps(POLLING, s, evs).Some?
    ensures Steps(POLLING, s, evs + more) == Steps(POLLING, Steps(POLLING, s, evs).value, more)
    decreases |evs|
  {
    if evs == [] {
      assert evs + more == more;
    } else {
      assert (evs + more)[1..] == evs[1..] + more;
      StepsThen(Step(POLLING, s, evs[0]), evs[1..], more);
    }
  }

  lemma OneStep(s: State, ev: Event)
    requires |s.q.slots| == |s.sec| == 1 && Enabled(POLLING, s, ev)
    ensures Steps(POLLING, s, [ev]) == Some(Step(POLLING, s, ev))
  {
    assert [ev] == [ev] + [];
    StepsFirst(POLLING, s, ev, []);
  }

  lemma SendFromEmpty(q: Queue, msg: Msg)
    requires q.empty == 1 && q.pend == 0 && |q.slots| == 1 && q.nrTx + 1 < TWO_32 && q.nrUsed + 1 < TWO_32
    ensures Acquire(q, 1) == (0, q.(empty := 0))
    ensures Send(q.(empty := 0), 1, 0, msg, 0, true)
         == q.(empty := 0, pend := 1, nrTx := q.nrTx + 1, nrUsed := q.nrUsed + 1, slots := [q.slots[0].(msg := msg, owner := 0)])
  {
    OneBit();
  }

  lemma Sends(s: State, calls: nat, msg: Msg) returns (evs: seq<Event>)
    requires Calm(s, calls) && calls + 1 < TWO_32
    ensures Steps(POLLING, s, evs).Some? && Sent(Steps(POLLING, s, evs).value, calls + 1, msg)
  {
    var s1 := Step(POLLING, s, LockEv(0, msg));
    SendFromEmpty(s.q, msg);
    SendIsItsSteps(POLLING, s1, 0, 0, true);
    evs := [LockEv(0, msg)] + SendEvents(0, 0, true);
    StepsFirst(POLLING, s, LockEv(0, msg), SendEvents(0, 0, true));
    var s2 := Steps(POLLING, s1, SendEvents(0, 0, true)).value;
    assert s2.tasks == map[0 := Waiting(msg, 0, |s.log|)];
  }

  lemma Replies(s: State, calls: nat, msg: Msg) returns (evs: seq<Event>)
    requires Sent(s, calls, msg)
    ensures Steps(POLLING, s, evs).Some? && Answered(Steps(POLLING, s, evs).value, calls, msg)
  {
    OneBit();
    var s1 := Step(POLLING, s, SecTakeEv(0));
    var s2 := Step(POLLING, s1, SecWriteEv(0, 0));
    evs := [SecTakeEv(0)] + ([SecWriteEv(0, 0)] + [SecReplyEv(0)]);
    StepsFirst(POLLING, s, SecTakeEv(0), [SecWriteEv(0, 0)] + [SecReplyEv(0)]);
    StepsFirst(POLLING, s1, SecWriteEv(0, 0), [SecReplyEv(0)]);
    OneStep(s2, SecReplyEv(0));
  }

  lemma Receives(s: State, calls: nat, msg: Msg) returns (evs: seq<Event>)
    requires Answered(s, calls, msg)
    ensures Steps(POLLING, s, evs).Some? && Calm(Steps(POLLING, s, evs).value, calls)
  {
    OneBit();
    var receive := [FetchEv(0)] + [ReleaseEv(0)];
    var s1 := Step(POLLING, s, ObserveEv(0));
    ReceiveIsItsSteps(POLLING, s1, 0);
    var s2 := Steps(POLLING, s1, receive).value;
    OneStep(s2, UnlockEv(0, true));
    StepsThen(s1, receive, [UnlockEv(0, true)]);
    evs := [ObserveEv(0)] + (receive + [UnlockEv(0, true)]);
    StepsFirst(POLLING, s, ObserveEv(0), receive + [UnlockEv(0, true)]);
    assert Step(POLLING, s2, UnlockEv(0, true)).tasks == map[];
  }

  lemma CallCompletes(s: State, calls: nat, msg: Msg) returns (evs: seq<Event>)
    requires Calm(s, calls) && calls + 1 < TWO_32
    ensures Steps(POLLING, s, evs).Some? && Calm(Steps(POLLING, s, evs).value, calls + 1)
  {
    var send := Sends(s, calls, msg);
    var s1 := Steps(POLLING, s, send).value;
    var reply := Replies(s1, calls + 1, msg);
    var s2 := Steps(POLLING, s1, reply).value;
    var receive := Receives(s2, calls + 1, msg);
    StepsThen(s1, reply, receive);
    StepsThen(s, send, reply + receive);
    evs := send + (reply + receive);
  }

  // ---------------------------------------------------------------- any number of calls

  lemma {:induction false} RunThen(trace: seq<Event>, s: State, evs: seq<Event>)
    requires Run(POLLING, trace) == Some(s) && Steps(POLLING, s, evs).Some?
    ensures Run(POLLING, trace + evs) == Steps(POLLING, s, evs)
    decreases |evs|
  {
    if evs == [] {
      assert trace + evs == trace;
    } else {
      RunNext(POLLING, trace, s, evs[0]);
      RunThen(trace + [evs[0]], Step(POLLING, s, evs[0]), evs[1..]);
      assert trace + [evs[0]] + evs[1..] == trace + evs;
    }
  }

  lemma {:induction false} ManyCalls(calls: nat, msg: Msg) returns (trace: seq<Event>)
    requires calls < TWO_32
    ensures Run(POLLING, trace).Some? && Calm(Run(POLLING, trace).value, calls)
    decreases calls
  {
    if calls == 0 {
      trace := [];
      InitiallyCalm();
    } else {
      var before := ManyCalls(calls - 1, msg);
      var s := Run(POLLING, before).value;
      var evs := CallCompletes(s, calls - 1, msg);
      RunThen(before, s, evs);
      trace := before + evs;
    }
  }

  // The next call has counted its transmission and not yet its slot.
  lemma Counts(s: State, calls: nat, msg: Msg) returns (evs: seq<Event>)
    requires Calm(s, calls) && calls + 1 < TWO_32
    ensures Steps(POLLING, s, evs).Some?
    ensures var s' := Steps(POLLING, s, evs).value; s'.q.nrTx == calls + 1 && s'.q.nrUsed == calls && Counting(s') == {0}
  {
    OneBit();
    var s1 := Step(POLLING, s, LockEv(0, msg));
    var s2 := Step(POLLING, s1, AcquireEv(0));
    evs := [LockEv(0, msg)] + ([AcquireEv(0)] + [CountEv(0)]);
    StepsFirst(POLLING, s, LockEv(0, msg), [AcquireEv(0)] + [CountEv(0)]);
    StepsFirst(POLLING, s1, AcquireEv(0), [CountEv(0)]);
    OneStep(s2, CountEv(0));
  }

  /** For every number of calls below the limit of the counters there is a run in which so many have completed and the
      next one has counted its transmission and not yet its slot. */
  lemma OneMoreTransmission(calls: nat, msg: Msg) returns (trace: seq<Event>)
    requires calls + 1 < TWO_32
    ensures Run(POLLING, trace).Some?
    ensures Run(POLLING, trace).value.q.nrTx == calls + 1 && Run(POLLING, trace).value.q.nrUsed == calls
  {
    var before := ManyCalls(calls, msg);
    var s := Run(POLLING, before).value;
    var evs := Counts(s, calls, msg);
    RunThen(before, s, evs);
    trace := before + evs;
  }

  // ---------------------------------------------------------------- the average

  // 429496730 slots in 429496731 transmissions: the tenths are 0 instead of 9.
  lemma TenthsOverflow()
    ensures var used, tx := 429_496_730, 429_496_731;
            used % tx * 10 >= TWO_32 && Average(used, tx) == (0, 0) && 10 * used / tx == 9
  {
  }

  /** A run in which the tenths of the average are wrong. */
  lemma AverageGoesWrong(msg: Msg) returns (trace: seq<Event>)
    ensures Run(POLLING, trace).Some?
    ensures var q := Run(POLLING, trace).value.q;
            q.nrTx > 0 && 10 * Average(q.nrUsed, q.nrTx).0 + Average(q.nrUsed, q.nrTx).1 != 10 * q.nrUsed / q.nrTx
  {
    trace := OneMoreTransmission(429_496_730, msg);
    TenthsOverflow();
  }
}
