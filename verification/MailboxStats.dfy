/**
  The transmission statistics of the mailbox: the average number of slots in use, to one decimal.
*/
module MailboxStats {
  import opened BitMasks
  import opened MailboxModel
  import opened MailboxProofs
  import opened Options
  import opened Words

  // The tasks between the two critical sections of a statistics update
  function Counting(s: State): set<nat> {
    set t | t in s.tasks && s.tasks[t].Counted?
  }

  // Until a counter wraps, each transmission counted adds at most N used slots, now or later.
  ghost predicate StatsOk(cfg: Config, s: State) {
    && (forall t :: t in s.tasks && s.tasks[t].Counted? ==> s.tasks[t].used <= cfg.n)
    && (cfg.n * s.txTotal < TWO_32 ==>
          s.q.nrTx == s.txTotal && s.q.nrUsed + cfg.n * |Counting(s)| <= cfg.n * s.txTotal)
  }

  // nr_used_slots is at most N for each transmission counted, unless a counter may have wrapped.
  ghost predicate Bounded(cfg: Config, s: State) {
    cfg.n * s.txTotal < TWO_32 ==> s.q.nrTx == s.txTotal && s.q.nrUsed <= cfg.n * s.q.nrTx
  }

  lemma Distribute(n: nat, a: nat)
    ensures n * (a + 1) == n * a + n
  {
  }

  lemma CountArithmetic(n: nat, tx: nat, counting: nat, used: nat)
    requires n >= 1 && n * (tx + 1) < TWO_32
    ensures n * tx < TWO_32 && tx + 1 < TWO_32
    ensures used + n * counting <= n * tx ==> used + n * (counting + 1) <= n * (tx + 1)
  {
    Distribute(n, tx);
    Distribute(n, counting);
    assert tx + 1 <= n * (tx + 1) by { MulLe(1, n, tx + 1); }
  }

  lemma CountKeepsStats(cfg: Config, s: State, t: nat)
    requires |s.q.slots| == |s.sec| == cfg.n && cfg.n >= 1 && StatsOk(cfg, s) && Enabled(cfg, s, CountEv(t))
    ensures StatsOk(cfg, Step(cfg, s, CountEv(t)))
  {
    var s' := Step(cfg, s, CountEv(t));
    assert Counting(s') == Counting(s) + {t};
    assert |Counting(s')| == |Counting(s)| + 1;
    if cfg.n * s'.txTotal < TWO_32 {
      CountArithmetic(cfg.n, s.txTotal, |Counting(s)|, s.q.nrUsed);
    }
  }

  lemma AddUsedKeepsStats(cfg: Config, s: State, t: nat)
    requires |s.q.slots| == |s.sec| == cfg.n && StatsOk(cfg, s) && Enabled(cfg, s, AddUsedEv(t))
    ensures StatsOk(cfg, Step(cfg, s, AddUsedEv(t)))
  {
    var s' := Step(cfg, s, AddUsedEv(t));
    assert Counting(s) == Counting(s') + {t};
    assert |Counting(s)| == |Counting(s')| + 1;
    if cfg.n * s'.txTotal < TWO_32 {
      AddUsedArithmetic(cfg.n, s.txTotal, |Counting(s')|, s.q.nrUsed, s.tasks[t].used);
    }
  }

  lemma AddUsedArithmetic(n: nat, tx: nat, counting: nat, nrUsed: nat, used: nat)
    requires nrUsed + n * (counting + 1) <= n * tx < TWO_32 && used <= n
    ensures (nrUsed + used) % TWO_32 == nrUsed + used && nrUsed + used + n * counting <= n * tx
  {
    Distribute(n, counting);
  }

  lemma StepKeepsStats(cfg: Config, s: State, ev: Event)
    requires |s.q.slots| == |s.sec| == cfg.n && cfg.n >= 1 && StatsOk(cfg, s) && Enabled(cfg, s, ev) && !ev.ResetEv?
    ensures StatsOk(cfg, Step(cfg, s, ev))
  {
    if ev.CountEv? {
      CountKeepsStats(cfg, s, ev.t);
    } else if ev.AddUsedEv? {
      AddUsedKeepsStats(cfg, s, ev.t);
    } else {
      assert Counting(Step(cfg, s, ev)) == Counting(s);
    }
  }

  // ---------------------------------------------------------------- resetting the statistics

  lemma {:induction false} NotAllEmpty(m: nat, n: nat, i: nat)
    requires i < n && !TestBit(m, i)
    ensures CountBits(m, n) < n
    decreases n
  {
    if i < n - 1 {
      NotAllEmpty(m, n - 1, i);
    }
  }

  // A task that counts has a slot itself, so it counts at least one.
  lemma {:induction false} CountsItsOwnSlot(cfg: Config, trace: seq<Event>, t: nat)
    requires cfg.Valid() && Run(cfg, trace).Some? && t in Counting(Run(cfg, trace).value)
    ensures 1 <= Run(cfg, trace).value.tasks[t].used <= cfg.n
    decreases |trace|
  {
    assert trace != [];
    var s, ev := Run(cfg, trace[..|trace| - 1]).value, trace[|trace| - 1];
    if ev.CountEv? && ev.t == t {
      RunKeepsInv(cfg, trace[..|trace| - 1]);
      NotAllEmpty(s.q.empty, cfg.n, s.tasks[t].idx);
    } else {
      CountsItsOwnSlot(cfg, trace[..|trace| - 1], t);
    }
  }

  // A reset that no task is in the middle of starts the statistics anew, whatever they were.
  lemma ResetStarts(cfg: Config, s: State)
    requires |s.q.slots| == |s.sec| == cfg.n && Counting(s) == {}
    ensures StatsOk(cfg, Step(cfg, s, ResetEv))
  {
    assert forall t :: t in s.tasks && s.tasks[t].Counted? ==> t in Counting(s);
    assert Counting(Step(cfg, s, ResetEv)) == {};
  }

  // No task was between its two counters at the last reset of a run, if there was one.
  ghost predicate LastResetClean(cfg: Config, trace: seq<Event>)
    requires cfg.Valid() && Run(cfg, trace).Some?
  {
    if trace == [] then true
    else if trace[|trace| - 1].ResetEv? then Counting(Run(cfg, trace[..|trace| - 1]).value) == {}
    else LastResetClean(cfg, trace[..|trace| - 1])
  }

  lemma StatsBound(n: nat, nrUsed: nat, counting: nat, tx: nat)
    requires nrUsed + n * counting <= n * tx
    ensures nrUsed <= n * tx
  {
  }

  lemma {:induction false} StatsStayOk(cfg: Config, trace: seq<Event>)
    requires cfg.Valid() && Run(cfg, trace).Some? && LastResetClean(cfg, trace)
    ensures StatsOk(cfg, Run(cfg, trace).value)
  {
    if trace == [] {
      assert Counting(Initial(cfg)) == {};
    } else {
      var s, ev := Run(cfg, trace[..|trace| - 1]).value, trace[|trace| - 1];
      if ev.ResetEv? {
        ResetStarts(cfg, s);
      } else {
        StatsStayOk(cfg, trace[..|trace| - 1]);
        StepKeepsStats(cfg, s, ev);
      }
    }
  }

  lemma OkIsBounded(cfg: Config, s: State)
    requires StatsOk(cfg, s)
    ensures Bounded(cfg, s)
  {
    if cfg.n * s.txTotal < TWO_32 {
      StatsBound(cfg.n, s.q.nrUsed, |Counting(s)|, s.txTotal);
    }
  }

  /** In every interleaving without counter wrap the used slots counted are at most N per transmission, if no task was
      between its two counters at the last reset; in particular without any reset. */
  lemma UsedSlotsBounded(cfg: Config, trace: seq<Event>)
    requires cfg.Valid() && Run(cfg, trace).Some? && LastResetClean(cfg, trace)
    ensures Bounded(cfg, Run(cfg, trace).value)
  {
    StatsStayOk(cfg, trace);
    OkIsBounded(cfg, Run(cfg, trace).value);
  }

  ghost predicate NoReset(evs: seq<Event>) {
    forall k :: 0 <= k < |evs| ==> !evs[k].ResetEv?
  }

  lemma {:induction false} StepsKeepStats(cfg: Config, s: State, evs: seq<Event>)
    requires cfg.n >= 1 && StatsOk(cfg, s) && NoReset(evs) && Steps(cfg, s, evs).Some?
    ensures StatsOk(cfg, Steps(cfg, s, evs).value)
    decreases |evs|
  {
    if evs != [] {
      StepKeepsStats(cfg, s, evs[0]);
      StepsKeepStats(cfg, Step(cfg, s, evs[0]), evs[1..]);
    }
  }

  // The two counters of a task may be on either side of the reset.
  lemma ResetSplitsUpdate(cfg: Config, trace: seq<Event>, s: State, t: nat)
    requires cfg.Valid() && Run(cfg, trace) == Some(s) && t in Counting(s) && |s.q.slots| == |s.sec| == cfg.n
    ensures var s' := Steps(cfg, Step(cfg, s, ResetEv), [AddUsedEv(t)]);
            s'.Some? && s'.value.txTotal == s'.value.q.nrTx == 0 < s'.value.q.nrUsed
  {
    CountsItsOwnSlot(cfg, trace, t);
    ResetThenAddUsed(cfg, s, t);
  }

  lemma ResetThenAddUsed(cfg: Config, s: State, t: nat)
    requires |s.q.slots| == |s.sec| == cfg.n <= 32 && t in s.tasks && s.tasks[t].Counted? && 1 <= s.tasks[t].used <= cfg.n
    ensures var s' := Steps(cfg, Step(cfg, s, ResetEv), [AddUsedEv(t)]);
            s'.Some? && s'.value.txTotal == s'.value.q.nrTx == 0 < s'.value.q.nrUsed
  {
    assert [AddUsedEv(t)] == [AddUsedEv(t)] + [];
    StepsFirst(cfg, Step(cfg, s, ResetEv), AddUsedEv(t), []);
  }

  // From here on, until the next reset, whatever the parties do, the bound holds.
  ghost predicate StaysBounded(cfg: Config, s: State) {
    forall evs :: NoReset(evs) && Steps(cfg, s, evs).Some? ==> Bounded(cfg, Steps(cfg, s, evs).value)
  }

  /** In every run, with any resets before: after a reset of the statistics the bound holds until the next one, whatever
      the parties do, if and only if at the reset no task is between its two counters. */
  lemma ResetKeepsBound(cfg: Config, trace: seq<Event>)
    requires cfg.Valid() && Run(cfg, trace).Some?
    ensures var s := Run(cfg, trace).value;
            && |s.q.slots| == |s.sec| == cfg.n
            && (StaysBounded(cfg, Step(cfg, s, ResetEv)) <==> Counting(s) == {})
  {
    var s := Run(cfg, trace).value;
    RunIsSized(cfg, trace);
    if Counting(s) == {} {
      ResetStaysBounded(cfg, s);
    } else {
      var t :| t in Counting(s);
      ResetSplitsUpdate(cfg, trace, s, t);
      GoesOver(cfg, Step(cfg, s, ResetEv), [AddUsedEv(t)]);
    }
  }

  lemma GoesOver(cfg: Config, s: State, evs: seq<Event>)
    requires NoReset(evs) && Steps(cfg, s, evs).Some?
    requires var s' := Steps(cfg, s, evs).value; s'.txTotal == s'.q.nrTx == 0 < s'.q.nrUsed
    ensures !StaysBounded(cfg, s)
  {
    ExceedsBound(cfg, Steps(cfg, s, evs).value);
  }

  lemma ExceedsBound(cfg: Config, s: State)
    requires s.txTotal == s.q.nrTx == 0 < s.q.nrUsed
    ensures !Bounded(cfg, s)
  {
    assert cfg.n * s.txTotal == 0 && cfg.n * s.q.nrTx == 0;
  }

  lemma RunIsSized(cfg: Config, trace: seq<Event>)
    requires cfg.Valid() && Run(cfg, trace).Some?
    ensures |Run(cfg, trace).value.q.slots| == |Run(cfg, trace).value.sec| == cfg.n
  {
    RunKeepsInv(cfg, trace);
  }

  lemma ResetStaysBounded(cfg: Config, s: State)
    requires |s.q.slots| == |s.sec| == cfg.n >= 1 && Counting(s) == {}
    ensures StaysBounded(cfg, Step(cfg, s, ResetEv))
  {
    var r := Step(cfg, s, ResetEv);
    ResetStarts(cfg, s);
    forall evs | NoReset(evs) && Steps(cfg, r, evs).Some? ensures Bounded(cfg, Steps(cfg, r, evs).value) {
      StepsKeepStats(cfg, r, evs);
      OkIsBounded(cfg, Steps(cfg, r, evs).value);
    }
  }

  lemma FirstCallAcquires(cfg: Config, msg: Msg) returns (s: State)
    requires cfg.Valid()
    ensures Run(cfg, [LockEv(0, msg)] + [AcquireEv(0)]) == Some(s) && |s.q.slots| == |s.sec| == cfg.n
    ensures 0 in s.tasks && s.tasks[0].Acquired?
  {
    var s0 := Initial(cfg);
    assert [LockEv(0, msg)] == [] + [LockEv(0, msg)];
    RunNext(cfg, [], s0, LockEv(0, msg));
    var s1 := Step(cfg, s0, LockEv(0, msg));
    assert s1.q.empty != 0 && LowestBit(s1.q.empty, cfg.n) < cfg.n by {
      RunKeepsInv(cfg, [LockEv(0, msg)]);
      NotFull(cfg, s1, 0);
    }
    RunNext(cfg, [LockEv(0, msg)], s1, AcquireEv(0));
    s := Step(cfg, s1, AcquireEv(0));
  }

  /** A run in which it fails: a reset while the first call is counted. */
  lemma ResetWhileCounting(cfg: Config, msg: Msg)
    requires cfg.Valid()
    ensures var trace := [LockEv(0, msg), AcquireEv(0), CountEv(0)];
            && Run(cfg, trace).Some? && |Run(cfg, trace).value.q.slots| == |Run(cfg, trace).value.sec| == cfg.n
            && !StaysBounded(cfg, Step(cfg, Run(cfg, trace).value, ResetEv))
  {
    var t2, t3 := [LockEv(0, msg)] + [AcquireEv(0)], [LockEv(0, msg), AcquireEv(0), CountEv(0)];
    var s2 := FirstCallAcquires(cfg, msg);
    assert t3 == t2 + [CountEv(0)];
    RunNext(cfg, t2, s2, CountEv(0));
    assert 0 in Counting(Run(cfg, t3).value);
    ResetKeepsBound(cfg, t3);
  }

  // ---------------------------------------------------------------- the average

  // tfm_ns_mailbox_stats_avg_slot: uint32_t arithmetic, uint8_t results
  function Average(used: nat, tx: nat): (nat, nat)
    requires tx > 0
  {
    (used / tx % 256, used % tx * 10 % TWO_32 / tx % 256)
  }

  lemma MulLe(a: nat, b: nat, d: nat)
    requires a <= b
    ensures a * d <= b * d
  {
    assert b * d - a * d == (b - a) * d;
  }

  lemma Division(x: nat, d: nat)
    requires d > 0
    ensures 0 <= x / d && 0 <= x % d < d && x == x / d * d + x % d
  {
  }

  lemma QuotientUnique(d: nat, q: nat, r: nat, q2: nat, r2: nat)
    requires q * d + r == q2 * d + r2 && r < d && r2 < d
    ensures q == q2
  {
    if q2 > q {
      MulLe(q + 1, q2, d);
      Distribute(d, q);
    } else if q2 < q {
      MulLe(q2 + 1, q, d);
      Distribute(d, q2);
    }
  }

  lemma DivUnique(x: nat, d: nat, q: nat, r: nat)
    requires x == q * d + r && r < d
    ensures x / d == q
  {
    Division(x, d);
    QuotientUnique(d, q, r, x / d, x % d);
  }

  lemma QuotientBelow(d: nat, q: nat, r: nat, k: nat)
    requires q * d + r < k * d
    ensures q < k
  {
    if q >= k {
      MulLe(k, q, d);
    }
  }

  lemma DivBelow(x: nat, d: nat, k: nat)
    requires d > 0 && x < k * d
    ensures 0 <= x / d < k
  {
    Division(x, d);
    QuotientBelow(d, x / d, x % d, k);
  }

  lemma QuotientDrops(d: nat, q: nat, r: nat, q2: nat, r2: nat)
    requires q2 * d + r2 + d <= q * d + r && r < d
    ensures q2 < q
  {
    Distribute(d, q2);
    QuotientBelow(d, q2 + 1, r2, q + 1);
    Distribute(d, q);
  }

  lemma DivDrops(x: nat, y: nat, d: nat)
    requires d > 0 && y + d <= x
    ensures 0 <= y / d < x / d
  {
    Division(x, d);
    Division(y, d);
    QuotientDrops(d, x / d, x % d, y / d, y % d);
  }

  lemma Regroup(q: nat, t: nat, d: nat, r: nat, rest: nat)
    requires r * 10 == t * d + rest
    ensures 10 * (q * d + r) == (10 * q + t) * d + rest
  {
    assert (10 * q + t) * d == (10 * q) * d + t * d;
    assert (10 * q) * d == 10 * (q * d);
  }

  // The average with unbounded arithmetic, from its quotient q and remainder r
  lemma TenthsOfAverage(used: nat, tx: nat, q: nat, r: nat)
    requires r < tx && used == q * tx + r
    ensures 0 <= r * 10 / tx <= 9
    ensures 10 * q + r * 10 / tx == 10 * used / tx
  {
    var x := r * 10;
    DivBelow(x, tx, 10);
    Division(x, tx);
    var t, rest := x / tx, x % tx;
    Regroup(q, t, tx, r, rest);
    DivUnique(10 * used, tx, 10 * q + t, rest);
  }

  lemma ReducedWord(x: nat)
    ensures 0 <= x % TWO_32 <= x
    ensures if x < TWO_32 then x % TWO_32 == x else x % TWO_32 + TWO_32 <= x
  {
  }

  // Reducing the product by ten to 32 bits changes the tenths exactly if it overflows.
  lemma TenthsInWord(r: nat, tx: nat)
    requires r < tx < TWO_32
    ensures 0 <= r * 10 % TWO_32 / tx <= r * 10 / tx <= 9
    ensures r * 10 % TWO_32 / tx == r * 10 / tx <==> r * 10 < TWO_32
  {
    var x := r * 10;
    var y := x % TWO_32;
    ReducedWord(x);
    DivBelow(x, tx, 10);
    if x >= TWO_32 {
      DivDrops(x, y, tx);
    }
  }

  /** When at most N slots were used per transmission, the whole part fits its byte, and the two results give
      the average rounded down to tenths exactly if the multiplication by ten does not overflow. */
  lemma AverageIsExact(used: nat, tx: nat, n: nat)
    requires 0 < tx < TWO_32 && n <= 32 && used <= n * tx
    ensures var (avg, tenths) := Average(used, tx);
            && avg == used / tx <= n && tenths <= 9
            && (10 * avg + tenths == 10 * used / tx <==> used % tx * 10 < TWO_32)
  {
    WholePart(used, tx, n);
    Division(used, tx);
    var q, r := used / tx, used % tx;
    AverageFrom(used, tx, n, q, r);
  }

  lemma AverageFrom(used: nat, tx: nat, n: nat, q: nat, r: nat)
    requires 0 < tx < TWO_32 && q <= n <= 32 && r < tx && used == q * tx + r
    ensures q % 256 == q && r * 10 % TWO_32 / tx % 256 == r * 10 % TWO_32 / tx <= 9
    ensures 10 * q + r * 10 % TWO_32 / tx == 10 * used / tx <==> r * 10 < TWO_32
  {
    TenthsOfAverage(used, tx, q, r);
    TenthsInWord(r, tx);
    InByte(q);
    InByte(r * 10 % TWO_32 / tx);
  }

  lemma InByte(a: nat)
    requires a < 256
    ensures a % 256 == a
  {
  }

  lemma WholePart(used: nat, tx: nat, n: nat)
    requires tx > 0 && used <= n * tx
    ensures used / tx <= n
  {
    Distribute(tx, n);
    DivBelow(used, tx, n + 1);
  }
}
