/**
  What holds in every run of the Secure Partition Manager after boot.
*/
module SpmTheorems {
  import opened Options
  import opened Sequences
  import opened SpmModel
  import opened SpmRuns

  // ---------------------------------------------------------------- interrupts

  // Interrupts taken minus interrupts returned from, among the events i, ..., j - 1
  function Depth(trace: seq<Event>, i: nat, j: nat): int
    requires i <= j <= |trace|
  {
    if i == j then 0
    else Depth(trace, i, j - 1) + (if trace[j - 1].IrqEv? then 1 else if trace[j - 1].IrqReturnEv? then -1 else 0)
  }

  // The interrupt in progress before and after one event of a run
  lemma FramesAt(cfg: Config, confs: seq<Conf>, trace: seq<Event>, i: nat)
    requires IsRun(cfg, confs, trace) && i < |trace|
    ensures var c, d, ev := confs[i], confs[i + 1], trace[i];
            && (ev.IrqEv? ==> d.hist.frames == c.hist.frames + [Frame(c.state.ctl, IdxOf(cfg.statics, ev.handlerId))])
            && (ev.IrqReturnEv? ==> d.hist.frames == if c.hist.frames == [] then [] else c.hist.frames[..|c.hist.frames| - 1])
            && (!ev.IrqEv? && !ev.IrqReturnEv? ==> d.hist.frames == c.hist.frames)
  {
    assert StepAt(cfg, confs, trace, i);
  }

  // Whatever happens inside an interrupt, the frames below it stay, and one frame is added for
  // each interrupt still in progress.
  lemma {:induction false} FramesBelow(cfg: Config, confs: seq<Conf>, trace: seq<Event>, i: nat, j: nat)
    requires IsRun(cfg, confs, trace) && i <= j <= |trace|
    requires forall m :: i <= m <= j ==> Depth(trace, i, m) >= 0
    ensures |confs[j].hist.frames| == |confs[i].hist.frames| + Depth(trace, i, j)
    ensures confs[i].hist.frames <= confs[j].hist.frames
    decreases j
  {
    if i < j {
      FramesBelow(cfg, confs, trace, i, j - 1);
      FramesAt(cfg, confs, trace, j - 1);
    }
  }

  /** The return from an interrupt brings back the control state from just before it. */
  lemma IrqReturnPops(cfg: Config, c: Conf, d: Conf)
    requires cfg.Valid() && Reachable(cfg, c) && StepConf(cfg, c, IrqReturnEv) == Some(d)
    ensures c.hist.frames != [] && d.state == c.state.(ctl := c.hist.frames[|c.hist.frames| - 1].pre)
  {
    IrqReturnStepIs(cfg, c, d);
    HandlingHasFrame(cfg, c);
  }

  lemma HandlingHasFrame(cfg: Config, c: Conf)
    requires cfg.Valid() && Reachable(cfg, c) && Sized(cfg, c.state) && c.state.ctl.running < |cfg.statics|
    requires c.state.ctl.parts[c.state.ctl.running].state == HANDLING_IRQ
    ensures c.hist.frames != []
    ensures IrqLeave(cfg, c.state) == Next(c.state.(ctl := c.hist.frames[|c.hist.frames| - 1].pre))
  {
    ReachableInv(cfg, c);
    IrqReturnBack(cfg, c);
  }

  lemma IrqReturnAt(cfg: Config, confs: seq<Conf>, trace: seq<Event>, j: nat)
    requires cfg.Valid() && IsRun(cfg, confs, trace) && j < |trace| && trace[j].IrqReturnEv?
    ensures confs[j].hist.frames != []
    ensures confs[j + 1].state.ctl == confs[j].hist.frames[|confs[j].hist.frames| - 1].pre
  {
    PrefixReachable(cfg, confs, trace, j);
    assert StepAt(cfg, confs, trace, j);
    IrqReturnPops(cfg, confs[j], confs[j + 1]);
  }

  // The event j returns from the interrupt that the event i took.
  ghost predicate Matched(trace: seq<Event>, i: nat, j: nat)
    requires i < j < |trace|
  {
    && trace[i].IrqEv? && trace[j].IrqReturnEv?
    && var from := i + 1;
       Depth(trace, from, j) == 0 && forall m :: from <= m <= j ==> Depth(trace, from, m) >= 0
  }

  /** In every run, the return that matches an interrupt restores exactly the partition states, caller
      indices, context stacks, identities, lock and running index from just before it was taken. */
  lemma MatchedReturnRestores(cfg: Config, confs: seq<Conf>, trace: seq<Event>, i: nat, j: nat)
    requires cfg.Valid() && IsRun(cfg, confs, trace) && i < j < |trace| && Matched(trace, i, j)
    ensures confs[j + 1].state.ctl == confs[i].state.ctl
    ensures confs[j + 1].hist.frames == confs[i].hist.frames
  {
    FramesAt(cfg, confs, trace, i);
    FramesBelow(cfg, confs, trace, i + 1, j);
    FramesAt(cfg, confs, trace, j);
    IrqReturnAt(cfg, confs, trace, j);
  }

  // The words one interrupt put on the context stack of p
  function Pushed(f: Frame, p: nat): seq<nat>
    requires f.handler < |f.pre.parts| && f.pre.running < |f.pre.parts|
  {
    (if f.pre.running == p then [f.pre.parts[f.pre.running].state] else []) +
    (if f.handler == p then [f.pre.parts[f.handler].state, f.pre.parts[f.handler].caller] else [])
  }

  lemma EnterPushes(c: Control, h: nat, p: nat)
    requires c.running < |c.parts| && h < |c.parts| && p < |c.parts|
    ensures IrqEnterCtl(c, h).parts[p].ctx == c.parts[p].ctx + Pushed(Frame(c, h), p)
  {
  }

  ghost predicate FramesInRange(frames: seq<Frame>) {
    forall k :: 0 <= k < |frames| ==> frames[k].handler < |frames[k].pre.parts| && frames[k].pre.running < |frames[k].pre.parts|
  }

  // What the global stack of interrupts contributes to partition p
  ghost function Projection(frames: seq<Frame>, p: nat): seq<nat>
    requires FramesInRange(frames)
  {
    if frames == [] then [] else Projection(frames[..|frames| - 1], p) + Pushed(frames[|frames| - 1], p)
  }

  lemma {:induction false} NestedFramesInRange(cfg: Config, c: Control, frames: seq<Frame>)
    requires Nested(cfg, c, frames)
    ensures FramesInRange(frames)
    decreases |frames|
  {
    if frames != [] {
      NestedFramesInRange(cfg, frames[|frames| - 1].pre, frames[..|frames| - 1]);
    }
  }

  lemma {:induction false} StackIsProjection(cfg: Config, c: Control, frames: seq<Frame>, p: nat)
    requires Nested(cfg, c, frames) && FramesInRange(frames) && p < |c.parts|
    requires p < |Bottom(c, frames).parts| && Bottom(c, frames).parts[p].ctx == []
    ensures c.parts[p].ctx == Projection(frames, p)
    decreases |frames|
  {
    if frames != [] {
      var f := frames[|frames| - 1];
      assert c.parts[p].ctx == f.pre.parts[p].ctx + Pushed(f, p) by { EnterPushes(f.pre, f.handler, p); }
      NestedShrinks(cfg, c, frames);
      StackIsProjection(cfg, f.pre, frames[..|frames| - 1], p);
    }
  }

  /** In every run, the context stack of each partition is its projection of the one global stack of
      interrupts in progress. */
  lemma ContextStacksAreProjections(cfg: Config, c: Conf)
    requires cfg.Valid() && Reachable(cfg, c)
    ensures FramesInRange(c.hist.frames) &&
            forall p :: 0 <= p < |c.state.ctl.parts| ==> c.state.ctl.parts[p].ctx == Projection(c.hist.frames, p)
  {
    ReachableInv(cfg, c);
    NestedFramesInRange(cfg, c.state.ctl, c.hist.frames);
    forall p | 0 <= p < |c.state.ctl.parts| ensures c.state.ctl.parts[p].ctx == Projection(c.hist.frames, p) {
      BottomSized(cfg, c.state.ctl, c.hist.frames);
      StackIsProjection(cfg, c.state.ctl, c.hist.frames, p);
    }
  }

  lemma BottomSized(cfg: Config, c: Control, frames: seq<Frame>)
    requires Nested(cfg, c, frames)
    ensures |Bottom(c, frames).parts| == |c.parts|
    decreases |frames|
  {
    if frames != [] {
      NestedShrinks(cfg, c, frames);
      BottomSized(cfg, frames[|frames| - 1].pre, frames[..|frames| - 1]);
    }
  }

  // How many interrupts in progress partition p handles
  function Handling(frames: seq<Frame>, p: nat): nat {
    if frames == [] then 0
    else Handling(frames[..|frames| - 1], p) + (if frames[|frames| - 1].handler == p then 1 else 0)
  }

  function WasInterrupted(frames: seq<Frame>, p: nat): nat {
    if frames == [] then 0
    else WasInterrupted(frames[..|frames| - 1], p) + (if frames[|frames| - 1].pre.running == p then 1 else 0)
  }

  // Between two interruptions of a partition it must have become a handler.
  lemma {:induction false} InterruptedAtMostOnceMore(cfg: Config, c: Control, frames: seq<Frame>, p: nat)
    requires Nested(cfg, c, frames) && FramesInRange(frames)
    ensures |Projection(frames, p)| == WasInterrupted(frames, p) + 2 * Handling(frames, p)
    ensures WasInterrupted(frames, p) + (if c.running == p then 1 else 0) <= 1 + Handling(frames, p)
    decreases |frames|
  {
    if frames != [] {
      var f := frames[|frames| - 1];
      assert c.running == f.handler;
      InterruptedAtMostOnceMore(cfg, f.pre, frames[..|frames| - 1], p);
    }
  }

  /** The documented size of the context stacks is enough: while a partition handles no more
      interrupts at a time than it has interrupt sources, it never uses more than
      intr_ctx_size + IRQ_CNT * (intr_ctx_size + hndl_ctx_size) words. */
  lemma ContextStackSizeIsEnough(cfg: Config, c: Conf, p: nat, irqCount: nat)
    requires cfg.Valid() && Reachable(cfg, c)
    requires p < |cfg.statics| && Handling(c.hist.frames, p) <= irqCount
    ensures p < |c.state.ctl.parts|
    ensures |c.state.ctl.parts[p].ctx| <= 1 + irqCount * (1 + 2)
  {
    ReachableInv(cfg, c);
    ContextStacksAreProjections(cfg, c);
    InterruptedAtMostOnceMore(cfg, c.state.ctl, c.hist.frames, p);
  }

  /** In every run exactly one partition is RUNNING or HANDLING_IRQ: the one running_partition_idx names.
      It is handling an interrupt exactly while one is in progress. */
  lemma OnePartitionActive(cfg: Config, c: Conf)
    requires cfg.Valid() && Reachable(cfg, c)
    ensures && UniqueActive(c.state.ctl)
            && (c.state.ctl.parts[c.state.ctl.running].state == HANDLING_IRQ <==> c.hist.frames != [])
  {
    ReachableInv(cfg, c);
    NestedMeansHandling(cfg, c);
  }

  /** No permitted step of any run indexes outside the database, a context stack or memory. */
  lemma NeverUndefined(cfg: Config, c: Conf, ev: Event)
    requires cfg.Valid() && Reachable(cfg, c)
    ensures var s := c.state;
            && Sized(cfg, s) && s.ctl.running < |cfg.statics|
            && (Permitted(cfg, s, ev) ==> !Step(cfg, s, ev).Undefined?)
  {
    ReachableInv(cfg, c);
    NestedMeansHandling(cfg, c);
    if Permitted(cfg, c.state, ev) {
      StepDefined(cfg, c, ev);
    }
  }

  // ---------------------------------------------------------------- the caller chain

  // Pop interrupt frames until the running partition is not handling an interrupt.
  ghost function Unwind(c: Control, atMost: nat): Control
    decreases atMost
  {
    if atMost == 0 || c.running >= |c.parts| || c.parts[c.running].state != HANDLING_IRQ || !IrqLeaveDefined(c) then c
    else Unwind(IrqLeaveCtl(c), atMost - 1)
  }

  lemma {:induction false} UnwindReachesBottom(cfg: Config, c: Control, frames: seq<Frame>, ch: seq<nat>)
    requires Nested(cfg, c, frames) && Topology(cfg, Bottom(c, frames), ch)
    ensures Unwind(c, |frames|) == Bottom(c, frames)
    decreases |frames|
  {
    if frames != [] {
      var f, below := frames[|frames| - 1], frames[..|frames| - 1];
      NestedUniqueActive(cfg, c, frames, ch);
      NestedLeave(cfg, c, frames, ch);
      assert Unwind(c, |frames|) == Unwind(f.pre, |below|);
      NestedShrinks(cfg, c, frames);
      UnwindReachesBottom(cfg, f.pre, below, ch);
    }
  }

  // The partitions met when caller_partition_idx is followed from p, at most n of them
  function CallerPath(c: Control, p: nat, n: nat): seq<nat>
    decreases n
  {
    if n == 0 || p >= |c.parts| then [] else [p] + CallerPath(c, c.parts[p].caller, n - 1)
  }

  function Reverse(s: seq<nat>): (r: seq<nat>)
    ensures |r| == |s| && forall i :: 0 <= i < |s| ==> r[i] == s[|s| - 1 - i]
  {
    seq(|s|, i requires 0 <= i < |s| => s[|s| - 1 - i])
  }

  lemma CallerOnChain(cfg: Config, c: Control, acts: seq<Activation>, k: nat)
    requires BaseInv(cfg, c, acts) && k <= |acts|
    ensures CalledByPrevious(c, Chain(acts), k)
  {
    if k > 0 {
      assert Captured(cfg, c, acts[k - 1]);
    }
  }

  ghost predicate CalledByPrevious(c: Control, ch: seq<nat>, k: nat)
    requires k < |ch|
  {
    ch[k] < |c.parts| && c.parts[ch[k]].caller == if k == 0 then INVALID_IDX else ch[k - 1]
  }

  lemma {:induction false} CallerPathIsReverse(c: Control, ch: seq<nat>, k: nat, n: nat)
    requires |c.parts| < INVALID_IDX && k < |ch| && k < n
    requires forall j :: 0 <= j < |ch| ==> CalledByPrevious(c, ch, j)
    ensures CallerPath(c, ch[k], n) == Reverse(ch[..k + 1])
    decreases k
  {
    assert CalledByPrevious(c, ch, k);
    if k > 0 {
      CallerPathIsReverse(c, ch, k - 1, n - 1);
    }
    assert Reverse(ch[..k + 1]) == [ch[k]] + Reverse(ch[..k]);
  }

  lemma ChainFits(cfg: Config, c: Control, ch: seq<nat>)
    requires Topology(cfg, c, ch)
    ensures |ch| < |c.parts| || |c.parts| <= 1
  {
    if |c.parts| > 1 {
      var rest := ch + [CORE];
      PigeonHole(rest, |c.parts|);
    }
  }

  lemma BaseCallerPath(cfg: Config, c: Control, acts: seq<Activation>)
    requires cfg.Valid() && BaseInv(cfg, c, acts)
    ensures |acts| + 1 < |cfg.statics|
    ensures CallerPath(c, c.running, |cfg.statics|) == Reverse(Chain(acts))
  {
    var ch := Chain(acts);
    ChainFits(cfg, c, ch);
    forall j | 0 <= j < |ch| ensures CalledByPrevious(c, ch, j) {
      CallerOnChain(cfg, c, acts, j);
    }
    CallerPathIsReverse(c, ch, |acts|, |cfg.statics|);
    assert ch[..|acts| + 1] == ch;
  }

  // What the callers of the running partition look like when no interrupt is in progress.
  ghost predicate GoodCallerPath(c: Control, path: seq<nat>) {
    && path != [] && path[0] == c.running && path[|path| - 1] == NS && Distinct(path)
    && c.lock == |path| - 1
    && (forall p :: p in path ==> p < |c.parts| && c.parts[p].state == if p == c.running then RUNNING else BLOCKED)
  }

  lemma ReversedChainIsGood(cfg: Config, c: Control, ch: seq<nat>)
    requires Topology(cfg, c, ch)
    ensures GoodCallerPath(c, Reverse(ch))
  {
    forall p | p in Reverse(ch) ensures p < |c.parts| && c.parts[p].state == if p == c.running then RUNNING else BLOCKED {
      ReverseElements(ch, p);
      var k :| 0 <= k < |ch| && ch[k] == p;
    }
  }

  /** In every run, with the interrupts in progress unwound, following the callers from the running
      partition meets distinct partitions, all BLOCKED after the first, and ends at the non-secure
      one; the secure lock counts the links, so it is never negative and stays below the number of
      partitions. */
  lemma CallerChain(cfg: Config, c: Conf)
    requires cfg.Valid() && Reachable(cfg, c)
    ensures var base := Unwind(c.state.ctl, |c.hist.frames|);
            && GoodCallerPath(base, CallerPath(base, base.running, |cfg.statics|))
            && base.lock == c.state.ctl.lock == |c.hist.acts| < |cfg.statics| - 1
  {
    ReachableInv(cfg, c);
    UnwindReachesBottom(cfg, c.state.ctl, c.hist.frames, Chain(c.hist.acts));
    BaseCallerPath(cfg, Bottom(c.state.ctl, c.hist.frames), c.hist.acts);
    ReversedChainIsGood(cfg, Bottom(c.state.ctl, c.hist.frames), Chain(c.hist.acts));
    NestedKeepsRecords(cfg, c.state.ctl, c.hist.frames, NS);
  }

  lemma ReverseElements(s: seq<nat>, p: nat)
    ensures p in Reverse(s) <==> p in s
  {
    if p in s {
      var k :| 0 <= k < |s| && s[k] == p;
      assert Reverse(s)[|s| - 1 - k] == p;
    }
  }

  // An interrupt leaves the lock, and every identity, saved context and vector, alone.
  lemma {:induction false} NestedKeepsRecords(cfg: Config, c: Control, frames: seq<Frame>, p: nat)
    requires Nested(cfg, c, frames) && p < |cfg.statics|
    ensures var b := Bottom(c, frames);
            && |b.parts| == |c.parts| == |cfg.statics| && b.lock == c.lock
            && b.parts[p].clientId == c.parts[p].clientId && b.parts[p].iovec == c.parts[p].iovec
            && b.parts[p].stackPtr == c.parts[p].stackPtr && b.parts[p].lr == c.parts[p].lr
    decreases |frames|
  {
    if frames != [] {
      var f := frames[|frames| - 1];
      NestedShrinks(cfg, c, frames);
      NestedKeepsRecords(cfg, f.pre, frames[..|frames| - 1], p);
    }
  }

  /** In every run the lock counts the calls in progress, and the running partition is in the state RUNNING
      exactly if no interrupt handler is active. */
  lemma LockCountsCalls(cfg: Config, c: Conf)
    requires cfg.Valid() && Reachable(cfg, c)
    ensures Sized(cfg, c.state) && |c.state.mem| == cfg.memSize && c.state.ctl.running < |cfg.statics|
    ensures c.state.ctl.lock == |c.hist.acts|
    ensures c.state.ctl.parts[c.state.ctl.running].state == RUNNING <==> c.hist.frames == []
  {
    ReachableInv(cfg, c);
    NestedMeansHandling(cfg, c);
    NestedKeepsRecords(cfg, c.state.ctl, c.hist.frames, NS);
  }

  /** Non-secure code enters the secure side only when it is unlocked: with no secure call in
      progress, from the running non-secure partition, to an idle service. */
  lemma NsEntryOnlyUnlocked(cfg: Config, c: Conf, r: Request)
    requires cfg.Valid() && Reachable(cfg, c) && r.nsCaller
    requires StepConf(cfg, c, CallEv(r)).Some?
    ensures && c.state.ctl.lock == 0 && c.hist.acts == [] && c.hist.frames == []
            && c.state.ctl.running == NS && r.nsClientId < 0
            && IdxOf(cfg.statics, r.spId) < |c.state.ctl.parts|
            && c.state.ctl.parts[IdxOf(cfg.statics, r.spId)].state == IDLE
  {
    LockCountsCalls(cfg, c);
    NsCallFinds(cfg, c.state, r);
  }

  lemma NsCallFinds(cfg: Config, s: State, r: Request)
    requires cfg.Valid() && Sized(cfg, s) && s.ctl.running < |cfg.statics| && |s.mem| == cfg.memSize && r.nsCaller
    requires Call(cfg, s, r, false).Next?
    ensures s.ctl.lock == 0 && s.ctl.running == NS && r.nsClientId < 0 && s.ctl.parts[NS].state == RUNNING
    ensures IdxOf(cfg.statics, r.spId) < |s.ctl.parts| && s.ctl.parts[IdxOf(cfg.statics, r.spId)].state == IDLE
  {
  }

  // ---------------------------------------------------------------- identity, context, vectors

  /** In every run, under any interrupts, each partition on the call chain holds the identity
      captured when it was activated: a negative one exactly if non-secure code called it directly,
      otherwise the positive identifier of the partition that called it. */
  lemma IdentityIsKept(cfg: Config, c: Conf, k: nat)
    requires cfg.Valid() && Reachable(cfg, c)
    requires k < |c.hist.acts|
    ensures var a := c.hist.acts[k];
            && |c.state.ctl.parts| == |cfg.statics| && a.idx < |cfg.statics| && a.caller == Chain(c.hist.acts)[k] < |cfg.statics|
            && c.state.ctl.parts[a.idx].clientId == (if k == 0 then a.req.nsClientId else cfg.statics[a.caller].id)
            && (c.state.ctl.parts[a.idx].clientId < 0 <==> k == 0)
  {
    ReachableInv(cfg, c);
    IdentityAtBottom(cfg, Bottom(c.state.ctl, c.hist.frames), c.hist.acts, k);
    NestedKeepsRecords(cfg, c.state.ctl, c.hist.frames, c.hist.acts[k].idx);
  }

  lemma IdentityAtBottom(cfg: Config, base: Control, acts: seq<Activation>, k: nat)
    requires cfg.Valid() && BaseInv(cfg, base, acts) && k < |acts|
    ensures var a := acts[k];
            && |base.parts| == |cfg.statics| && a.idx < |cfg.statics| && a.caller == Chain(acts)[k] < |cfg.statics|
            && base.parts[a.idx].clientId == (if k == 0 then a.req.nsClientId else cfg.statics[a.caller].id)
            && (base.parts[a.idx].clientId < 0 <==> k == 0)
  {
    assert Captured(cfg, base, acts[k]);
  }

  /** What a service learns when it asks who called it: a service that runs on behalf of a call, and no
      other code, gets an answer where it may write one, and it is the identity of the caller. */
  lemma CallerClientIdIsTrue(cfg: Config, c: Conf, accessOk: bool)
    requires cfg.Valid() && Reachable(cfg, c)
    ensures && |c.state.ctl.parts| == |cfg.statics| && c.state.ctl.running < |cfg.statics|
            && var (id, status) := CallerClientId(cfg, c.state.ctl, accessOk);
               && (status == Success <==> c.hist.acts != [] && c.hist.frames == [] && accessOk)
               && (status == Success ==> id == Identity(cfg, c.hist.acts[|c.hist.acts| - 1]))
  {
    LockCountsCalls(cfg, c);
    if c.hist.frames == [] {
      CallerOfTop(cfg, c);
    } else {
      HandlerIsActive(cfg, c);
    }
  }

  lemma HandlerIsActive(cfg: Config, c: Conf)
    requires cfg.Valid() && Reachable(cfg, c) && c.hist.frames != []
    ensures c.state.ctl.running < |c.state.ctl.parts| && c.state.ctl.parts[c.state.ctl.running].state == HANDLING_IRQ
  {
    ReachableInv(cfg, c);
    NestedMeansHandling(cfg, c);
  }

  // Outside of interrupts non-secure code runs exactly if no call is in progress, and a service runs with
  // the identity of its caller.
  lemma CallerOfTop(cfg: Config, c: Conf)
    requires cfg.Valid() && Reachable(cfg, c) && c.hist.frames == []
    ensures c.state.ctl.running < |c.state.ctl.parts| == |cfg.statics|
    ensures c.state.ctl.running == NS <==> c.hist.acts == []
    ensures c.hist.acts != [] ==>
              c.state.ctl.parts[c.state.ctl.running].clientId == Identity(cfg, c.hist.acts[|c.hist.acts| - 1])
  {
    ReachableInv(cfg, c);
    if c.hist.acts != [] {
      TopOfChain(cfg, c.state.ctl, c.hist.acts);
      assert Chain(c.hist.acts)[0] == NS;
    }
  }

  /** A call from non-secure code hands the service a copy of exactly the vectors it named in memory. */
  lemma NsCallCopiesVectors(cfg: Config, c: Conf, r: Request, d: Conf)
    requires cfg.Valid() && Reachable(cfg, c) && r.nsCaller && StepConf(cfg, c, CallEv(r)) == Some(d)
    ensures 0 <= r.inLen && 0 <= r.outLen && d.hist.acts == [Activate(cfg, c.state, r)]
    ensures SameVectors(d.state.copy, Activate(cfg, c.state, r), true) && d.state.mem == c.state.mem
  {
    LockCountsCalls(cfg, c);
    NsEntryOnlyUnlocked(cfg, c, r);
    CallEffect(cfg, c.state, r);
    CallCaptures(cfg, c.state, r, d.state);
  }

  lemma SecureCallKeepsCopy(cfg: Config, c: Conf, r: Request, d: Conf)
    requires cfg.Valid() && Reachable(cfg, c) && c.hist.acts != [] && StepConf(cfg, c, CallEv(r)) == Some(d)
    ensures d.state.copy == c.state.copy && d.hist.acts[0] == c.hist.acts[0]
  {
    LockCountsCalls(cfg, c);
    if Call(cfg, c.state, r, false).Next? {
      CallEffect(cfg, c.state, r);
    }
  }

  /** A return that is not the last one changes the database only. */
  lemma NestedReturn(cfg: Config, c: Conf, d: Conf)
    requires cfg.Valid() && Reachable(cfg, c) && StepConf(cfg, c, ReturnEv) == Some(d) && d.hist.acts != []
    ensures d.state == c.state.(ctl := d.state.ctl)
    ensures c.hist.acts != [] && d.hist.acts == c.hist.acts[..|c.hist.acts| - 1]
  {
    ReturnStepIs(cfg, c, d);
    ReturnFindsCall(cfg, c);
  }

  lemma ReturnFindsCall(cfg: Config, c: Conf)
    requires cfg.Valid() && Reachable(cfg, c) && Sized(cfg, c.state) && c.state.ctl.running < |cfg.statics|
    requires c.state.ctl.parts[c.state.ctl.running].state == RUNNING && Return(cfg, c.state, false).Next?
    ensures c.hist.frames == [] && c.hist.acts != []
    ensures var caller := c.state.ctl.parts[c.state.ctl.running].caller;
            && caller < |cfg.statics| && caller != c.state.ctl.running
            && (cfg.statics[caller].appRot <==> |c.hist.acts| > 1)
  {
    ReachableInv(cfg, c);
    ReturnFinds(cfg, c);
  }

  /** In every reachable configuration the copy holds the vectors of the call in progress, in all but
      the out lengths. */
  lemma CopyHoldsVectors(cfg: Config, c: Conf)
    requires cfg.Valid() && Reachable(cfg, c) && c.hist.acts != []
    ensures SameVectors(c.state.copy, c.hist.acts[0], false)
  {
    ReachableInv(cfg, c);
  }

  /** The copy stays that of the call in progress through nested calls and interrupts: only the service
      itself changes it. */
  lemma CopyIsKept(cfg: Config, c: Conf, ev: Event, d: Conf)
    requires cfg.Valid() && Reachable(cfg, c) && StepConf(cfg, c, ev) == Some(d)
    requires c.hist.acts != [] && d.hist.acts != [] && !ev.SetOutLenEv?
    ensures d.hist.acts[0] == c.hist.acts[0] && d.state.copy == c.state.copy
  {
    if ev.CallEv? {
      SecureCallKeepsCopy(cfg, c, ev.req, d);
    } else if ev.ReturnEv? {
      NestedReturn(cfg, c, d);
    }
  }

  lemma {:induction false} WriteBackEffect(mem: seq<nat>, ptr: nat, outVec: seq<Vec>, n: nat)
    requires n <= |outVec| && ptr + 2 * n <= |mem|
    ensures var m := WriteBack(mem, ptr, outVec, n);
            && (forall i :: 0 <= i < n ==> m[ptr + 2 * i + 1] == outVec[i].len)
            && (forall a :: 0 <= a < |mem| && !(ptr <= a < ptr + 2 * n && (a - ptr) % 2 == 1) ==> m[a] == mem[a])
  {
    if n > 0 {
      WriteBackEffect(mem, ptr, outVec, n - 1);
    }
  }

  // m differs from mem only in the lengths of the out-vectors at ptr, which are those of outVec.
  ghost predicate OnlyLengthsWritten(mem: seq<nat>, m: seq<nat>, ptr: nat, outVec: seq<Vec>, n: nat) {
    && |m| == |mem| && n <= |outVec| && ptr + 2 * n <= |mem|
    && (forall i :: 0 <= i < n ==> m[ptr + 2 * i + 1] == outVec[i].len)
    && (forall a :: 0 <= a < |mem| && !(ptr <= a < ptr + 2 * n && (a - ptr) % 2 == 1) ==> m[a] == mem[a])
  }

  /** When control returns to non-secure code it resumes with exactly the stack pointer and the
      exception-return value with which that code called in. Its memory changes only in the lengths
      of its out-vectors, to the lengths the service left, and the copy is cleared. */
  lemma ReturnToNonSecure(cfg: Config, c: Conf, d: Conf)
    requires cfg.Valid() && Reachable(cfg, c) && StepConf(cfg, c, ReturnEv) == Some(d) && d.hist.acts == []
    ensures |c.hist.acts| == 1 && NsReturn(c.state, c.hist.acts[0], d.state)
  {
    ReachableInv(cfg, c);
    assert c.hist.frames == [] by { NestedMeansHandling(cfg, c); }
    ReturnDefined(cfg, c.state, c.hist.acts);
    NsReturnEffect(cfg, c);
  }

  lemma NsReturnEffect(cfg: Config, c: Conf)
    requires cfg.Valid() && Inv(cfg, c) && c.hist.frames == [] && |c.hist.acts| == 1
    requires Return(cfg, c.state, false).Next?
    ensures NsReturn(c.state, c.hist.acts[0], Return(cfg, c.state, false).state)
  {
    var a := c.hist.acts[0];
    TopOfChain(cfg, c.state.ctl, c.hist.acts);
    ReturnToNs(cfg, c.state.ctl, c.hist.acts);
    WriteBackEffect(c.state.mem, a.req.outPtr, c.state.copy.outVec, |a.outs|);
  }

  lemma ActsAt(cfg: Config, confs: seq<Conf>, trace: seq<Event>, i: nat, n: nat)
    requires IsRun(cfg, confs, trace) && i < |trace| && n <= |confs[i].hist.acts| && n <= |confs[i + 1].hist.acts|
    ensures confs[i + 1].hist.acts[..n] == confs[i].hist.acts[..n]
  {
    assert StepAt(cfg, confs, trace, i);
  }

  // While a call is in progress its activation stays recorded.
  lemma {:induction false} ActivationsBelow(cfg: Config, confs: seq<Conf>, trace: seq<Event>, i: nat, j: nat, n: nat)
    requires IsRun(cfg, confs, trace) && i <= j <= |trace|
    requires forall m :: i <= m <= j ==> |confs[m].hist.acts| >= n
    ensures confs[i].hist.acts[..n] == confs[j].hist.acts[..n]
    decreases j
  {
    if i < j {
      ActivationsBelow(cfg, confs, trace, i, j - 1, n);
      ActsAt(cfg, confs, trace, j - 1, n);
    }
  }

  lemma NsCallAt(cfg: Config, confs: seq<Conf>, trace: seq<Event>, i: nat)
    requires cfg.Valid() && IsRun(cfg, confs, trace) && i < |trace| && trace[i].CallEv? && trace[i].req.nsCaller
    ensures trace[i].req.inLen >= 0 && trace[i].req.outLen >= 0
    ensures confs[i + 1].hist.acts == [Activate(cfg, confs[i].state, trace[i].req)]
    ensures SameVectors(confs[i + 1].state.copy, Activate(cfg, confs[i].state, trace[i].req), true)
  {
    PrefixReachable(cfg, confs, trace, i);
    assert StepAt(cfg, confs, trace, i);
    NsCallCopiesVectors(cfg, confs[i], trace[i].req, confs[i + 1]);
  }

  // What the return to non-secure code from s to s' does, when a is the call it ends
  ghost predicate NsReturn(s: State, a: Activation, s': State) {
    && s.ctl.running < |s.ctl.parts| && s.ctl.parts[s.ctl.running].caller == NS < |s.ctl.parts|
    && ReturnTarget(s.ctl) == (a.req.psp, a.req.excReturn)
    && s'.ctl.running == NS && s'.copy == NO_IOVEC
    && OnlyLengthsWritten(s.mem, s'.mem, a.req.outPtr, s.copy.outVec, |a.outs|)
  }

  lemma NsReturnAt(cfg: Config, confs: seq<Conf>, trace: seq<Event>, j: nat)
    requires cfg.Valid() && IsRun(cfg, confs, trace) && j < |trace| && trace[j].ReturnEv? && confs[j + 1].hist.acts == []
    ensures |confs[j].hist.acts| == 1 && NsReturn(confs[j].state, confs[j].hist.acts[0], confs[j + 1].state)
  {
    PrefixReachable(cfg, confs, trace, j);
    assert StepAt(cfg, confs, trace, j);
    ReturnToNonSecure(cfg, confs[j], confs[j + 1]);
  }

  // The copy after the service's own updates of out lengths among the events i, ..., j - 1
  function Updated(copy: IovecArgs, trace: seq<Event>, i: nat, j: nat): IovecArgs
    requires i <= j <= |trace|
  {
    if i == j then copy
    else
      var c, ev := Updated(copy, trace, i, j - 1), trace[j - 1];
      if ev.SetOutLenEv? && ev.i < |c.outVec| then c.(outVec := c.outVec[ev.i := c.outVec[ev.i].(len := ev.len)]) else c
  }

  lemma CopyAt(cfg: Config, confs: seq<Conf>, trace: seq<Event>, k: nat)
    requires cfg.Valid() && IsRun(cfg, confs, trace) && k < |trace|
    requires confs[k].hist.acts != [] && confs[k + 1].hist.acts != []
    ensures confs[k + 1].state.copy == Updated(confs[k].state.copy, trace, k, k + 1)
  {
    PrefixReachable(cfg, confs, trace, k);
    assert StepAt(cfg, confs, trace, k);
    assert Updated(confs[k].state.copy, trace, k, k) == confs[k].state.copy;
    if !trace[k].SetOutLenEv? {
      CopyIsKept(cfg, confs[k], trace[k], confs[k + 1]);
    }
  }

  lemma UpdatedNext(copy: IovecArgs, trace: seq<Event>, i: nat, j: nat)
    requires i <= j < |trace|
    ensures Updated(copy, trace, i, j + 1) == Updated(Updated(copy, trace, i, j), trace, j, j + 1)
  {
    assert Updated(Updated(copy, trace, i, j), trace, j, j) == Updated(copy, trace, i, j);
  }

  /** While a call from non-secure code is in progress, through nested calls and interrupts of any depth, the copy
      changes exactly by the updates the services make. */
  lemma {:induction false} CopyOverRun(cfg: Config, confs: seq<Conf>, trace: seq<Event>, i: nat, j: nat)
    requires cfg.Valid() && IsRun(cfg, confs, trace) && i <= j <= |trace|
    requires forall m :: i <= m <= j ==> |confs[m].hist.acts| >= 1
    ensures confs[j].state.copy == Updated(confs[i].state.copy, trace, i, j)
    decreases j
  {
    if i < j {
      CopyOverRun(cfg, confs, trace, i, j - 1);
      CopyAt(cfg, confs, trace, j - 1);
      UpdatedNext(confs[i].state.copy, trace, i, j - 1);
    }
  }

  // Memory after the writes of code other than the partition manager among the events i, ..., j - 1
  function Written(mem: seq<nat>, trace: seq<Event>, i: nat, j: nat): seq<nat>
    requires i <= j <= |trace|
  {
    if i == j then mem
    else
      var m, ev := Written(mem, trace, i, j - 1), trace[j - 1];
      if ev.WriteMemEv? && ev.addr < |m| then m[ev.addr := ev.value] else m
  }

  /** The partition manager writes memory only when it returns to non-secure code. */
  lemma MemIsKept(cfg: Config, c: Conf, ev: Event, d: Conf)
    requires cfg.Valid() && Reachable(cfg, c) && StepConf(cfg, c, ev) == Some(d)
    requires !ev.WriteMemEv? && (ev.ReturnEv? ==> d.hist.acts != [])
    ensures d.state.mem == c.state.mem
  {
    if ev.CallEv? {
      CallKeepsMem(cfg, c, ev.req, d);
    } else if ev.ReturnEv? {
      NestedReturn(cfg, c, d);
    }
  }

  lemma CallKeepsMem(cfg: Config, c: Conf, r: Request, d: Conf)
    requires cfg.Valid() && Reachable(cfg, c) && StepConf(cfg, c, CallEv(r)) == Some(d)
    ensures d.state.mem == c.state.mem
  {
    LockCountsCalls(cfg, c);
    if Call(cfg, c.state, r, false).Next? {
      CallEffect(cfg, c.state, r);
    }
  }

  lemma MemAt(cfg: Config, confs: seq<Conf>, trace: seq<Event>, k: nat)
    requires cfg.Valid() && IsRun(cfg, confs, trace) && k < |trace| && confs[k + 1].hist.acts != []
    ensures confs[k + 1].state.mem == Written(confs[k].state.mem, trace, k, k + 1)
  {
    PrefixReachable(cfg, confs, trace, k);
    assert StepAt(cfg, confs, trace, k);
    assert Written(confs[k].state.mem, trace, k, k) == confs[k].state.mem;
    if !trace[k].WriteMemEv? {
      MemIsKept(cfg, confs[k], trace[k], confs[k + 1]);
    }
  }

  lemma WrittenNext(mem: seq<nat>, trace: seq<Event>, i: nat, j: nat)
    requires i <= j < |trace|
    ensures Written(mem, trace, i, j + 1) == Written(Written(mem, trace, i, j), trace, j, j + 1)
  {
    assert Written(Written(mem, trace, i, j), trace, j, j) == Written(mem, trace, i, j);
  }

  /** From a call on, while calls are in progress, memory changes exactly by the writes of other code. */
  lemma {:induction false} MemOverRun(cfg: Config, confs: seq<Conf>, trace: seq<Event>, i: nat, j: nat)
    requires cfg.Valid() && IsRun(cfg, confs, trace) && i <= j <= |trace|
    requires forall m :: i < m <= j ==> |confs[m].hist.acts| >= 1
    ensures confs[j].state.mem == Written(confs[i].state.mem, trace, i, j)
    decreases j
  {
    if i < j {
      MemOverRun(cfg, confs, trace, i, j - 1);
      MemAt(cfg, confs, trace, j - 1);
      WrittenNext(confs[i].state.mem, trace, i, j - 1);
    }
  }

  /** Whatever runs between a call from non-secure code and its return, nested calls and interrupts of any depth,
      control resumes with the stack pointer and exception-return value of that call. From the call to the return
      memory changes exactly by the writes of other code in between and, at the return, in the lengths of the
      out-vectors that the call named: to those handed over at the call, as the services updated them since. */
  lemma NsCallRoundTrip(cfg: Config, confs: seq<Conf>, trace: seq<Event>, i: nat, j: nat)
    requires cfg.Valid() && IsRun(cfg, confs, trace)
    requires i < j < |trace| && trace[i].CallEv? && trace[i].req.nsCaller && trace[j].ReturnEv?
    requires confs[j + 1].hist.acts == [] && forall m :: i < m <= j ==> |confs[m].hist.acts| >= 1
    ensures trace[i].req.inLen >= 0 && trace[i].req.outLen >= 0
    ensures var a := Activate(cfg, confs[i].state, trace[i].req);
            && NsReturn(confs[j].state, a, confs[j + 1].state) && SameVectors(confs[i + 1].state.copy, a, true)
            && confs[j].state.copy == Updated(confs[i + 1].state.copy, trace, i + 1, j)
            && confs[j].state.mem == Written(confs[i].state.mem, trace, i, j)
  {
    NsCallAt(cfg, confs, trace, i);
    ActivationsBelow(cfg, confs, trace, i + 1, j, 1);
    NsReturnAt(cfg, confs, trace, j);
    assert confs[j].hist.acts[0] == confs[j].hist.acts[..1][0] == confs[i + 1].hist.acts[..1][0];
    CopyOverRun(cfg, confs, trace, i + 1, j);
    MemOverRun(cfg, confs, trace, i, j);
  }

  lemma PrefixReachable(cfg: Config, confs: seq<Conf>, trace: seq<Event>, i: nat)
    requires IsRun(cfg, confs, trace) && i <= |trace|
    ensures Reachable(cfg, confs[i])
  {
    var cs, t := confs[..i + 1], trace[..i];
    forall k | 0 <= k < |t| ensures StepAt(cfg, cs, t, k) {
      assert StepAt(cfg, confs, trace, k);
    }
    assert IsRun(cfg, cs, t) && cs[|t|] == confs[i];
  }
}
