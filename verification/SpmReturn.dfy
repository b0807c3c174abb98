/**
  The function return, update by update. From thread mode it runs with interrupts enabled, so any number of
  interrupts, nested in any way, may come between its updates of the database, and their handlers may write
  memory, set out lengths and end interrupts. None of that changes what the return does.
*/
module SpmReturn {
  import opened Options
  import opened SpmModel
  import opened SpmRuns
  import opened SpmTheorems

  // ---------------------------------------------------------------- what handlers do

  // An interrupt, and what happens while it is handled: other interrupts, and the handler's own effects
  datatype Irq = Irq(handler: nat, signal: bv32, acts: seq<Act>)

  datatype Act =
    | Nested(irq: Irq)
    | Write(addr: nat, value: nat)
    | OutLen(i: nat, len: nat)
    | Eoi(signal: bv32)

  // The state apart from who runs
  datatype Env = Env(masks: seq<bv32>, copy: IovecArgs, mem: seq<nat>)

  function EnvOf(s: State): Env { Env(s.masks, s.copy, s.mem) }

  function Join(c: Control, e: Env): State { State(c, e.masks, e.copy, e.mem) }

  predicate Fits(e: Env, n: nat, memSize: nat) { |e.masks| == n && e.copy.Shaped() && |e.mem| == memSize }

  // Handlers are partitions, and write what exists.
  predicate Known(irq: Irq, n: nat, memSize: nat)
    decreases irq
  {
    irq.handler < n && ActsKnown(irq.acts, n, memSize)
  }

  predicate ActsKnown(acts: seq<Act>, n: nat, memSize: nat)
    decreases acts
  {
    acts == [] || (ActKnown(acts[0], n, memSize) && ActsKnown(acts[1..], n, memSize))
  }

  predicate ActKnown(act: Act, n: nat, memSize: nat)
    decreases act
  {
    match act
    case Nested(irq) => Known(irq, n, memSize)
    case Write(a, _) => a < memSize
    case OutLen(i, _) => i < MAX_IOVEC
    case Eoi(_) => true
  }

  predicate AllKnown(irqs: seq<Irq>, n: nat, memSize: nat) {
    forall k :: 0 <= k < |irqs| ==> Known(irqs[k], n, memSize)
  }

  // ---------------------------------------------------------------- an interrupt on the whole state

  // What a handler does itself, as in the steps of a run
  function Own(s: State, act: Act): Option<State>
    requires !act.Nested?
  {
    match act
    case Write(a, v) => if a < |s.mem| then Some(s.(mem := s.mem[a := v])) else None
    case OutLen(i, n) =>
      if i < |s.copy.outVec| then Some(s.(copy := s.copy.(outVec := s.copy.outVec[i := s.copy.outVec[i].(len := n)])))
      else None
    case Eoi(sig) =>
      if s.ctl.running < |s.masks| then Some(s.(masks := s.masks[s.ctl.running := s.masks[s.ctl.running] & !sig]))
      else None
  }

  function Raise(masks: seq<bv32>, h: nat, sig: bv32): (m: seq<bv32>)
    ensures |m| == |masks|
  {
    if h < |masks| then masks[h := masks[h] | sig] else masks
  }

  function Entered(s: State, h: nat, sig: bv32): State
    requires s.ctl.running < |s.ctl.parts| && h < |s.ctl.parts|
  {
    s.(ctl := IrqEnterCtl(s.ctl, h), masks := Raise(s.masks, h, sig))
  }

  // Taking an interrupt, what happens while it is handled, and returning from it, if all of that is defined
  function Take(s: State, irq: Irq): Option<State>
    decreases irq
  {
    if s.ctl.running >= |s.ctl.parts| || irq.handler >= |s.ctl.parts| || irq.handler >= |s.masks| then None
    else
      match Handle(Entered(s, irq.handler, irq.signal), irq.acts)
      case None => None
      case Some(d) => if IrqLeaveDefined(d.ctl) then Some(d.(ctl := IrqLeaveCtl(d.ctl))) else None
  }

  function Handle(s: State, acts: seq<Act>): Option<State>
    decreases acts
  {
    if acts == [] then Some(s)
    else
      match Happens(s, acts[0])
      case None => None
      case Some(d) => Handle(d, acts[1..])
  }

  function Happens(s: State, act: Act): Option<State>
    decreases act
  {
    if act.Nested? then Take(s, act.irq) else Own(s, act)
  }

  function TakeAll(s: State, irqs: seq<Irq>): Option<State>
    decreases |irqs|
  {
    if irqs == [] then Some(s)
    else
      match Take(s, irqs[0])
      case None => None
      case Some(d) => TakeAll(d, irqs[1..])
  }

  // ---------------------------------------------------------------- its effect, without regard to who runs

  function Effect(e: Env, irq: Irq): Env
    decreases irq
  {
    Effects(e.(masks := Raise(e.masks, irq.handler, irq.signal)), irq.handler, irq.acts)
  }

  function Effects(e: Env, h: nat, acts: seq<Act>): Env
    decreases acts
  {
    if acts == [] then e else Effects(ActEffect(e, h, acts[0]), h, acts[1..])
  }

  function ActEffect(e: Env, h: nat, act: Act): Env
    decreases act
  {
    match act
    case Nested(irq) => Effect(e, irq)
    case Write(a, v) => if a < |e.mem| then e.(mem := e.mem[a := v]) else e
    case OutLen(i, n) =>
      if i < |e.copy.outVec| then e.(copy := e.copy.(outVec := e.copy.outVec[i := e.copy.outVec[i].(len := n)])) else e
    case Eoi(sig) => if h < |e.masks| then e.(masks := e.masks[h := e.masks[h] & !sig]) else e
  }

  function AllEffects(e: Env, irqs: seq<Irq>): Env
    decreases |irqs|
  {
    if irqs == [] then e else AllEffects(Effect(e, irqs[0]), irqs[1..])
  }

  // ---------------------------------------------------------------- interrupts restore who runs

  // Entered from c to c1, handled, and left from c1 to c2
  lemma TakeIs(c: Control, e: Env, irq: Irq, c1: Control, c2: Control)
    requires c.running < |c.parts| && irq.handler < |c.parts| == |e.masks|
    requires c1 == IrqEnterCtl(c, irq.handler) && IrqLeaveDefined(c1) && IrqLeaveCtl(c1) == c2
    requires Handle(Join(c1, e.(masks := Raise(e.masks, irq.handler, irq.signal))), irq.acts) == Some(Join(c1, Effect(e, irq)))
    ensures Take(Join(c, e), irq) == Some(Join(c2, Effect(e, irq)))
  {
    assert Entered(Join(c, e), irq.handler, irq.signal) == Join(c1, e.(masks := Raise(e.masks, irq.handler, irq.signal)));
  }

  // While one partition is active, an interrupt has its effect and restores the whole control state.
  lemma {:induction false} TakeRestores(c: Control, e: Env, irq: Irq)
    requires UniqueActive(c) && Fits(e, |c.parts|, |e.mem|) && Known(irq, |c.parts|, |e.mem|)
    ensures Take(Join(c, e), irq) == Some(Join(c, Effect(e, irq)))
    ensures Fits(Effect(e, irq), |c.parts|, |e.mem|)
    decreases irq
  {
    var c1, e1 := IrqEnterCtl(c, irq.handler), e.(masks := Raise(e.masks, irq.handler, irq.signal));
    EnterKeepsUniqueActive(c, irq.handler);
    HandleRestores(c1, e1, irq.acts);
    LeaveUndoesEnter(c, irq.handler);
    TakeIs(c, e, irq, c1, c);
  }

  lemma {:induction false} HandleRestores(c: Control, e: Env, acts: seq<Act>)
    requires UniqueActive(c) && Fits(e, |c.parts|, |e.mem|) && ActsKnown(acts, |c.parts|, |e.mem|)
    ensures Handle(Join(c, e), acts) == Some(Join(c, Effects(e, c.running, acts)))
    ensures Fits(Effects(e, c.running, acts), |c.parts|, |e.mem|)
    decreases acts
  {
    if acts != [] {
      HappensRestores(c, e, acts[0]);
      HandleRestores(c, ActEffect(e, c.running, acts[0]), acts[1..]);
    }
  }

  lemma {:induction false} HappensRestores(c: Control, e: Env, act: Act)
    requires UniqueActive(c) && Fits(e, |c.parts|, |e.mem|) && ActKnown(act, |c.parts|, |e.mem|)
    ensures Happens(Join(c, e), act) == Some(Join(c, ActEffect(e, c.running, act)))
    ensures Fits(ActEffect(e, c.running, act), |c.parts|, |e.mem|)
    decreases act
  {
    if act.Nested? {
      TakeRestores(c, e, act.irq);
    }
  }

  /** While one partition is active, any interrupts, nested in any way, have the effects of their handlers and restore
      the whole control state. */
  lemma {:induction false} TakeAllRestores(c: Control, e: Env, irqs: seq<Irq>)
    requires UniqueActive(c) && Fits(e, |c.parts|, |e.mem|) && AllKnown(irqs, |c.parts|, |e.mem|)
    ensures TakeAll(Join(c, e), irqs) == Some(Join(c, AllEffects(e, irqs)))
    ensures Fits(AllEffects(e, irqs), |c.parts|, |e.mem|)
    decreases |irqs|
  {
    if irqs != [] {
      TakeRestores(c, e, irqs[0]);
      TakeAllRestores(c, Effect(e, irqs[0]), irqs[1..]);
    }
  }

  ghost predicate NoneActive(c: Control) {
    c.running < |c.parts| && forall p :: 0 <= p < |c.parts| ==> !Active(c.parts[p].state)
  }

  lemma EnterFromNoneActive(c: Control, h: nat)
    requires NoneActive(c) && h < |c.parts|
    ensures UniqueActive(IrqEnterCtl(c, h)) && IrqEnterCtl(c, h).running == h
  {
  }

  // An interrupt that finds no partition active leaves its handler named as running; all else is restored.
  lemma LeaveFindsNoneActive(c: Control, h: nat)
    requires NoneActive(c) && h < |c.parts|
    ensures IrqLeaveDefined(IrqEnterCtl(c, h))
    ensures IrqLeaveCtl(IrqEnterCtl(c, h)) == c.(running := h)
  {
    assert IrqLeaveCtl(IrqEnterCtl(c, h)).parts == c.parts;
  }

  lemma TakeFindsNoneActive(c: Control, e: Env, irq: Irq)
    requires NoneActive(c) && Fits(e, |c.parts|, |e.mem|) && Known(irq, |c.parts|, |e.mem|)
    ensures Take(Join(c, e), irq) == Some(Join(c.(running := irq.handler), Effect(e, irq)))
    ensures Fits(Effect(e, irq), |c.parts|, |e.mem|)
  {
    var c1, e1 := IrqEnterCtl(c, irq.handler), e.(masks := Raise(e.masks, irq.handler, irq.signal));
    EnterFromNoneActive(c, irq.handler);
    HandleRestores(c1, e1, irq.acts);
    LeaveFindsNoneActive(c, irq.handler);
    TakeIs(c, e, irq, c1, c.(running := irq.handler));
  }

  /** While no partition is active, any interrupts have the effects of their handlers and change the running index at
      most. */
  lemma {:induction false} TakeAllFindsNoneActive(c: Control, e: Env, irqs: seq<Irq>) returns (r: nat)
    requires NoneActive(c) && Fits(e, |c.parts|, |e.mem|) && AllKnown(irqs, |c.parts|, |e.mem|)
    ensures r < |c.parts| && TakeAll(Join(c, e), irqs) == Some(Join(c.(running := r), AllEffects(e, irqs)))
    ensures Fits(AllEffects(e, irqs), |c.parts|, |e.mem|)
    decreases |irqs|
  {
    if irqs == [] {
      r := c.running;
    } else {
      TakeFindsNoneActive(c, e, irqs[0]);
      r := TakeAllFindsNoneActive(c.(running := irqs[0].handler), Effect(e, irqs[0]), irqs[1..]);
    }
  }

  // ---------------------------------------------------------------- the updates of the return

  const UPDATES: nat := 4

  // The database updates of tfm_return_from_partition, in order
  function ReturnOp(c: Control, cur: nat, ret: nat, k: nat): (d: Control)
    requires cur < |c.parts| && ret < |c.parts|
    ensures |d.parts| == |c.parts|
  {
    if k == 0 then c.(lock := c.lock - 1)
    else if k == 1 then Cleanup(c, cur)
    else if k == 2 then SetState(c, cur, IDLE)
    else SetState(c, ret, RUNNING)
  }

  // The first k updates
  function ReturnOps(c: Control, cur: nat, ret: nat, k: nat): (d: Control)
    requires cur < |c.parts| && ret < |c.parts|
    ensures |d.parts| == |c.parts|
  {
    if k == 0 then c else ReturnOp(ReturnOps(c, cur, ret, k - 1), cur, ret, k - 1)
  }

  // The first k updates with interrupts before the first, between any two, and after the last
  function Interrupted(s: State, cur: nat, ret: nat, irqs: seq<seq<Irq>>, k: nat): Option<State>
    requires k < |irqs|
  {
    if k == 0 then TakeAll(s, irqs[0])
    else
      match Interrupted(s, cur, ret, irqs, k - 1)
      case None => None
      case Some(d) =>
        if cur < |d.ctl.parts| && ret < |d.ctl.parts| then TakeAll(d.(ctl := ReturnOp(d.ctl, cur, ret, k - 1)), irqs[k])
        else None
  }

  // The effects of all handlers up to there, in order
  function EffectsUpTo(e: Env, irqs: seq<seq<Irq>>, k: nat): Env
    requires k < |irqs|
  {
    AllEffects(if k == 0 then e else EffectsUpTo(e, irqs, k - 1), irqs[k])
  }

  function StateAfter(c: Control, ret: nat, k: nat, p: nat): nat
    requires p < |c.parts|
  {
    if p == c.running && k >= 3 then IDLE else if p == ret && k >= 4 then RUNNING else c.parts[p].state
  }

  // Which partition is named as running, and in which state each partition is, after k updates
  lemma {:induction false} StatesAfter(c: Control, ret: nat, k: nat)
    requires UniqueActive(c) && ret < |c.parts| && ret != c.running && k <= UPDATES
    ensures var d := ReturnOps(c, c.running, ret, k);
            && d.running == (if k == 4 then ret else c.running)
            && (forall p :: 0 <= p < |d.parts| ==> d.parts[p].state == StateAfter(c, ret, k, p))
  {
    if k > 0 {
      StatesAfter(c, ret, k - 1);
    }
  }

  lemma ActiveAfter(c: Control, ret: nat, k: nat)
    requires UniqueActive(c) && ret < |c.parts| && ret != c.running && k <= UPDATES
    ensures if k == 3 then NoneActive(ReturnOps(c, c.running, ret, k)) else UniqueActive(ReturnOps(c, c.running, ret, k))
  {
    StatesAfter(c, ret, k);
  }

  lemma SameRunning(c: Control)
    ensures c.(running := c.running) == c
  {
  }

  // The last update names the running partition itself.
  lemma NextOp(c: Control, cur: nat, ret: nat, k: nat, r: nat)
    requires cur < |c.parts| && ret < |c.parts| && (k != 3 ==> r == c.running)
    ensures ReturnOp(c.(running := r), cur, ret, k) == ReturnOp(c, cur, ret, k)
  {
    SameRunning(c);
  }

  // Interrupts at one point of the return: only between the third and the fourth update do they leave a trace.
  lemma CutPoint(c: Control, e: Env, ret: nat, irqs: seq<Irq>, k: nat) returns (r: nat)
    requires UniqueActive(c) && ret < |c.parts| && ret != c.running && k <= UPDATES
    requires Fits(e, |c.parts|, |e.mem|) && AllKnown(irqs, |c.parts|, |e.mem|)
    ensures var d := ReturnOps(c, c.running, ret, k);
            && r < |c.parts| && TakeAll(Join(d, e), irqs) == Some(Join(d.(running := r), AllEffects(e, irqs)))
            && (k != 3 ==> r == d.running)
    ensures Fits(AllEffects(e, irqs), |c.parts|, |e.mem|)
  {
    var d := ReturnOps(c, c.running, ret, k);
    ActiveAfter(c, ret, k);
    if k == 3 {
      r := TakeAllFindsNoneActive(d, e, irqs);
    } else {
      r := d.running;
      TakeAllRestores(d, e, irqs);
      SameRunning(d);
    }
  }

  lemma {:induction false} InterruptedUpTo(c: Control, e: Env, ret: nat, irqs: seq<seq<Irq>>, k: nat) returns (r: nat)
    requires UniqueActive(c) && ret < |c.parts| && ret != c.running && k <= UPDATES < |irqs|
    requires Fits(e, |c.parts|, |e.mem|) && forall i :: 0 <= i < |irqs| ==> AllKnown(irqs[i], |c.parts|, |e.mem|)
    ensures var d := ReturnOps(c, c.running, ret, k);
            && r < |c.parts| && (k != 3 ==> r == d.running)
            && Interrupted(Join(c, e), c.running, ret, irqs, k) == Some(Join(d.(running := r), EffectsUpTo(e, irqs, k)))
    ensures Fits(EffectsUpTo(e, irqs, k), |c.parts|, |e.mem|)
    decreases k
  {
    if k == 0 {
      r := CutPoint(c, e, ret, irqs[0], 0);
    } else {
      var r' := InterruptedUpTo(c, e, ret, irqs, k - 1);
      NextOp(ReturnOps(c, c.running, ret, k - 1), c.running, ret, k - 1, r');
      r := CutPoint(c, EffectsUpTo(e, irqs, k - 1), ret, irqs[k], k);
    }
  }

  /** Whatever interrupts are taken and returned from, any number of them before, between and after the database
      updates of the return and nested in any way: the database is as after the return alone, and the rest of the
      state as after the handlers alone. */
  lemma ReturnIsAtomic(c: Control, e: Env, ret: nat, irqs: seq<seq<Irq>>)
    requires UniqueActive(c) && ret < |c.parts| && ret != c.running && |irqs| == UPDATES + 1
    requires Fits(e, |c.parts|, |e.mem|) && forall i :: 0 <= i < |irqs| ==> AllKnown(irqs[i], |c.parts|, |e.mem|)
    ensures Interrupted(Join(c, e), c.running, ret, irqs, UPDATES)
         == Some(Join(ReturnOps(c, c.running, ret, UPDATES), EffectsUpTo(e, irqs, UPDATES)))
  {
    var r := InterruptedUpTo(c, e, ret, irqs, UPDATES);
    SameRunning(ReturnOps(c, c.running, ret, UPDATES));
  }

  // The updates together are the control part of the return.
  lemma ReturnOpsAreReturn(cfg: Config, s: State)
    requires Sized(cfg, s) && s.ctl.running < |cfg.statics| && s.ctl.parts[s.ctl.running].caller < |cfg.statics|
    requires Return(cfg, s, false).Next?
    ensures Return(cfg, s, false).state.ctl
         == ReturnOps(s.ctl, s.ctl.running, s.ctl.parts[s.ctl.running].caller, UPDATES)
  {
    var c, cur, ret := s.ctl, s.ctl.running, s.ctl.parts[s.ctl.running].caller;
    assert ReturnOps(c, cur, ret, 1) == c.(lock := c.lock - 1);
    assert ReturnOps(c, cur, ret, 2) == Cleanup(c.(lock := c.lock - 1), cur);
    assert ReturnOps(c, cur, ret, 3) == SetState(Cleanup(c.(lock := c.lock - 1), cur), cur, IDLE);
  }

  // ---------------------------------------------------------------- every run

  /** In every run, a return under any such interrupts ends in the state after the step that it is taken to be, with the
      effects of the handlers. A return to a secure partition, which is the one in thread mode, has no other effect
      on memory, copy and masks. */
  lemma ReturnInRuns(cfg: Config, c: Conf, d: Conf, irqs: seq<seq<Irq>>)
    requires cfg.Valid() && Reachable(cfg, c) && StepConf(cfg, c, ReturnEv) == Some(d)
    requires |irqs| == UPDATES + 1 && forall i :: 0 <= i < |irqs| ==> AllKnown(irqs[i], |cfg.statics|, cfg.memSize)
    ensures var ctl := c.state.ctl;
            && ctl.running < |ctl.parts|
            && Interrupted(c.state, ctl.running, ctl.parts[ctl.running].caller, irqs, UPDATES)
            == Some(Join(d.state.ctl, EffectsUpTo(EnvOf(c.state), irqs, UPDATES)))
    ensures d.hist.acts != [] ==> EnvOf(d.state) == EnvOf(c.state)
  {
    LockCountsCalls(cfg, c);
    ReturnStepIs(cfg, c, d);
    ReturnFindsCall(cfg, c);
    OneActive(cfg, c);
    ReturnUnderInterrupts(cfg, c.state, irqs);
    if d.hist.acts != [] {
      NestedReturn(cfg, c, d);
    }
  }

  lemma ReturnUnderInterrupts(cfg: Config, s: State, irqs: seq<seq<Irq>>)
    requires Sized(cfg, s) && |s.mem| == cfg.memSize && UniqueActive(s.ctl) && Return(cfg, s, false).Next?
    requires s.ctl.parts[s.ctl.running].caller < |cfg.statics| && s.ctl.parts[s.ctl.running].caller != s.ctl.running
    requires |irqs| == UPDATES + 1 && forall i :: 0 <= i < |irqs| ==> AllKnown(irqs[i], |cfg.statics|, cfg.memSize)
    ensures Interrupted(s, s.ctl.running, s.ctl.parts[s.ctl.running].caller, irqs, UPDATES)
         == Some(Join(Return(cfg, s, false).state.ctl, EffectsUpTo(EnvOf(s), irqs, UPDATES)))
  {
    ReturnOpsAreReturn(cfg, s);
    ReturnIsAtomic(s.ctl, EnvOf(s), s.ctl.parts[s.ctl.running].caller, irqs);
    assert Join(s.ctl, EnvOf(s)) == s;
  }

  lemma OneActive(cfg: Config, c: Conf)
    requires cfg.Valid() && Reachable(cfg, c)
    ensures UniqueActive(c.state.ctl)
  {
    ReachableInv(cfg, c);
  }
}
