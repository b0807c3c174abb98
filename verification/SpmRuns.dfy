/**
  Runs of the Secure Partition Manager after boot: every interleaving of secure function calls,
  returns and nested deprivileged interrupts, with the history that the properties speak about.
*/
module SpmRuns {
  import opened Options
  import opened Sequences
  import opened SpmModel

  // One secure function call in progress: the partition it activated, the one that called it, the
  // request, and the vectors the request named in caller memory when it was made.
  datatype Activation = Activation(idx: nat, caller: nat, req: Request, ins: seq<Vec>, outs: seq<Vec>)

  // One interrupt in progress: the control state just before it was taken, and its handler.
  datatype Frame = Frame(pre: Control, handler: nat)

  datatype History = History(acts: seq<Activation>, frames: seq<Frame>)

  datatype Event =
    | CallEv(req: Request)
    | ReturnEv
    | IrqEv(handlerId: nat, signal: bv32)
    | IrqReturnEv
    | SetOutLenEv(i: nat, len: nat)        // the running service updates its copy of the out-vectors
    | WriteMemEv(addr: nat, value: nat)    // some code writes caller memory
    | EoiEv(signal: bv32)                  // psa_eoi by the running partition

  datatype Conf = Conf(state: State, hist: History)

  // What is assumed of the environment: requested identifiers are in the table, services leave by
  // the function return and interrupt handlers by the interrupt return.
  ghost predicate Permitted(cfg: Config, s: State, ev: Event)
    requires Sized(cfg, s) && s.ctl.running < |cfg.statics|
  {
    match ev
    case CallEv(r) => IdxOf(cfg.statics, r.spId) < |cfg.statics|
    case ReturnEv => s.ctl.parts[s.ctl.running].state == RUNNING
    case IrqEv(id, _) => IdxOf(cfg.statics, id) < |cfg.statics|
    case IrqReturnEv => s.ctl.parts[s.ctl.running].state == HANDLING_IRQ
    case SetOutLenEv(i, _) => i < MAX_IOVEC && s.ctl.running != NS
    case WriteMemEv(a, _) => a < |s.mem|
    case EoiEv(_) => true
  }

  ghost function Step(cfg: Config, s: State, ev: Event): Outcome
    requires Sized(cfg, s) && s.ctl.running < |cfg.statics| && Permitted(cfg, s, ev)
  {
    match ev
    case CallEv(r) => Call(cfg, s, r, false)
    case ReturnEv => Return(cfg, s, false)
    case IrqEv(id, sig) => IrqEnter(cfg, s, id, sig)
    case IrqReturnEv => IrqLeave(cfg, s)
    case SetOutLenEv(i, n) =>
      Next(s.(copy := s.copy.(outVec := s.copy.outVec[i := s.copy.outVec[i].(len := n)])))
    case WriteMemEv(a, v) => Next(s.(mem := s.mem[a := v]))
    case EoiEv(sig) => Next(s.(masks := s.masks[s.ctl.running := s.masks[s.ctl.running] & !sig]))
  }

  function Activate(cfg: Config, s: State, r: Request): Activation
    requires 0 <= r.inLen && 0 <= r.outLen
  {
    Activation(IdxOf(cfg.statics, r.spId), s.ctl.running, r,
               VecsAt(s.mem, r.inPtr, r.inLen), VecsAt(s.mem, r.outPtr, r.outLen))
  }

  function Record(cfg: Config, s: State, h: History, ev: Event): History {
    match ev
    case CallEv(r) =>
      if r.inLen < 0 || r.outLen < 0 then h
      else h.(acts := h.acts + [Activate(cfg, s, r)])
    case ReturnEv => h.(acts := if h.acts == [] then [] else h.acts[..|h.acts| - 1])
    case IrqEv(id, _) => h.(frames := h.frames + [Frame(s.ctl, IdxOf(cfg.statics, id))])
    case IrqReturnEv => h.(frames := if h.frames == [] then [] else h.frames[..|h.frames| - 1])
    case _ => h
  }

  ghost function StepConf(cfg: Config, c: Conf, ev: Event): Option<Conf>
  {
    if !(Sized(cfg, c.state) && c.state.ctl.running < |cfg.statics| && Permitted(cfg, c.state, ev)) then None
    else
      match Step(cfg, c.state, ev)
      case Next(s) => Some(Conf(s, Record(cfg, c.state, c.hist, ev)))
      case Refused(_) => Some(c)
      case _ => None
  }

  // A run: the configurations it passes through, from the boot state on, and the events between them.
  ghost predicate IsRun(cfg: Config, confs: seq<Conf>, trace: seq<Event>) {
    && |confs| == |trace| + 1
    && Booted(cfg, confs[0].state) && confs[0].hist == History([], [])
    && forall i :: 0 <= i < |trace| ==> StepAt(cfg, confs, trace, i)
  }

  ghost predicate StepAt(cfg: Config, confs: seq<Conf>, trace: seq<Event>, i: nat)
    requires i < |trace| && |confs| == |trace| + 1
  {
    StepConf(cfg, confs[i], trace[i]) == Some(confs[i + 1])
  }

  ghost predicate Reachable(cfg: Config, c: Conf) {
    exists confs, trace :: IsRun(cfg, confs, trace) && confs[|trace|] == c
  }

  // ---------------------------------------------------------------- the invariant

  function Chain(acts: seq<Activation>): (ch: seq<nat>)
    ensures |ch| == |acts| + 1 && ch[0] == NS
    ensures forall k :: 0 <= k < |acts| ==> ch[k + 1] == acts[k].idx
  {
    [NS] + seq(|acts|, k requires 0 <= k < |acts| => acts[k].idx)
  }

  // The chain of partitions in use: who runs and who is blocked.
  ghost predicate Topology(cfg: Config, c: Control, ch: seq<nat>) {
    && |c.parts| == |cfg.statics|
    && 0 < |ch| && ch[0] == NS && Distinct(ch)
    && (forall k :: 0 <= k < |ch| ==> ch[k] < |c.parts| && ch[k] != CORE)
    && c.running == ch[|ch| - 1] && c.lock == |ch| - 1
    && (forall k :: 0 <= k < |ch| ==> c.parts[ch[k]].state == if k == |ch| - 1 then RUNNING else BLOCKED)
    && c.parts[NS].caller == INVALID_IDX
    && (forall p :: 0 <= p < |c.parts| && p !in ch ==>
          c.parts[p].caller == INVALID_IDX && c.parts[p].state == if p == CORE then CLOSED else IDLE)
    && (forall p :: 0 <= p < |c.parts| ==> c.parts[p].ctx == [])
  }

  // The client identity an activation must present.
  function Identity(cfg: Config, a: Activation): int {
    if a.req.nsCaller || a.caller >= |cfg.statics| then a.req.nsClientId else cfg.statics[a.caller].id
  }

  // What the database captured when a partition was activated.
  ghost predicate Captured(cfg: Config, c: Control, a: Activation) {
    && a.idx < |c.parts| && a.caller < |c.parts|
    && c.parts[a.idx].caller == a.caller && c.parts[a.idx].clientId == Identity(cfg, a)
    && (a.req.nsCaller ==>
          && a.req.nsClientId < 0
          && c.parts[a.caller].stackPtr == a.req.psp && c.parts[a.caller].lr == a.req.excReturn
          && c.parts[a.idx].origOutvec == a.req.outPtr
          && SameVectors(c.parts[a.idx].iovec, a, true))
  }

  // Each activation was made by the one below it, and only the first by non-secure code.
  ghost predicate Linked(acts: seq<Activation>) {
    forall k :: 0 <= k < |acts| ==> acts[k].caller == Chain(acts)[k] && acts[k].req.nsCaller == (k == 0)
  }

  // An iovec_args_t holds an activation's vectors; the out lengths too if `lens`.
  ghost predicate SameVectors(v: IovecArgs, a: Activation, lens: bool) {
    && v.Shaped() && |a.ins| <= MAX_IOVEC && |a.outs| <= MAX_IOVEC
    && v.inLen == |a.ins| && v.outLen == |a.outs|
    && (forall i :: 0 <= i < |a.ins| ==> v.inVec[i] == a.ins[i])
    && (forall i :: 0 <= i < |a.outs| ==> v.outVec[i].base == a.outs[i].base && (lens ==> v.outVec[i] == a.outs[i]))
  }

  // The control state under all interrupts in progress
  function Bottom(c: Control, frames: seq<Frame>): Control {
    if frames == [] then c else frames[0].pre
  }

  // Each control state is the one before it with one more interrupt taken.
  ghost predicate Nested(cfg: Config, c: Control, frames: seq<Frame>)
    decreases |frames|
  {
    && |c.parts| == |cfg.statics|
    && (frames != [] ==>
          var f := frames[|frames| - 1];
          && f.handler < |f.pre.parts| && f.pre.running < |f.pre.parts|
          && IrqStateOk(f.pre.parts[f.handler].state)
          && c == IrqEnterCtl(f.pre, f.handler)
          && Nested(cfg, f.pre, frames[..|frames| - 1]))
  }

  // The database under all interrupts agrees with the calls in progress.
  ghost predicate BaseInv(cfg: Config, base: Control, acts: seq<Activation>) {
    && Topology(cfg, base, Chain(acts))
    && Linked(acts)
    && (forall k :: 0 <= k < |acts| ==> Captured(cfg, base, acts[k]))
  }

  ghost predicate CopyInv(cfg: Config, copy: IovecArgs, acts: seq<Activation>) {
    acts != [] ==> SameVectors(copy, acts[0], false) && acts[0].req.outPtr + 2 * |acts[0].outs| <= cfg.memSize
  }

  ghost predicate Inv(cfg: Config, c: Conf) {
    && Sized(cfg, c.state) && |c.state.mem| == cfg.memSize
    && Nested(cfg, c.state.ctl, c.hist.frames)
    && BaseInv(cfg, Bottom(c.state.ctl, c.hist.frames), c.hist.acts)
    && CopyInv(cfg, c.state.copy, c.hist.acts)
  }

  // The state in which main() leaves the database when it jumps to non-secure code
  ghost predicate Booted(cfg: Config, s: State) {
    Sized(cfg, s) && |s.mem| == cfg.memSize && Topology(cfg, s.ctl, [NS])
  }

  // ---------------------------------------------------------------- interrupts undo exactly

  // Taking an interrupt and returning from it restores the control state exactly, whoever handles
  // it, as long as the interrupted partition was the one marked active.
  lemma LeaveUndoesEnter(c: Control, h: nat)
    requires c.running < |c.parts| && h < |c.parts|
    requires Active(c.parts[c.running].state)
    requires h != c.running ==> !Active(c.parts[h].state)
    ensures IrqLeaveDefined(IrqEnterCtl(c, h))
    ensures IrqLeaveCtl(IrqEnterCtl(c, h)) == c
  {
    assert IrqLeaveCtl(IrqEnterCtl(c, h)).parts == c.parts;
  }

  // Exactly one partition is RUNNING or HANDLING_IRQ, and it is the running one.
  ghost predicate UniqueActive(c: Control) {
    && c.running < |c.parts|
    && forall p :: 0 <= p < |c.parts| ==> (Active(c.parts[p].state) <==> p == c.running)
  }

  lemma EnterKeepsUniqueActive(c: Control, h: nat)
    requires UniqueActive(c) && h < |c.parts|
    ensures UniqueActive(IrqEnterCtl(c, h))
    ensures IrqEnterCtl(c, h).running == h && IrqEnterCtl(c, h).parts[h].state == HANDLING_IRQ
  {
  }

  lemma BaseUniqueActive(cfg: Config, c: Control, ch: seq<nat>)
    requires Topology(cfg, c, ch)
    ensures UniqueActive(c) && c.parts[c.running].state == RUNNING
  {
    forall p | 0 <= p < |c.parts| ensures Active(c.parts[p].state) <==> p == c.running {
      if p in ch {
        var k :| 0 <= k < |ch| && ch[k] == p;
      }
    }
  }

  lemma {:induction false} NestedUniqueActive(cfg: Config, c: Control, frames: seq<Frame>, ch: seq<nat>)
    requires Nested(cfg, c, frames) && Topology(cfg, Bottom(c, frames), ch)
    ensures UniqueActive(c)
    ensures c.parts[c.running].state == if frames == [] then RUNNING else HANDLING_IRQ
    decreases |frames|
  {
    if frames == [] {
      BaseUniqueActive(cfg, c, ch);
    } else {
      var f := frames[|frames| - 1];
      NestedUniqueActive(cfg, f.pre, frames[..|frames| - 1], ch);
      EnterKeepsUniqueActive(f.pre, f.handler);
    }
  }

  // ---------------------------------------------------------------- each step keeps the invariant

  lemma OffChain(cfg: Config, c: Control, ch: seq<nat>, p: nat)
    requires Topology(cfg, c, ch) && p < |c.parts| && c.parts[p].state == IDLE
    ensures p !in ch && p != CORE
  {
  }

  lemma CallKeepsTopology(cfg: Config, c: Control, d: Control, ch: seq<nat>, p: nat)
    requires Topology(cfg, c, ch) && p < |c.parts| && c.parts[p].state == IDLE
    requires |d.parts| == |c.parts|
    requires d.running == p && d.lock == c.lock + 1
    requires forall q :: 0 <= q < |c.parts| ==>
      && d.parts[q].ctx == c.parts[q].ctx
      && d.parts[q].state == (if q == p then RUNNING else if q == c.running then BLOCKED else c.parts[q].state)
      && d.parts[q].caller == (if q == p then c.running else c.parts[q].caller)
    ensures Topology(cfg, d, ch + [p])
  {
    OffChain(cfg, c, ch, p);
  }

  lemma ReturnKeepsTopology(cfg: Config, c: Control, d: Control, ch: seq<nat>, top: nat)
    requires Topology(cfg, c, ch + [top]) && ch != []
    requires |d.parts| == |c.parts|
    requires d.running == ch[|ch| - 1] && d.lock == c.lock - 1
    requires forall q :: 0 <= q < |c.parts| ==>
      && d.parts[q].ctx == c.parts[q].ctx
      && d.parts[q].state == (if q == d.running then RUNNING else if q == top then IDLE else c.parts[q].state)
      && d.parts[q].caller == (if q == top then INVALID_IDX else c.parts[q].caller)
    ensures Topology(cfg, d, ch)
  {
    var was := ch + [top];
    assert forall k :: 0 <= k < |ch| ==> was[k] == ch[k] && was[k] != was[|ch|];
    assert was[|ch|] == top;
    OffShorterChain(cfg, c, ch, top);
  }

  // Off the chain without its top, a partition is off the chain or the top.
  lemma OffShorterChain(cfg: Config, c: Control, ch: seq<nat>, top: nat)
    requires Topology(cfg, c, ch + [top])
    ensures forall p :: 0 <= p < |c.parts| && p !in ch && p != top ==>
              c.parts[p].caller == INVALID_IDX && c.parts[p].state == if p == CORE then CLOSED else IDLE
    ensures top != CORE
  {
    assert (ch + [top])[|ch|] == top;
  }

  lemma NestedMeansHandling(cfg: Config, c: Conf)
    requires Inv(cfg, c)
    ensures UniqueActive(c.state.ctl)
    ensures c.state.ctl.parts[c.state.ctl.running].state == if c.hist.frames == [] then RUNNING else HANDLING_IRQ
  {
    NestedUniqueActive(cfg, c.state.ctl, c.hist.frames, Chain(c.hist.acts));
  }

  // What a successful call does to each partition, and what it found.
  ghost predicate CallDid(cfg: Config, s: State, r: Request, s': State)
    requires Sized(cfg, s) && s.ctl.running < |cfg.statics|
  {
    var p, caller := IdxOf(cfg.statics, r.spId), s.ctl.running;
    && 0 <= r.inLen <= MAX_IOVEC && 0 <= r.outLen <= MAX_IOVEC
    && (r.nsCaller ==> r.outPtr + 2 * r.outLen <= cfg.memSize)
    && p < |cfg.statics| && s.ctl.parts[p].state == IDLE && s.ctl.parts[caller].state == RUNNING
    && cfg.statics[caller].appRot == !r.nsCaller && (r.nsCaller ==> s.ctl.lock == 0 && r.nsClientId < 0)
    && |s'.ctl.parts| == |s.ctl.parts| && s'.ctl.running == p && s'.ctl.lock == s.ctl.lock + 1
    && (forall q :: 0 <= q < |s.ctl.parts| ==> s'.ctl.parts[q] == Called(cfg, s, r, q))
    && s'.masks == s.masks && s'.mem == s.mem
    && s'.copy == (if r.nsCaller then CopyIovec(s.copy, s'.ctl.parts[p].iovec) else s.copy)
  }

  ghost function Called(cfg: Config, s: State, r: Request, q: nat): (x: Partition)
    requires Sized(cfg, s) && s.ctl.running < |cfg.statics| && q < |s.ctl.parts|
    requires 0 <= r.inLen <= MAX_IOVEC && 0 <= r.outLen <= MAX_IOVEC
    ensures x.iovec.Shaped() && x.ctx == s.ctl.parts[q].ctx
  {
    var caller, was := s.ctl.running, s.ctl.parts[q];
    if q == IdxOf(cfg.statics, r.spId) then
      var x := was.(state := RUNNING, caller := caller,
                    clientId := if cfg.statics[caller].appRot then cfg.statics[caller].id else r.nsClientId);
      if r.nsCaller then x.(iovec := ReadIovec(was.iovec, s.mem, r), origOutvec := r.outPtr) else x
    else if q == caller then was.(state := BLOCKED, stackPtr := r.psp, lr := r.excReturn)
    else was
  }

  lemma CallEffect(cfg: Config, s: State, r: Request)
    requires cfg.Valid() && Sized(cfg, s) && s.ctl.running < |cfg.statics| && |s.mem| == cfg.memSize
    requires Call(cfg, s, r, false).Next?
    ensures CallDid(cfg, s, r, Call(cfg, s, r, false).state)
  {
  }

  lemma CallKeepsCaptured(cfg: Config, s: State, r: Request, s': State, a: Activation)
    requires Sized(cfg, s) && s.ctl.running < |cfg.statics| && CallDid(cfg, s, r, s')
    requires Captured(cfg, s.ctl, a) && a.idx != IdxOf(cfg.statics, r.spId)
    requires a.req.nsCaller ==> a.caller != s.ctl.running && a.caller != IdxOf(cfg.statics, r.spId)
    ensures Captured(cfg, s'.ctl, a)
  {
  }

  // A call captures the caller's identity; a call from non-secure code also its stack pointer,
  // exception-return value and vectors.
  lemma CallCaptures(cfg: Config, s: State, r: Request, s': State)
    requires Sized(cfg, s) && s.ctl.running < |cfg.statics| && CallDid(cfg, s, r, s')
    ensures Captured(cfg, s'.ctl, Activate(cfg, s, r))
    ensures r.nsCaller ==> SameVectors(s'.copy, Activate(cfg, s, r), true)
  {
  }

  lemma LinkedGrows(acts: seq<Activation>, a: Activation)
    requires Linked(acts) && a.caller == Chain(acts)[|acts|] && a.req.nsCaller == (acts == [])
    ensures Linked(acts + [a]) && Chain(acts + [a]) == Chain(acts) + [a.idx]
  {
    assert Chain(acts + [a]) == Chain(acts) + [a.idx];
  }

  lemma CallGrowsChain(cfg: Config, s: State, r: Request, s': State, acts: seq<Activation>)
    requires cfg.Valid() && Sized(cfg, s) && Topology(cfg, s.ctl, Chain(acts))
    requires s.ctl.running < |cfg.statics| && CallDid(cfg, s, r, s')
    ensures Topology(cfg, s'.ctl, Chain(acts) + [IdxOf(cfg.statics, r.spId)])
    ensures s.ctl.running == Chain(acts)[|acts|] && r.nsCaller == (acts == [])
  {
    CallKeepsTopology(cfg, s.ctl, s'.ctl, Chain(acts), IdxOf(cfg.statics, r.spId));
  }

  lemma CallKeepsBaseInv(cfg: Config, s: State, r: Request, s': State, acts: seq<Activation>)
    requires cfg.Valid() && Sized(cfg, s) && BaseInv(cfg, s.ctl, acts)
    requires s.ctl.running < |cfg.statics| && CallDid(cfg, s, r, s')
    ensures BaseInv(cfg, s'.ctl, acts + [Activate(cfg, s, r)])
  {
    CallKeepsAllCaptured(cfg, s, r, s', acts);
    CallCaptures(cfg, s, r, s');
    CallGrowsChain(cfg, s, r, s', acts);
    BaseGrows(cfg, s'.ctl, acts, Activate(cfg, s, r));
  }

  lemma BaseGrows(cfg: Config, c: Control, acts: seq<Activation>, a: Activation)
    requires Topology(cfg, c, Chain(acts) + [a.idx]) && Linked(acts)
    requires a.caller == Chain(acts)[|acts|] && a.req.nsCaller == (acts == [])
    requires Captured(cfg, c, a) && forall k :: 0 <= k < |acts| ==> Captured(cfg, c, acts[k])
    ensures BaseInv(cfg, c, acts + [a])
  {
    LinkedGrows(acts, a);
  }

  lemma CallKeepsCopyInv(cfg: Config, s: State, r: Request, s': State, acts: seq<Activation>)
    requires cfg.Valid() && Sized(cfg, s) && Topology(cfg, s.ctl, Chain(acts)) && CopyInv(cfg, s.copy, acts)
    requires s.ctl.running < |cfg.statics| && CallDid(cfg, s, r, s')
    ensures CopyInv(cfg, s'.copy, acts + [Activate(cfg, s, r)])
  {
    CallGrowsChain(cfg, s, r, s', acts);
    CallCaptures(cfg, s, r, s');
  }

  lemma CallKeepsAllCaptured(cfg: Config, s: State, r: Request, s': State, acts: seq<Activation>)
    requires Sized(cfg, s) && BaseInv(cfg, s.ctl, acts)
    requires s.ctl.running < |cfg.statics| && CallDid(cfg, s, r, s')
    ensures forall k :: 0 <= k < |acts| ==> Captured(cfg, s'.ctl, acts[k])
  {
    forall k | 0 <= k < |acts| ensures Captured(cfg, s'.ctl, acts[k]) {
      assert acts[k].idx == Chain(acts)[k + 1];
      OffChain(cfg, s.ctl, Chain(acts), IdxOf(cfg.statics, r.spId));
      CallKeepsCaptured(cfg, s, r, s', acts[k]);
    }
  }

  lemma CallKeepsSized(cfg: Config, s: State, r: Request, s': State)
    requires Sized(cfg, s) && s.ctl.running < |cfg.statics| && CallDid(cfg, s, r, s')
    ensures Sized(cfg, s') && |s'.mem| == |s.mem|
    ensures s.ctl.parts[s.ctl.running].state == RUNNING && r.inLen >= 0 && r.outLen >= 0
  {
  }

  // The invariant from its parts
  lemma InvIntro(cfg: Config, s: State, h: History)
    requires Sized(cfg, s) && |s.mem| == cfg.memSize && Nested(cfg, s.ctl, h.frames)
    requires BaseInv(cfg, Bottom(s.ctl, h.frames), h.acts) && CopyInv(cfg, s.copy, h.acts)
    ensures Inv(cfg, Conf(s, h))
  {
  }

  lemma CallKeepsInv(cfg: Config, c: Conf, r: Request, s': State)
    requires cfg.Valid() && Inv(cfg, c) && c.state.ctl.running < |cfg.statics|
    requires CallDid(cfg, c.state, r, s')
    ensures Inv(cfg, Conf(s', c.hist.(acts := c.hist.acts + [Activate(cfg, c.state, r)])))
  {
    CallKeepsSized(cfg, c.state, r, s');
    assert c.hist.frames == [] by { NestedMeansHandling(cfg, c); }
    CallKeepsBaseInv(cfg, c.state, r, s', c.hist.acts);
    CallKeepsCopyInv(cfg, c.state, r, s', c.hist.acts);
    InvIntro(cfg, s', c.hist.(acts := c.hist.acts + [Activate(cfg, c.state, r)]));
  }

  // What a successful return does to each partition.
  ghost predicate ReturnDid(cfg: Config, s: State, s': State)
    requires Sized(cfg, s) && s.ctl.running < |cfg.statics| && s.ctl.parts[s.ctl.running].caller < |cfg.statics|
  {
    var cur := s.ctl.running;
    var ret := s.ctl.parts[cur].caller;
    && |s'.ctl.parts| == |s.ctl.parts| && s'.ctl.running == ret && s'.ctl.lock == s.ctl.lock - 1
    && (forall q :: 0 <= q < |s.ctl.parts| ==> s'.ctl.parts[q] == Returned(s.ctl, cur, ret, q))
    && s'.masks == s.masks && |s'.mem| == |s.mem|
    && s'.copy == (if cfg.statics[ret].appRot then s.copy else NO_IOVEC)
  }

  ghost function Returned(c: Control, cur: nat, ret: nat, q: nat): Partition
    requires q < |c.parts|
  {
    if q == ret then c.parts[q].(state := RUNNING)
    else if q == cur then c.parts[q].(state := IDLE, caller := INVALID_IDX, iovec := NO_IOVEC, origOutvec := 0)
    else c.parts[q]
  }

  lemma ReturnEffect(cfg: Config, s: State)
    requires Sized(cfg, s) && s.ctl.running < |cfg.statics| && s.ctl.parts[s.ctl.running].caller < |cfg.statics|
    requires s.ctl.parts[s.ctl.running].caller != s.ctl.running
    requires Return(cfg, s, false).Next?
    ensures ReturnDid(cfg, s, Return(cfg, s, false).state)
  {
  }

  // The partition on top of the chain was called by the one below it.
  lemma TopOfChain(cfg: Config, c: Control, acts: seq<Activation>)
    requires BaseInv(cfg, c, acts) && acts != []
    ensures var a := acts[|acts| - 1]; a.idx == c.running && c.parts[c.running].caller == a.caller < |c.parts|
    ensures acts[|acts| - 1].caller == Chain(acts)[|acts| - 1] != c.running
  {
    assert Chain(acts)[|acts|] == acts[|acts| - 1].idx;
  }

  lemma LinkedShrinks(acts: seq<Activation>)
    requires Linked(acts) && acts != []
    ensures Linked(acts[..|acts| - 1]) && Chain(acts[..|acts| - 1]) == Chain(acts)[..|acts|]
  {
    assert Chain(acts[..|acts| - 1]) == Chain(acts)[..|acts|];
  }

  lemma ReturnKeepsCaptured(cfg: Config, s: State, s': State, a: Activation)
    requires Sized(cfg, s) && s.ctl.running < |cfg.statics| && s.ctl.parts[s.ctl.running].caller < |cfg.statics|
    requires ReturnDid(cfg, s, s') && Captured(cfg, s.ctl, a)
    requires a.idx != s.ctl.running
    ensures Captured(cfg, s'.ctl, a)
  {
  }

  lemma ReturnKeepsBaseInv(cfg: Config, s: State, s': State, acts: seq<Activation>)
    requires Sized(cfg, s) && BaseInv(cfg, s.ctl, acts) && acts != []
    requires s.ctl.running < |cfg.statics| && s.ctl.parts[s.ctl.running].caller < |cfg.statics|
    requires ReturnDid(cfg, s, s')
    ensures BaseInv(cfg, s'.ctl, acts[..|acts| - 1])
  {
    LinkedShrinks(acts);
    ReturnShrinksChain(cfg, s, s', acts);
    ReturnKeepsAllCaptured(cfg, s, s', acts);
  }

  lemma ReturnShrinksChain(cfg: Config, s: State, s': State, acts: seq<Activation>)
    requires Sized(cfg, s) && BaseInv(cfg, s.ctl, acts) && acts != []
    requires s.ctl.running < |cfg.statics| && s.ctl.parts[s.ctl.running].caller < |cfg.statics|
    requires ReturnDid(cfg, s, s')
    ensures Topology(cfg, s'.ctl, Chain(acts[..|acts| - 1]))
  {
    TopOfChain(cfg, s.ctl, acts);
    LinkedShrinks(acts);
    assert Chain(acts) == Chain(acts[..|acts| - 1]) + [s.ctl.running];
    ReturnKeepsTopology(cfg, s.ctl, s'.ctl, Chain(acts[..|acts| - 1]), s.ctl.running);
  }

  lemma ReturnKeepsAllCaptured(cfg: Config, s: State, s': State, acts: seq<Activation>)
    requires Sized(cfg, s) && BaseInv(cfg, s.ctl, acts) && acts != []
    requires s.ctl.running < |cfg.statics| && s.ctl.parts[s.ctl.running].caller < |cfg.statics|
    requires ReturnDid(cfg, s, s')
    ensures forall k :: 0 <= k < |acts| - 1 ==> Captured(cfg, s'.ctl, acts[k])
  {
    TopOfChain(cfg, s.ctl, acts);
    forall k | 0 <= k < |acts| - 1 ensures Captured(cfg, s'.ctl, acts[k]) {
      assert acts[k].idx == Chain(acts)[k + 1];
      ReturnKeepsCaptured(cfg, s, s', acts[k]);
    }
  }

  // The service that returns to non-secure code is the one non-secure code called.
  lemma ReturnToNs(cfg: Config, c: Control, acts: seq<Activation>)
    requires cfg.Valid() && BaseInv(cfg, c, acts) && acts != []
    ensures acts[|acts| - 1].caller < |cfg.statics|
    ensures !cfg.statics[acts[|acts| - 1].caller].appRot <==> |acts| == 1
    ensures |acts| == 1 ==> acts[0].caller == NS && Captured(cfg, c, acts[0]) && acts[0].req.nsCaller
  {
    TopOfChain(cfg, c, acts);
    assert Chain(acts)[0] == NS;
  }

  // A function return from the top of the chain is defined, and halts only in non-secure code.
  lemma ReturnDefined(cfg: Config, s: State, acts: seq<Activation>)
    requires cfg.Valid() && Sized(cfg, s) && |s.mem| == cfg.memSize
    requires BaseInv(cfg, s.ctl, acts) && CopyInv(cfg, s.copy, acts)
    ensures if acts == [] then Return(cfg, s, false) == Halted(UnlockFailed) else Return(cfg, s, false).Next?
  {
    if acts != [] {
      TopOfChain(cfg, s.ctl, acts);
      ReturnFits(cfg, s, acts);
      ReturnNext(cfg, s);
    }
  }

  lemma ReturnFits(cfg: Config, s: State, acts: seq<Activation>)
    requires cfg.Valid() && Sized(cfg, s) && |s.mem| == cfg.memSize
    requires BaseInv(cfg, s.ctl, acts) && CopyInv(cfg, s.copy, acts) && acts != []
    ensures s.ctl.running < |cfg.statics| && s.ctl.parts[s.ctl.running].caller < |cfg.statics|
    ensures !cfg.statics[s.ctl.parts[s.ctl.running].caller].appRot ==> WritesFit(s, s.ctl.running)
  {
    TopOfChain(cfg, s.ctl, acts);
    ReturnToNs(cfg, s.ctl, acts);
  }

  lemma ReturnNext(cfg: Config, s: State)
    requires cfg.Valid() && Sized(cfg, s)
    requires s.ctl.running < |cfg.statics| && s.ctl.parts[s.ctl.running].caller < |cfg.statics|
    requires !cfg.statics[s.ctl.parts[s.ctl.running].caller].appRot ==> WritesFit(s, s.ctl.running)
    ensures Return(cfg, s, false).Next?
  {
  }

  lemma ReturnKeepsInv(cfg: Config, c: Conf, s': State)
    requires Inv(cfg, c) && c.hist.frames == [] && c.hist.acts != []
    requires c.state.ctl.running < |cfg.statics| && c.state.ctl.parts[c.state.ctl.running].caller < |cfg.statics|
    requires ReturnDid(cfg, c.state, s')
    requires |c.hist.acts| > 1 ==> cfg.statics[c.state.ctl.parts[c.state.ctl.running].caller].appRot
    ensures Inv(cfg, Conf(s', c.hist.(acts := c.hist.acts[..|c.hist.acts| - 1])))
  {
    ReturnKeepsBaseInv(cfg, c.state, s', c.hist.acts);
    InvIntro(cfg, s', c.hist.(acts := c.hist.acts[..|c.hist.acts| - 1]));
  }

  lemma NestedGrows(cfg: Config, c: Control, frames: seq<Frame>, h: nat)
    requires Nested(cfg, c, frames) && c.running < |c.parts| && h < |c.parts| && IrqStateOk(c.parts[h].state)
    ensures Nested(cfg, IrqEnterCtl(c, h), frames + [Frame(c, h)])
    ensures Bottom(IrqEnterCtl(c, h), frames + [Frame(c, h)]) == Bottom(c, frames)
  {
    assert (frames + [Frame(c, h)])[..|frames|] == frames;
  }

  // Other interrupts over the same base
  lemma SameBase(cfg: Config, c: Conf, s': State, frames: seq<Frame>)
    requires Inv(cfg, c) && Sized(cfg, s') && |s'.mem| == cfg.memSize && s'.copy == c.state.copy
    requires Nested(cfg, s'.ctl, frames) && Bottom(s'.ctl, frames) == Bottom(c.state.ctl, c.hist.frames)
    ensures Inv(cfg, Conf(s', c.hist.(frames := frames)))
  {
  }

  lemma EnterKeepsSized(cfg: Config, s: State, h: nat, s': State)
    requires Sized(cfg, s) && s.ctl.running < |s.ctl.parts| && h < |s.ctl.parts|
    requires s'.ctl == IrqEnterCtl(s.ctl, h) && |s'.masks| == |s.masks| && s'.copy == s.copy
    ensures Sized(cfg, s')
  {
  }

  lemma IrqKeepsInv(cfg: Config, c: Conf, h: nat, s': State)
    requires Inv(cfg, c) && c.state.ctl.running < |cfg.statics| && h < |cfg.statics|
    requires IrqStateOk(c.state.ctl.parts[h].state)
    requires s' == c.state.(ctl := IrqEnterCtl(c.state.ctl, h), masks := s'.masks) && |s'.masks| == |c.state.masks|
    ensures Inv(cfg, Conf(s', c.hist.(frames := c.hist.frames + [Frame(c.state.ctl, h)])))
  {
    NestedGrows(cfg, c.state.ctl, c.hist.frames, h);
    EnterKeepsSized(cfg, c.state, h, s');
    SameBase(cfg, c, s', c.hist.frames + [Frame(c.state.ctl, h)]);
  }

  lemma NestedShrinks(cfg: Config, c: Control, frames: seq<Frame>)
    requires Nested(cfg, c, frames) && frames != []
    ensures var f, below := frames[|frames| - 1], frames[..|frames| - 1];
            Nested(cfg, f.pre, below) && Bottom(f.pre, below) == Bottom(c, frames)
    ensures var pre := frames[|frames| - 1].pre;
            |pre.parts| == |c.parts| && forall p :: 0 <= p < |pre.parts| ==> pre.parts[p].iovec == c.parts[p].iovec
  {
  }

  // The return from the latest interrupt brings back the control state from just before it.
  lemma NestedLeave(cfg: Config, c: Control, frames: seq<Frame>, ch: seq<nat>)
    requires Nested(cfg, c, frames) && frames != [] && Topology(cfg, Bottom(c, frames), ch)
    ensures IrqLeaveDefined(c) && IrqLeaveCtl(c) == frames[|frames| - 1].pre
  {
    var f, below := frames[|frames| - 1], frames[..|frames| - 1];
    NestedShrinks(cfg, c, frames);
    NestedUniqueActive(cfg, f.pre, below, ch);
    LeaveUndoesEnter(f.pre, f.handler);
  }

  lemma IrqReturnRestores(cfg: Config, c: Conf)
    requires cfg.Valid() && Inv(cfg, c) && c.hist.frames != []
    ensures IrqLeave(cfg, c.state) == Next(c.state.(ctl := c.hist.frames[|c.hist.frames| - 1].pre))
  {
    NestedLeave(cfg, c.state.ctl, c.hist.frames, Chain(c.hist.acts));
  }

  lemma IrqReturnKeepsInv(cfg: Config, c: Conf, s': State)
    requires Inv(cfg, c) && c.hist.frames != [] && s' == c.state.(ctl := c.hist.frames[|c.hist.frames| - 1].pre)
    ensures Inv(cfg, Conf(s', c.hist.(frames := c.hist.frames[..|c.hist.frames| - 1])))
  {
    NestedShrinks(cfg, c.state.ctl, c.hist.frames);
    SameBase(cfg, c, s', c.hist.frames[..|c.hist.frames| - 1]);
  }

  lemma OutLenKeepsCopy(cfg: Config, copy: IovecArgs, acts: seq<Activation>, i: nat, n: nat)
    requires copy.Shaped() && i < MAX_IOVEC && CopyInv(cfg, copy, acts)
    ensures CopyInv(cfg, copy.(outVec := copy.outVec[i := copy.outVec[i].(len := n)]), acts)
  {
  }

  // ---------------------------------------------------------------- every run

  lemma CallStep(cfg: Config, c: Conf, r: Request, d: Conf)
    requires cfg.Valid() && Inv(cfg, c) && StepConf(cfg, c, CallEv(r)) == Some(d)
    ensures Inv(cfg, d)
  {
    if Call(cfg, c.state, r, false).Next? {
      assert CallDid(cfg, c.state, r, d.state) by { CallEffect(cfg, c.state, r); }
      assert d.hist == c.hist.(acts := c.hist.acts + [Activate(cfg, c.state, r)]);
      CallKeepsInv(cfg, c, r, d.state);
    }
  }

  // What a successful interrupt entry found and did
  lemma IrqStepIs(cfg: Config, c: Conf, id: nat, sig: bv32, d: Conf)
    requires StepConf(cfg, c, IrqEv(id, sig)) == Some(d)
    ensures Sized(cfg, c.state) && c.state.ctl.running < |cfg.statics| && IdxOf(cfg.statics, id) < |cfg.statics|
    ensures var h := IdxOf(cfg.statics, id);
            && IrqStateOk(c.state.ctl.parts[h].state) && |d.state.masks| == |c.state.masks|
            && d.state == c.state.(ctl := IrqEnterCtl(c.state.ctl, h), masks := d.state.masks)
            && d.hist == c.hist.(frames := c.hist.frames + [Frame(c.state.ctl, h)])
  {
  }

  lemma IrqStep(cfg: Config, c: Conf, id: nat, sig: bv32, d: Conf)
    requires cfg.Valid() && Inv(cfg, c) && StepConf(cfg, c, IrqEv(id, sig)) == Some(d)
    ensures Inv(cfg, d)
  {
    IrqStepIs(cfg, c, id, sig, d);
    IrqKeepsInv(cfg, c, IdxOf(cfg.statics, id), d.state);
  }

  // A handler that returns has an interrupt to return from.
  lemma IrqReturnBack(cfg: Config, c: Conf)
    requires cfg.Valid() && Inv(cfg, c) && c.state.ctl.running < |cfg.statics|
    requires c.state.ctl.parts[c.state.ctl.running].state == HANDLING_IRQ
    ensures c.hist.frames != []
    ensures IrqLeave(cfg, c.state) == Next(c.state.(ctl := c.hist.frames[|c.hist.frames| - 1].pre))
  {
    assert c.hist.frames != [] by { NestedMeansHandling(cfg, c); }
    IrqReturnRestores(cfg, c);
  }

  lemma IrqReturnStepIs(cfg: Config, c: Conf, d: Conf)
    requires StepConf(cfg, c, IrqReturnEv) == Some(d)
    ensures Sized(cfg, c.state) && c.state.ctl.running < |cfg.statics|
    ensures c.state.ctl.parts[c.state.ctl.running].state == HANDLING_IRQ && IrqLeave(cfg, c.state) == Next(d.state)
    ensures d.hist.acts == c.hist.acts
    ensures d.hist.frames == if c.hist.frames == [] then [] else c.hist.frames[..|c.hist.frames| - 1]
  {
  }

  lemma IrqReturnStep(cfg: Config, c: Conf, d: Conf)
    requires cfg.Valid() && Inv(cfg, c) && StepConf(cfg, c, IrqReturnEv) == Some(d)
    ensures Inv(cfg, d)
  {
    IrqReturnStepIs(cfg, c, d);
    IrqReturnBack(cfg, c);
    assert d.hist == c.hist.(frames := c.hist.frames[..|c.hist.frames| - 1]);
    IrqReturnKeepsInv(cfg, c, d.state);
  }

  lemma ReturnStepIs(cfg: Config, c: Conf, d: Conf)
    requires StepConf(cfg, c, ReturnEv) == Some(d)
    ensures Sized(cfg, c.state) && c.state.ctl.running < |cfg.statics|
    ensures c.state.ctl.parts[c.state.ctl.running].state == RUNNING && Return(cfg, c.state, false) == Next(d.state)
    ensures d.hist.frames == c.hist.frames
    ensures d.hist.acts == if c.hist.acts == [] then [] else c.hist.acts[..|c.hist.acts| - 1]
  {
  }

  // What a successful return found: a call in progress, returned to its caller
  lemma ReturnFinds(cfg: Config, c: Conf)
    requires cfg.Valid() && Inv(cfg, c) && c.state.ctl.running < |cfg.statics|
    requires c.state.ctl.parts[c.state.ctl.running].state == RUNNING && Return(cfg, c.state, false).Next?
    ensures c.hist.frames == [] && c.hist.acts != []
    ensures var caller := c.state.ctl.parts[c.state.ctl.running].caller;
            && caller < |cfg.statics| && caller != c.state.ctl.running
            && (cfg.statics[caller].appRot <==> |c.hist.acts| > 1)
  {
    NestedMeansHandling(cfg, c);
    ReturnDefined(cfg, c.state, c.hist.acts);
    TopOfChain(cfg, c.state.ctl, c.hist.acts);
    ReturnToNs(cfg, c.state.ctl, c.hist.acts);
  }

  lemma ReturnStep(cfg: Config, c: Conf, d: Conf)
    requires cfg.Valid() && Inv(cfg, c) && StepConf(cfg, c, ReturnEv) == Some(d)
    ensures Inv(cfg, d)
  {
    ReturnStepIs(cfg, c, d);
    ReturnFinds(cfg, c);
    assert ReturnDid(cfg, c.state, d.state) by { ReturnEffect(cfg, c.state); }
    assert d.hist == c.hist.(acts := c.hist.acts[..|c.hist.acts| - 1]);
    ReturnKeepsInv(cfg, c, d.state);
  }

  lemma OutLenStep(cfg: Config, c: Conf, i: nat, n: nat, d: Conf)
    requires cfg.Valid() && Inv(cfg, c) && StepConf(cfg, c, SetOutLenEv(i, n)) == Some(d)
    ensures Inv(cfg, d)
  {
    OutLenKeepsCopy(cfg, c.state.copy, c.hist.acts, i, n);
    InvIntro(cfg, d.state, d.hist);
  }

  // A step that changes neither the database nor the copy
  lemma OtherStep(cfg: Config, c: Conf, d: Conf)
    requires Inv(cfg, c) && d.hist == c.hist && d.state.ctl == c.state.ctl && d.state.copy == c.state.copy
    requires |d.state.mem| == |c.state.mem| && |d.state.masks| == |c.state.masks|
    ensures Inv(cfg, d)
  {
  }

  lemma WriteMemStep(cfg: Config, c: Conf, a: nat, v: nat, d: Conf)
    requires cfg.Valid() && Inv(cfg, c) && StepConf(cfg, c, WriteMemEv(a, v)) == Some(d)
    ensures Inv(cfg, d)
  {
    OtherStep(cfg, c, d);
  }

  lemma EoiStep(cfg: Config, c: Conf, sig: bv32, d: Conf)
    requires cfg.Valid() && Inv(cfg, c) && StepConf(cfg, c, EoiEv(sig)) == Some(d)
    ensures Inv(cfg, d)
  {
    OtherStep(cfg, c, d);
  }

  /** From a state that satisfies the invariant, every permitted step is defined. */
  lemma StepDefined(cfg: Config, c: Conf, ev: Event)
    requires cfg.Valid() && Inv(cfg, c) && c.state.ctl.running < |cfg.statics| && Permitted(cfg, c.state, ev)
    ensures !Step(cfg, c.state, ev).Undefined?
  {
    if ev.ReturnEv? {
      assert c.hist.frames == [] by { NestedMeansHandling(cfg, c); }
      ReturnDefined(cfg, c.state, c.hist.acts);
    } else if ev.IrqReturnEv? {
      IrqReturnBack(cfg, c);
    }
  }

  /** Every step keeps the invariant. */
  lemma StepKeepsInv(cfg: Config, c: Conf, ev: Event, d: Conf)
    requires cfg.Valid() && Inv(cfg, c) && StepConf(cfg, c, ev) == Some(d)
    ensures Inv(cfg, d)
  {
    match ev
    case CallEv(r) => CallStep(cfg, c, r, d);
    case ReturnEv => ReturnStep(cfg, c, d);
    case IrqEv(id, sig) => IrqStep(cfg, c, id, sig, d);
    case IrqReturnEv => IrqReturnStep(cfg, c, d);
    case SetOutLenEv(i, n) => OutLenStep(cfg, c, i, n, d);
    case WriteMemEv(a, v) => WriteMemStep(cfg, c, a, v, d);
    case EoiEv(sig) => EoiStep(cfg, c, sig, d);
  }

  lemma BootedInv(cfg: Config, c: Conf)
    requires Booted(cfg, c.state) && c.hist == History([], [])
    ensures Inv(cfg, c)
  {
    assert Chain([]) == [NS];
    InvIntro(cfg, c.state, c.hist);
  }

  lemma StepAtKeepsInv(cfg: Config, confs: seq<Conf>, trace: seq<Event>, k: nat)
    requires cfg.Valid() && k < |trace| && |confs| == |trace| + 1 && StepAt(cfg, confs, trace, k) && Inv(cfg, confs[k])
    ensures Inv(cfg, confs[k + 1])
  {
    StepKeepsInv(cfg, confs[k], trace[k], confs[k + 1]);
  }

  /** The invariant holds in every configuration of every run. */
  lemma RunKeepsInv(cfg: Config, confs: seq<Conf>, trace: seq<Event>, i: nat)
    requires cfg.Valid() && IsRun(cfg, confs, trace) && i < |confs|
    ensures Inv(cfg, confs[i])
  {
    BootedInv(cfg, confs[0]);
    for k := 0 to i
      invariant Inv(cfg, confs[k])
    {
      StepAtKeepsInv(cfg, confs, trace, k);
    }
  }

  lemma ReachableInv(cfg: Config, c: Conf)
    requires cfg.Valid() && Reachable(cfg, c)
    ensures Inv(cfg, c) && UniqueActive(c.state.ctl)
  {
    var confs, trace :| IsRun(cfg, confs, trace) && confs[|trace|] == c;
    RunKeepsInv(cfg, confs, trace, |trace|);
    NestedMeansHandling(cfg, c);
  }
}
