/**
  The Secure Partition Manager as it runs: the database, the lock, the secure-stack copy of the
  vectors and the signal masks, updated in place, each operation proved against SpmModel.
*/
module SpmMachine {
  import opened SpmModel
  import SpmRuns

  // Halt: the error handler has been entered; nothing is promised about the state it leaves.
  datatype Result = Done | Refuse(status: Status) | Halt(error: Status)

  ghost predicate Agrees(res: Result, view: State, before: State, spec: Outcome) {
    match spec
    case Next(s) => res == Done && view == s
    case Refused(e) => res == Refuse(e) && view == before
    case Halted(e) => res == Halt(e)
    case Undefined => false
  }

  // get_partition_idx finds the one partition with the identifier.
  lemma {:induction false} IdxFromFinds(statics: seq<Static>, i: nat, from: nat)
    requires from <= i < |statics|
    requires forall j :: from <= j < i ==> statics[j].id != statics[i].id
    ensures IdxFrom(statics, statics[i].id, from) == i
    decreases i - from
  {
    if from < i {
      IdxFromFinds(statics, i, from + 1);
    }
  }

  lemma IdxOfIsInverse(cfg: Config, i: nat)
    requires cfg.Valid() && i < |cfg.statics|
    ensures IdxOf(cfg.statics, cfg.statics[i].id) == i
  {
    assert i >= 2 || i == NS || i == CORE;
    IdxFromFinds(cfg.statics, i, 0);
  }

  lemma OverlayStep(vs: seq<Vec>, was: seq<Vec>, i: nat)
    requires i < |vs| && i < |was|
    ensures Overlay(vs[..i], was)[i := vs[i]] == Overlay(vs[..i + 1], was)
  {
  }

  // ---------------------------------------------------------------- initialisation of the partitions

  ghost predicate BetweenInits(cfg: Config, s: State, n: nat) {
    && cfg.Valid() && Sized(cfg, s) && s.ctl.lock == 0 && s.ctl.running == CORE
    && (forall p :: 0 <= p < |s.ctl.parts| ==> s.ctl.parts[p].caller == INVALID_IDX && s.ctl.parts[p].ctx == [])
    && (forall p :: 0 <= p < |s.ctl.parts| && p < n && p != CORE ==> s.ctl.parts[p].state == IDLE)
  }

  // The request with which the core calls an initialisation function
  ghost predicate InitRequest(cfg: Config, p: nat, r: Request) {
    && !r.nsCaller && r.spId != 0 && r.sfn != 0 && IdxOf(cfg.statics, r.spId) == p
    && r.inPtr == r.inLen == r.outPtr == r.outLen == 0
  }

  // While the initialisation function of p runs, called from state s
  ghost predicate InitRuns(cfg: Config, s: State, s1: State, p: nat) {
    && Sized(cfg, s1) && |s1.ctl.parts| == |s.ctl.parts| && |s1.mem| == |s.mem|
    && p < |s.ctl.parts| && s1.ctl.running == p && s1.ctl.lock == 1
    && s1.ctl.parts[p].caller == CORE && s1.ctl.parts[p].iovec.outLen == 0 && s1.ctl.parts[p].origOutvec == 0
    && (forall q :: 0 <= q < |s.ctl.parts| ==> s1.ctl.parts[q].ctx == [])
    && (forall q :: 0 <= q < |s.ctl.parts| && q != p ==>
          s1.ctl.parts[q].caller == INVALID_IDX && (q != CORE ==> s1.ctl.parts[q].state == s.ctl.parts[q].state))
  }

  lemma InitCall(cfg: Config, s: State, p: nat, r: Request)
    requires BetweenInits(cfg, s, p) && 2 <= p < |cfg.statics| && InitRequest(cfg, p, r)
    ensures Call(cfg, s, r, true).Next? && InitRuns(cfg, s, Call(cfg, s, r, true).state, p)
  {
  }

  lemma InitReturn(cfg: Config, s: State, s1: State, p: nat)
    requires BetweenInits(cfg, s, p) && 2 <= p < |cfg.statics| && InitRuns(cfg, s, s1, p)
    ensures var o := Return(cfg, s1, true); o.Next? && |o.state.mem| == |s.mem| && BetweenInits(cfg, o.state, p + 1)
  {
  }

  // The state after the initialisations, with the core closed and non-secure code running
  lemma BootedAfterInits(cfg: Config, s: State)
    requires cfg.Valid() && Sized(cfg, s) && |s.mem| == cfg.memSize && s.ctl.lock == 0
    requires forall p :: 0 <= p < |s.ctl.parts| ==>
               s.ctl.parts[p].caller == INVALID_IDX && s.ctl.parts[p].ctx == [] && (p != CORE ==> s.ctl.parts[p].state == IDLE)
    ensures SpmRuns.Booted(cfg, s.(ctl := SetState(SetState(s.ctl, CORE, CLOSED), NS, RUNNING)))
  {
  }

  // ---------------------------------------------------------------- the database in memory

  class Spm {
    const cfg: Config
    const parts: array<Partition>
    var masks: seq<bv32>
    var mem: seq<nat>
    var running: nat
    var lock: int
    var copy: IovecArgs
    var initializing: bool

    ghost function Ctl(): Control
      reads this, parts
    {
      Control(parts[..], running, lock)
    }

    ghost function View(): State
      reads this, parts
    {
      State(Ctl(), masks, copy, mem)
    }

    ghost predicate Valid()
      reads this, parts
    {
      cfg.Valid() && Sized(cfg, View()) && |mem| == cfg.memSize
    }

    // Zero-initialised data
    constructor (cfg: Config, mem: seq<nat>)
      requires cfg.Valid() && |mem| == cfg.memSize
      ensures Valid() && this.cfg == cfg && this.mem == mem && initializing && lock == 0
      ensures fresh(parts)
    {
      this.cfg := cfg;
      this.mem := mem;
      parts := new Partition[|cfg.statics|](_ => Partition(UNINIT, 0, 0, 0, 0, NO_IOVEC, 0, []));
      masks := seq(|cfg.statics|, _ => 0);
      running, lock, copy, initializing := 0, 0, NO_IOVEC, true;
    }

    method GetPartitionIdx(id: nat) returns (idx: nat)
      requires cfg.Valid()
      ensures idx == IdxOf(cfg.statics, id)
    {
      if id == INVALID_IDX {
        return INVALID_IDX;
      }
      var i := 0;
      while i < |cfg.statics|
        invariant i <= |cfg.statics|
        invariant IdxFrom(cfg.statics, id, 0) == IdxFrom(cfg.statics, id, i)
      {
        if cfg.statics[i].id == id {
          return i;
        }
        i := i + 1;
      }
      return INVALID_IDX;
    }

    // ---- one field of one partition

    method SetPartitionState(p: nat, state: nat)
      requires p < parts.Length
      modifies parts, this`running
      ensures Ctl() == SetState(old(Ctl()), p, state)
    {
      parts[p] := parts[p].(state := state);
      if state == RUNNING || state == HANDLING_IRQ {
        running := p;
      }
      assert parts[..] == SetState(old(Ctl()), p, state).parts;
    }

    method SetCallerPartitionIdx(p: nat, caller: nat)
      requires p < parts.Length
      modifies parts
      ensures Ctl() == SetCaller(old(Ctl()), p, caller)
    {
      parts[p] := parts[p].(caller := caller);
      assert parts[..] == SetCaller(old(Ctl()), p, caller).parts;
    }

    method SetCallerClientId(p: nat, id: int)
      requires p < parts.Length
      modifies parts
      ensures Ctl() == SetClientId(old(Ctl()), p, id)
    {
      parts[p] := parts[p].(clientId := id);
      assert parts[..] == SetClientId(old(Ctl()), p, id).parts;
    }

    method StorePartitionContext(p: nat, stackPtr: nat, lr: nat)
      requires p < parts.Length
      modifies parts
      ensures Ctl() == StoreContext(old(Ctl()), p, stackPtr, lr)
    {
      parts[p] := parts[p].(stackPtr := stackPtr, lr := lr);
      assert parts[..] == StoreContext(old(Ctl()), p, stackPtr, lr).parts;
    }

    // ---- the context stacks

    method PushInterruptedCtx(p: nat)
      requires p < parts.Length
      modifies parts
      ensures Ctl() == PushInterrupted(old(Ctl()), p)
    {
      parts[p] := parts[p].(ctx := parts[p].ctx + [parts[p].state]);
      assert parts[..] == PushInterrupted(old(Ctl()), p).parts;
    }

    method PushHandlerCtx(p: nat)
      requires p < parts.Length
      modifies parts
      ensures Ctl() == PushHandler(old(Ctl()), p)
    {
      parts[p] := parts[p].(ctx := parts[p].ctx + [parts[p].state, parts[p].caller]);
      assert parts[..] == PushHandler(old(Ctl()), p).parts;
    }

    method PopWords(p: nat, words: nat)
      requires p < parts.Length && words <= |parts[p].ctx|
      modifies parts
      ensures Ctl() == Pop(old(Ctl()), p, words)
    {
      parts[p] := parts[p].(ctx := parts[p].ctx[..|parts[p].ctx| - words]);
      assert parts[..] == Pop(old(Ctl()), p, words).parts;
    }

    method PopInterruptedCtx(p: nat)
      requires p < parts.Length && 1 <= |parts[p].ctx|
      modifies parts, this`running
      ensures Ctl() == PopInterrupted(old(Ctl()), p)
    {
      var state := parts[p].ctx[|parts[p].ctx| - 1];
      PopWords(p, 1);
      SetPartitionState(p, state);
    }

    method PopHandlerCtx(p: nat)
      requires p < parts.Length && 2 <= |parts[p].ctx|
      modifies parts, this`running
      ensures Ctl() == PopHandler(old(Ctl()), p)
    {
      var top := |parts[p].ctx| - 2;
      var state, caller := parts[p].ctx[top], parts[p].ctx[top + 1];
      PopWords(p, 2);
      SetPartitionState(p, state);
      SetCallerPartitionIdx(p, caller);
    }

    // tfm_core_check_sfn_parameters
    method CheckSfnParameters(r: Request) returns (ok: bool)
      ensures ok <==> ParamsOk(cfg, mem, r)
    {
      if r.inLen < 0 || r.outLen < 0 || r.inLen + r.outLen > MAX_IOVEC {
        return false;
      }
      if r.inLen > 0 {
        if r.inPtr == 0 || !cfg.canWrite(r.inPtr, 2 * r.inLen, r.nsCaller) {
          return false;
        }
      } else if r.inPtr != 0 {
        return false;
      }
      if r.outLen > 0 {
        if r.outPtr == 0 || !cfg.canWrite(r.outPtr, 2 * r.outLen, r.nsCaller) {
          return false;
        }
      } else if r.outPtr != 0 {
        return false;
      }
      for i := 0 to r.inLen
        invariant forall j :: 0 <= j < i ==> InVecOk(cfg, VecAt(mem, r.inPtr, j), r.nsCaller)
      {
        var v := VecAt(mem, r.inPtr, i);
        if v.len > 0 && (v.base == 0 || !cfg.canRead(v.base, v.len, r.nsCaller)) {
          return false;
        }
      }
      for i := 0 to r.outLen
        invariant forall j :: 0 <= j < i ==> OutVecOk(cfg, VecAt(mem, r.outPtr, j), r.nsCaller)
      {
        var v := VecAt(mem, r.outPtr, i);
        if v.len > 0 && (v.base == 0 || !cfg.canWrite(v.base, v.len, r.nsCaller)) {
          return false;
        }
      }
      return true;
    }

    // tfm_spm_partition_set_iovec: the vectors in caller memory, over what the arrays held
    method ReadVectors(was: IovecArgs, r: Request) returns (v: IovecArgs)
      requires was.Shaped() && 0 <= r.inLen <= MAX_IOVEC && 0 <= r.outLen <= MAX_IOVEC
      ensures v == ReadIovec(was, mem, r)
    {
      ghost var ins, outs := VecsAt(mem, r.inPtr, r.inLen), VecsAt(mem, r.outPtr, r.outLen);
      var inVec := was.inVec;
      for i := 0 to r.inLen
        invariant inVec == Overlay(ins[..i], was.inVec)
      {
        OverlayStep(ins, was.inVec, i);
        inVec := inVec[i := VecAt(mem, r.inPtr, i)];
      }
      var outVec := was.outVec;
      for i := 0 to r.outLen
        invariant outVec == Overlay(outs[..i], was.outVec)
      {
        OverlayStep(outs, was.outVec, i);
        outVec := outVec[i := VecAt(mem, r.outPtr, i)];
      }
      assert ins[..r.inLen] == ins && outs[..r.outLen] == outs;
      v := IovecArgs(inVec, r.inLen, outVec, r.outLen);
    }

    // tfm_copy_iovec_parameters, to the top of the secure stack
    method CopyVectors(source: IovecArgs)
      requires copy.Shaped() && source.Shaped() && source.inLen <= MAX_IOVEC && source.outLen <= MAX_IOVEC
      modifies this`copy
      ensures copy == CopyIovec(old(copy), source)
    {
      copy := copy.(inLen := source.inLen);
      for i := 0 to source.inLen
        invariant copy == old(copy).(inLen := source.inLen, inVec := Overlay(source.inVec[..i], old(copy).inVec))
      {
        OverlayStep(source.inVec, old(copy).inVec, i);
        copy := copy.(inVec := copy.inVec[i := source.inVec[i]]);
      }
      ghost var mid := copy;
      copy := copy.(outLen := source.outLen);
      for i := 0 to source.outLen
        invariant copy == mid.(outLen := source.outLen, outVec := Overlay(source.outVec[..i], mid.outVec))
      {
        OverlayStep(source.outVec, mid.outVec, i);
        copy := copy.(outVec := copy.outVec[i := source.outVec[i]]);
      }
    }

    // The loops of tfm_clear_iovec_parameters and tfm_spm_partition_cleanup_context
    method ClearedVectors(was: IovecArgs) returns (v: IovecArgs)
      requires was.Shaped()
      ensures v == NO_IOVEC
    {
      v := was.(inLen := 0);
      for i := 0 to MAX_IOVEC
        invariant v.Shaped() && v.inLen == 0 && forall j :: 0 <= j < i ==> v.inVec[j] == NO_VEC
      {
        v := v.(inVec := v.inVec[i := NO_VEC]);
      }
      v := v.(outLen := 0);
      for i := 0 to MAX_IOVEC
        invariant v.Shaped() && v.inLen == v.outLen == 0
        invariant forall j :: 0 <= j < MAX_IOVEC ==> v.inVec[j] == NO_VEC
        invariant forall j :: 0 <= j < i ==> v.outVec[j] == NO_VEC
      {
        v := v.(outVec := v.outVec[i := NO_VEC]);
      }
      assert v.inVec == NO_VECS && v.outVec == NO_VECS;
    }

    // tfm_spm_partition_set_iovec
    method SetIovecArgs(p: nat, r: Request)
      requires p < parts.Length && parts[p].iovec.Shaped() && 0 <= r.inLen <= MAX_IOVEC && 0 <= r.outLen <= MAX_IOVEC
      modifies parts
      ensures Ctl() == SetIovec(old(Ctl()), p, ReadIovec(old(parts[p].iovec), mem, r), r.outPtr)
    {
      var iovec := ReadVectors(parts[p].iovec, r);
      parts[p] := parts[p].(iovec := iovec, origOutvec := r.outPtr);
      assert parts[..] == SetIovec(old(Ctl()), p, iovec, r.outPtr).parts;
    }

    // tfm_spm_partition_cleanup_context
    method CleanupContext(p: nat)
      requires p < parts.Length && parts[p].iovec.Shaped()
      modifies parts
      ensures Ctl() == Cleanup(old(Ctl()), p)
    {
      var iovec := ClearedVectors(parts[p].iovec);
      parts[p] := parts[p].(caller := INVALID_IDX, iovec := iovec, origOutvec := 0);
      assert parts[..] == Cleanup(old(Ctl()), p).parts;
    }

    // ---- calls and returns

    // The second half of tfm_start_partition
    method BeginService(r: Request, caller: nat, p: nat, vectors: bool)
      requires caller < parts.Length && p < parts.Length && copy.Shaped() && parts[p].iovec.Shaped()
      requires 0 <= r.inLen <= MAX_IOVEC && 0 <= r.outLen <= MAX_IOVEC
      modifies parts, this`running, this`lock, this`copy
      ensures View() == Begin(old(View()), r, caller, p, vectors)
    {
      if vectors {
        SetIovecArgs(p, r);
        CopyVectors(parts[p].iovec);
      }
      SetPartitionState(caller, BLOCKED);
      SetPartitionState(p, RUNNING);
      lock := lock + 1;
    }

    // tfm_start_partition
    method Start(r: Request) returns (res: Result)
      requires Valid() && running < |cfg.statics| && IdxOf(cfg.statics, r.spId) < |cfg.statics|
      requires 0 <= r.inLen <= MAX_IOVEC && 0 <= r.outLen <= MAX_IOVEC
      modifies parts, this`running, this`lock, this`copy
      ensures Agrees(res, View(), old(View()), StartPartition(cfg, old(View()), r, initializing))
    {
      var caller := running;
      var appRot := cfg.statics[caller].appRot;
      if appRot == r.nsCaller {
        return Halt(LockFailed);
      }
      var p := GetPartitionIdx(r.spId);
      if !initializing {
        var check := CheckPartitionState(parts[p].state, parts[caller].state);
        if check != Success {
          return Halt(check);
        }
      }
      SetCallerPartitionIdx(p, caller);
      StorePartitionContext(caller, r.psp, r.excReturn);
      if appRot {
        SetCallerClientId(p, cfg.statics[caller].id);
      } else {
        if r.nsClientId >= 0 {
          return Halt(LockFailed);
        }
        SetCallerClientId(p, r.nsClientId);
      }
      BeginService(r, caller, p, r.nsCaller || initializing);
      return Done;
    }

    // tfm_core_sfn_request_handler, and before it the check of tfm_core_sfn_request_thread_mode
    method SfnRequest(r: Request) returns (res: Result)
      requires Valid() && IdxOf(cfg.statics, r.spId) < |cfg.statics|
      requires running < |cfg.statics| || running == INVALID_IDX
      modifies parts, this`running, this`lock, this`copy
      ensures Agrees(res, View(), old(View()), Call(cfg, old(View()), r, initializing))
    {
      var ok := CheckSfnParameters(r);
      if !r.nsCaller && !initializing && !ok {
        return Refuse(InvalidParameter);
      }
      if r.spId == 0 || r.sfn == 0 || !ok {
        return Halt(InvalidParameter);
      }
      if running == INVALID_IDX {
        return Halt(NoActivePartition);
      }
      if r.nsCaller && lock != 0 {
        return Halt(SecureDomainLocked);
      }
      if initializing && (cfg.statics[running].id != CORE || lock != 0) {
        return Halt(NotInitialized);
      }
      res := Start(r);
    }

    // The write-back of the out lengths, and the clearing of the copy
    method HandBackVectors(cur: nat)
      requires cur < parts.Length && WritesFit(View(), cur) && copy.Shaped()
      modifies this`mem, this`copy
      ensures View() == HandBack(old(View()), cur)
    {
      var ptr, n := parts[cur].origOutvec, parts[cur].iovec.outLen;
      for i := 0 to n
        invariant copy == old(copy)
        invariant mem == WriteBack(old(mem), ptr, copy.outVec, i)
      {
        mem := mem[ptr + 2 * i + 1 := copy.outVec[i].len];
      }
      copy := ClearedVectors(copy);
    }

    // The database updates of tfm_return_from_partition
    method EndService(cur: nat, ret: nat)
      requires cur < parts.Length && ret < parts.Length && parts[cur].iovec.Shaped()
      modifies parts, this`running, this`lock
      ensures Ctl() == Leave(old(Ctl()), cur, ret)
    {
      lock := lock - 1;
      CleanupContext(cur);
      SetPartitionState(cur, IDLE);
      SetPartitionState(ret, RUNNING);
    }

    // tfm_return_from_partition; `target` is where execution resumes after a return to non-secure code
    method ReturnFromPartition() returns (res: Result, target: (nat, nat))
      requires Valid() && !Return(cfg, View(), initializing).Undefined?
      modifies parts, this`running, this`lock, this`copy, this`mem
      ensures Agrees(res, View(), old(View()), Return(cfg, old(View()), initializing))
      ensures res == Done && (initializing || running == NS) ==>
        && old(running) < parts.Length && old(parts[running].caller) < parts.Length
        && target == ReturnTarget(old(Ctl()))
    {
      target := (0, 0);
      var cur := running;
      if cur == INVALID_IDX {
        return Halt(UnlockFailed), target;
      }
      var ret := parts[cur].caller;
      if ret == INVALID_IDX {
        return Halt(UnlockFailed), target;
      }
      if !cfg.statics[ret].appRot || initializing {
        target := (parts[ret].stackPtr, parts[ret].lr);
        HandBackVectors(cur);
      }
      EndService(cur, ret);
      res := Done;
    }

    // ---- deprivileged interrupts

    // tfm_start_partition_for_irq_handling
    method StartIrq(handlerId: nat, signal: bv32) returns (res: Result)
      requires Valid() && running < |cfg.statics| && IdxOf(cfg.statics, handlerId) < |cfg.statics|
      modifies parts, this`running, this`masks
      ensures Agrees(res, View(), old(View()), IrqEnter(cfg, old(View()), handlerId, signal))
    {
      var interrupted := running;
      var h := GetPartitionIdx(handlerId);
      if !IrqStateOk(parts[h].state) {
        return Halt(LockFailed);
      }
      masks := masks[h := masks[h] | signal];
      PushInterruptedCtx(interrupted);
      PushHandlerCtx(h);
      SetCallerPartitionIdx(h, interrupted);
      SetPartitionState(interrupted, SUSPENDED);
      SetPartitionState(h, HANDLING_IRQ);
      res := Done;
    }

    // tfm_return_from_partition_irq_handling
    method ReturnFromIrq() returns (res: Result)
      requires Valid() && !IrqLeave(cfg, View()).Undefined?
      modifies parts, this`running
      ensures Agrees(res, View(), old(View()), IrqLeave(cfg, old(View())))
    {
      var h := running;
      if h == INVALID_IDX {
        return Halt(UnlockFailed);
      }
      var interrupted := parts[h].caller;
      if interrupted == INVALID_IDX {
        return Halt(UnlockFailed);
      }
      PopHandlerCtx(h);
      PopInterruptedCtx(interrupted);
      res := Done;
    }

    // ---- boot

    // The loop of tfm_spm_db_init
    method DbInit()
      requires Valid()
      modifies parts
      ensures Valid()
      ensures forall p :: 0 <= p < parts.Length ==>
        parts[p].state == UNINIT && parts[p].caller == INVALID_IDX && parts[p].ctx == []
    {
      for i := 0 to parts.Length
        invariant Valid()
        invariant forall p :: 0 <= p < i ==>
          parts[p].state == UNINIT && parts[p].caller == INVALID_IDX && parts[p].ctx == []
      {
        parts[i] := parts[i].(state := UNINIT, caller := INVALID_IDX, clientId := 0, ctx := []);
      }
    }

    // What holds between the initialisations of two partitions
    ghost predicate Initialised(n: nat)
      reads this, parts
    {
      initializing && |mem| == cfg.memSize && BetweenInits(cfg, View(), n)
    }

    // The core calls the initialisation function of a partition.
    method CallInit(p: nat, psp: nat, excReturn: nat)
      requires Initialised(p) && 2 <= p < parts.Length
      modifies parts, this`running, this`lock, this`copy
      ensures InitRuns(cfg, old(View()), View(), p)
    {
      IdxOfIsInverse(cfg, p);
      var req := Request(false, cfg.statics[p].id, 1, 0, 0, 0, 0, psp, excReturn, 0);
      InitCall(cfg, View(), p, req);
      var res := SfnRequest(req);
    }

    method ReturnFromInit(p: nat, ghost before: State)
      requires Valid() && initializing && |before.mem| == cfg.memSize
      requires BetweenInits(cfg, before, p) && 2 <= p < parts.Length && InitRuns(cfg, before, View(), p)
      modifies parts, this`running, this`lock, this`copy, this`mem
      ensures Initialised(p + 1)
    {
      InitReturn(cfg, before, View(), p);
      var res, target := ReturnFromPartition();
    }

    // One initialisation function called by the core, and its return
    method InitOne(p: nat, psp: nat, excReturn: nat)
      requires Initialised(p) && 2 <= p < parts.Length
      modifies parts, this`running, this`lock, this`copy, this`mem
      ensures Initialised(p + 1)
    {
      ghost var before := View();
      CallInit(p, psp, excReturn);
      ReturnFromInit(p, before);
      SetPartitionState(p, IDLE);
    }

    // tfm_spm_partition_init, when every initialisation function succeeds
    method PartitionInit(psp: nat, excReturn: nat)
      requires Initialised(0)
      modifies this, parts
      ensures Valid() && !initializing && lock == 0
      ensures forall p :: 0 <= p < parts.Length ==>
        parts[p].caller == INVALID_IDX && parts[p].ctx == [] && (p != CORE ==> parts[p].state == IDLE)
    {
      for idx := 0 to parts.Length
        invariant Initialised(idx)
      {
        if !cfg.statics[idx].hasInit {
          SetPartitionState(idx, IDLE);
          SetCallerPartitionIdx(idx, INVALID_IDX);
        } else {
          InitOne(idx, psp, excReturn);
        }
      }
      initializing := false;
    }

    // The library-model part of main(): after it, the database is as every run starts
    method Boot(psp: nat, excReturn: nat)
      requires Valid() && initializing && lock == 0
      modifies this, parts
      ensures Valid() && !initializing && SpmRuns.Booted(cfg, View())
    {
      DbInit();
      SetPartitionState(CORE, RUNNING);
      PartitionInit(psp, excReturn);
      BootedAfterInits(cfg, View());
      SetPartitionState(CORE, CLOSED);
      SetPartitionState(NS, RUNNING);
    }
  }
}
