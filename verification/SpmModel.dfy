/**
  The library-model Secure Partition Manager: its data, and every operation that moves control
  between partitions as a function from state to outcome.

  A partition state, a context-stack word and a caller index are the numbers the database holds.
  Addresses and lengths of caller memory count 32-bit words. Access checks are functions of the
  configuration; all that is assumed of them is that what they grant exists.
*/
module SpmModel {

  const UNINIT: nat := 0
  const IDLE: nat := 1
  const RUNNING: nat := 2
  const HANDLING_IRQ: nat := 3
  const SUSPENDED: nat := 4
  const BLOCKED: nat := 5
  const CLOSED: nat := 6

  const INVALID_IDX: nat := 0xFFFF_FFFF
  const MAX_IOVEC: nat := 4

  // TFM_SP_NON_SECURE_ID and TFM_SP_CORE_ID: identifiers that the boot code also uses as indices.
  const NS: nat := 0
  const CORE: nat := 1
  const FIRST_SECURE_ID: nat := 256

  datatype Status =
    | Success
    | SecureDomainLocked
    | InvalidParameter
    | NonReentrant
    | NotInitialized
    | NoActivePartition
    | InvalidExcMode
    | LockFailed
    | UnlockFailed

  // psa_invec / psa_outvec
  datatype Vec = Vec(base: nat, len: nat)

  // struct iovec_args_t: two arrays of MAX_IOVEC vectors and how many of each are in use
  datatype IovecArgs = IovecArgs(inVec: seq<Vec>, inLen: nat, outVec: seq<Vec>, outLen: nat)
  {
    predicate Shaped() { |inVec| == MAX_IOVEC && |outVec| == MAX_IOVEC }
  }

  const NO_VEC := Vec(0, 0)
  const NO_VECS: seq<Vec> := [NO_VEC, NO_VEC, NO_VEC, NO_VEC]
  const NO_IOVEC := IovecArgs(NO_VECS, 0, NO_VECS, 0)

  // struct spm_partition_runtime_data_t; `ctx` is the used part of the context stack, so
  // ctx_stack_ptr is its base plus |ctx| words
  datatype Partition = Partition(state: nat, caller: nat, clientId: int, stackPtr: nat, lr: nat,
                                 iovec: IovecArgs, origOutvec: nat, ctx: seq<nat>)

  // struct spm_partition_static_data_t
  datatype Static = Static(id: nat, appRot: bool, hasInit: bool)

  datatype Config = Config(statics: seq<Static>, memSize: nat,
                           canRead: (nat, nat, bool) -> bool, canWrite: (nat, nat, bool) -> bool)
  {
    ghost predicate Valid() {
      && 2 <= |statics| < INVALID_IDX
      && statics[NS] == Static(NS, false, false)
      && statics[CORE] == Static(CORE, true, false)
      && (forall i :: 2 <= i < |statics| ==> statics[i].appRot && FIRST_SECURE_ID <= statics[i].id < INVALID_IDX)
      && (forall i, j :: 0 <= i < j < |statics| ==> statics[i].id != statics[j].id)
      && (forall a: nat, n: nat, ns :: canWrite(a, n, ns) ==> a + n <= memSize)
    }
  }

  // The part of the state that decides who runs, and what an interrupt must put back.
  datatype Control = Control(parts: seq<Partition>, running: nat, lock: int)

  // masks: signal_mask of each partition. copy: the iovec_args_t at the top of the secure stack.
  datatype State = State(ctl: Control, masks: seq<bv32>, copy: IovecArgs, mem: seq<nat>)

  // struct tfm_sfn_req_s, with the registers and the non-secure client identity at the time of the call
  datatype Request = Request(nsCaller: bool, spId: nat, sfn: nat,
                             inPtr: nat, inLen: int, outPtr: nat, outLen: int,
                             psp: nat, excReturn: nat, nsClientId: int)

  // Refused: an error code goes back to the caller. Halted: the error handler stops the system.
  // Undefined: the C code would index outside the database, a context stack or memory.
  datatype Outcome = Next(state: State) | Refused(status: Status) | Halted(error: Status) | Undefined

  predicate Active(state: nat) { state == RUNNING || state == HANDLING_IRQ }

  // ---------------------------------------------------------------- the partition database

  function IdxFrom(statics: seq<Static>, id: nat, from: nat): nat
    requires from <= |statics|
    decreases |statics| - from
  {
    if from == |statics| then INVALID_IDX
    else if statics[from].id == id then from
    else IdxFrom(statics, id, from + 1)
  }

  // get_partition_idx
  function IdxOf(statics: seq<Static>, id: nat): nat {
    if id == INVALID_IDX then INVALID_IDX else IdxFrom(statics, id, 0)
  }

  function SetState(c: Control, p: nat, state: nat): Control
    requires p < |c.parts|
  {
    c.(parts := c.parts[p := c.parts[p].(state := state)], running := if Active(state) then p else c.running)
  }

  function SetCaller(c: Control, p: nat, caller: nat): Control
    requires p < |c.parts|
  {
    c.(parts := c.parts[p := c.parts[p].(caller := caller)])
  }

  function SetClientId(c: Control, p: nat, id: int): Control
    requires p < |c.parts|
  {
    c.(parts := c.parts[p := c.parts[p].(clientId := id)])
  }

  function StoreContext(c: Control, p: nat, stackPtr: nat, lr: nat): Control
    requires p < |c.parts|
  {
    c.(parts := c.parts[p := c.parts[p].(stackPtr := stackPtr, lr := lr)])
  }

  function SetIovec(c: Control, p: nat, iovec: IovecArgs, origOutvec: nat): Control
    requires p < |c.parts|
  {
    c.(parts := c.parts[p := c.parts[p].(iovec := iovec, origOutvec := origOutvec)])
  }

  function Cleanup(c: Control, p: nat): Control
    requires p < |c.parts|
  {
    c.(parts := c.parts[p := c.parts[p].(caller := INVALID_IDX, iovec := NO_IOVEC, origOutvec := 0)])
  }

  function Push(c: Control, p: nat, words: seq<nat>): Control
    requires p < |c.parts|
  {
    c.(parts := c.parts[p := c.parts[p].(ctx := c.parts[p].ctx + words)])
  }

  function Pop(c: Control, p: nat, words: nat): Control
    requires p < |c.parts| && words <= |c.parts[p].ctx|
  {
    c.(parts := c.parts[p := c.parts[p].(ctx := c.parts[p].ctx[..|c.parts[p].ctx| - words])])
  }

  // interrupted_ctx_stack_frame_t: one word
  function PushInterrupted(c: Control, p: nat): Control
    requires p < |c.parts|
  {
    Push(c, p, [c.parts[p].state])
  }

  function PopInterrupted(c: Control, p: nat): Control
    requires p < |c.parts| && 1 <= |c.parts[p].ctx|
  {
    var ctx := c.parts[p].ctx;
    SetState(Pop(c, p, 1), p, ctx[|ctx| - 1])
  }

  // handler_ctx_stack_frame_t: two words
  function PushHandler(c: Control, p: nat): Control
    requires p < |c.parts|
  {
    Push(c, p, [c.parts[p].state, c.parts[p].caller])
  }

  function PopHandler(c: Control, p: nat): Control
    requires p < |c.parts| && 2 <= |c.parts[p].ctx|
  {
    var ctx := c.parts[p].ctx;
    SetCaller(SetState(Pop(c, p, 2), p, ctx[|ctx| - 2]), p, ctx[|ctx| - 1])
  }

  // ---------------------------------------------------------------- vectors in caller memory

  function VecAt(mem: seq<nat>, ptr: nat, i: nat): Vec {
    if ptr + 2 * i + 1 < |mem| then Vec(mem[ptr + 2 * i], mem[ptr + 2 * i + 1]) else NO_VEC
  }

  function VecsAt(mem: seq<nat>, ptr: nat, n: nat): (vs: seq<Vec>)
    ensures |vs| == n
    ensures forall i :: 0 <= i < n ==> vs[i] == VecAt(mem, ptr, i)
  {
    if n == 0 then [] else VecsAt(mem, ptr, n - 1) + [VecAt(mem, ptr, n - 1)]
  }

  // Writing the first |vs| entries of an array leaves the others as they were.
  function Overlay(vs: seq<Vec>, old_: seq<Vec>): (r: seq<Vec>)
    requires |vs| <= |old_|
    ensures |r| == |old_|
  {
    vs + old_[|vs|..]
  }

  // tfm_core_check_sfn_parameters
  ghost predicate ParamsOk(cfg: Config, mem: seq<nat>, r: Request) {
    && 0 <= r.inLen && 0 <= r.outLen && r.inLen + r.outLen <= MAX_IOVEC
    && (if r.inLen > 0 then r.inPtr != 0 && cfg.canWrite(r.inPtr, 2 * r.inLen, r.nsCaller) else r.inPtr == 0)
    && (if r.outLen > 0 then r.outPtr != 0 && cfg.canWrite(r.outPtr, 2 * r.outLen, r.nsCaller) else r.outPtr == 0)
    && (forall i :: 0 <= i < r.inLen ==> InVecOk(cfg, VecAt(mem, r.inPtr, i), r.nsCaller))
    && (forall i :: 0 <= i < r.outLen ==> OutVecOk(cfg, VecAt(mem, r.outPtr, i), r.nsCaller))
  }

  predicate InVecOk(cfg: Config, v: Vec, ns: bool) {
    v.len > 0 ==> v.base != 0 && cfg.canRead(v.base, v.len, ns)
  }

  predicate OutVecOk(cfg: Config, v: Vec, ns: bool) {
    v.len > 0 ==> v.base != 0 && cfg.canWrite(v.base, v.len, ns)
  }

  // tfm_spm_partition_set_iovec, on arrays that have been checked
  function ReadIovec(was: IovecArgs, mem: seq<nat>, r: Request): (v: IovecArgs)
    requires was.Shaped() && 0 <= r.inLen <= MAX_IOVEC && 0 <= r.outLen <= MAX_IOVEC
    ensures v.Shaped()
  {
    IovecArgs(Overlay(VecsAt(mem, r.inPtr, r.inLen), was.inVec), r.inLen,
              Overlay(VecsAt(mem, r.outPtr, r.outLen), was.outVec), r.outLen)
  }

  // tfm_copy_iovec_parameters
  function CopyIovec(target: IovecArgs, source: IovecArgs): (v: IovecArgs)
    requires target.Shaped() && source.Shaped() && source.inLen <= MAX_IOVEC && source.outLen <= MAX_IOVEC
    ensures v.Shaped()
  {
    IovecArgs(Overlay(source.inVec[..source.inLen], target.inVec), source.inLen,
              Overlay(source.outVec[..source.outLen], target.outVec), source.outLen)
  }

  // The caller's out_vec[i].len for i < n take the lengths the service left in its copy.
  function WriteBack(mem: seq<nat>, ptr: nat, outVec: seq<Vec>, n: nat): (m: seq<nat>)
    requires n <= |outVec| && ptr + 2 * n <= |mem|
    ensures |m| == |mem|
  {
    if n == 0 then mem
    else WriteBack(mem, ptr, outVec, n - 1)[ptr + 2 * (n - 1) + 1 := outVec[n - 1].len]
  }

  // ---------------------------------------------------------------- calls and returns

  // check_partition_state
  function CheckPartitionState(target: nat, caller: nat): Status {
    if caller != RUNNING then InvalidExcMode
    else if target == RUNNING || target == HANDLING_IRQ || target == SUSPENDED || target == BLOCKED then NonReentrant
    else if target != IDLE then LockFailed
    else Success
  }

  // check_irq_partition_state
  predicate IrqStateOk(state: nat) {
    state == IDLE || state == RUNNING || state == HANDLING_IRQ || state == SUSPENDED || state == BLOCKED
  }

  // tfm_core_check_sfn_req_rules
  function CheckRules(cfg: Config, c: Control, nsCaller: bool, initializing: bool): Status
    requires c.running == INVALID_IDX || c.running < |cfg.statics|
  {
    if c.running == INVALID_IDX then NoActivePartition
    else if nsCaller && c.lock != 0 then SecureDomainLocked
    else if initializing && (cfg.statics[c.running].id != CORE || c.lock != 0) then NotInitialized
    else Success
  }

  ghost predicate Sized(cfg: Config, s: State) {
    && |s.ctl.parts| == |s.masks| == |cfg.statics|
    && s.copy.Shaped()
    && (forall p :: 0 <= p < |s.ctl.parts| ==> s.ctl.parts[p].iovec.Shaped())
  }

  // tfm_start_partition; the caller is the running partition
  function StartPartition(cfg: Config, s: State, r: Request, initializing: bool): Outcome
    requires Sized(cfg, s) && s.ctl.running < |cfg.statics|
    requires 0 <= r.inLen <= MAX_IOVEC && 0 <= r.outLen <= MAX_IOVEC
  {
    var caller := s.ctl.running;
    if cfg.statics[caller].appRot == r.nsCaller then Halted(LockFailed)
    else
      var p := IdxOf(cfg.statics, r.spId);
      if p >= |cfg.statics| then Undefined
      else
        var check := CheckPartitionState(s.ctl.parts[p].state, s.ctl.parts[caller].state);
        if !initializing && check != Success then Halted(check)
        else if !cfg.statics[caller].appRot && r.nsClientId >= 0 then Halted(LockFailed)
        else
          var id: int := if cfg.statics[caller].appRot then cfg.statics[caller].id else r.nsClientId;
          var c1 := SetClientId(StoreContext(SetCaller(s.ctl, p, caller), caller, r.psp, r.excReturn), p, id);
          Next(Begin(s.(ctl := c1), r, caller, p, r.nsCaller || initializing))
  }

  // The second half of tfm_start_partition: vectors are handed over to a service called from
  // non-secure code or during initialisation
  function Begin(s: State, r: Request, caller: nat, p: nat, vectors: bool): State
    requires caller < |s.ctl.parts| && p < |s.ctl.parts| && s.copy.Shaped() && s.ctl.parts[p].iovec.Shaped()
    requires 0 <= r.inLen <= MAX_IOVEC && 0 <= r.outLen <= MAX_IOVEC
  {
    if vectors then
      var iovec := ReadIovec(s.ctl.parts[p].iovec, s.mem, r);
      s.(ctl := Enter(SetIovec(s.ctl, p, iovec, r.outPtr), caller, p), copy := CopyIovec(s.copy, iovec))
    else
      s.(ctl := Enter(s.ctl, caller, p))
  }

  // The last three statements of tfm_start_partition
  function Enter(c: Control, caller: nat, p: nat): Control
    requires caller < |c.parts| && p < |c.parts|
  {
    SetState(SetState(c, caller, BLOCKED), p, RUNNING).(lock := c.lock + 1)
  }

  // tfm_core_sfn_request_handler, preceded for a secure caller by the check that
  // tfm_core_sfn_request_thread_mode makes before it
  ghost function Call(cfg: Config, s: State, r: Request, initializing: bool): Outcome
    requires Sized(cfg, s) && (s.ctl.running == INVALID_IDX || s.ctl.running < |cfg.statics|)
  {
    if !r.nsCaller && !initializing && !ParamsOk(cfg, s.mem, r) then Refused(InvalidParameter)
    else if r.spId == 0 || r.sfn == 0 then Halted(InvalidParameter)
    else if !ParamsOk(cfg, s.mem, r) then Halted(InvalidParameter)
    else
      var rules := CheckRules(cfg, s.ctl, r.nsCaller, initializing);
      if rules != Success then Halted(rules) else StartPartition(cfg, s, r, initializing)
  }

  // The database updates of tfm_return_from_partition
  function Leave(c: Control, cur: nat, ret: nat): Control
    requires cur < |c.parts| && ret < |c.parts|
  {
    SetState(SetState(Cleanup(c, cur), cur, IDLE), ret, RUNNING).(lock := c.lock - 1)
  }

  // tfm_return_from_partition
  function Return(cfg: Config, s: State, initializing: bool): Outcome
    requires Sized(cfg, s)
  {
    var cur := s.ctl.running;
    if cur == INVALID_IDX then Halted(UnlockFailed)
    else if cur >= |cfg.statics| then Undefined
    else
      var ret := s.ctl.parts[cur].caller;
      if ret == INVALID_IDX then Halted(UnlockFailed)
      else if ret >= |cfg.statics| then Undefined
      else
        var c := Leave(s.ctl, cur, ret);
        if !cfg.statics[ret].appRot || initializing then
          if !WritesFit(s, cur) then Undefined else Next(HandBack(s, cur).(ctl := c))
        else Next(s.(ctl := c))
  }

  predicate WritesFit(s: State, cur: nat)
    requires cur < |s.ctl.parts|
  {
    var p := s.ctl.parts[cur];
    p.iovec.outLen <= MAX_IOVEC && p.origOutvec + 2 * p.iovec.outLen <= |s.mem|
  }

  // The caller's out lengths are written, and the copy of the vectors is cleared.
  function HandBack(s: State, cur: nat): State
    requires cur < |s.ctl.parts| && WritesFit(s, cur) && s.copy.Shaped()
  {
    var p := s.ctl.parts[cur];
    s.(copy := NO_IOVEC, mem := WriteBack(s.mem, p.origOutvec, s.copy.outVec, p.iovec.outLen))
  }

  // Where execution resumes after a return to non-secure code: the stack pointer and the
  // exception-return value of the partition returned to.
  function ReturnTarget(c: Control): (nat, nat)
    requires c.running < |c.parts| && c.parts[c.running].caller < |c.parts|
  {
    var ret := c.parts[c.parts[c.running].caller];
    (ret.stackPtr, ret.lr)
  }

  // ---------------------------------------------------------------- deprivileged interrupts

  // The database part of tfm_start_partition_for_irq_handling
  function IrqEnterCtl(c: Control, h: nat): (d: Control)
    requires c.running < |c.parts| && h < |c.parts|
    ensures |d.parts| == |c.parts|
  {
    var i := c.running;
    var pushed := PushHandler(PushInterrupted(c, i), h);
    SetState(SetState(SetCaller(pushed, h, i), i, SUSPENDED), h, HANDLING_IRQ)
  }

  function IrqEnter(cfg: Config, s: State, handlerId: nat, signal: bv32): Outcome
    requires Sized(cfg, s)
  {
    var h := IdxOf(cfg.statics, handlerId);
    if h >= |cfg.statics| || s.ctl.running >= |cfg.statics| then Undefined
    else if !IrqStateOk(s.ctl.parts[h].state) then Halted(LockFailed)
    else Next(s.(ctl := IrqEnterCtl(s.ctl, h), masks := s.masks[h := s.masks[h] | signal]))
  }

  predicate IrqLeaveDefined(c: Control) {
    && c.running < |c.parts|
    && var h := c.running;
       var i := c.parts[h].caller;
       i < |c.parts| && |c.parts[i].ctx| >= 1 && |c.parts[h].ctx| >= (if i == h then 3 else 2)
  }

  // The database part of tfm_return_from_partition_irq_handling
  function IrqLeaveCtl(c: Control): Control
    requires IrqLeaveDefined(c)
  {
    PopInterrupted(PopHandler(c, c.running), c.parts[c.running].caller)
  }

  function IrqLeave(cfg: Config, s: State): Outcome
    requires Sized(cfg, s)
  {
    if s.ctl.running == INVALID_IDX then Halted(UnlockFailed)
    else if s.ctl.running < |s.ctl.parts| && s.ctl.parts[s.ctl.running].caller == INVALID_IDX then Halted(UnlockFailed)
    else if !IrqLeaveDefined(s.ctl) then Undefined
    else Next(s.(ctl := IrqLeaveCtl(s.ctl)))
  }

  // tfm_core_get_caller_client_id_handler: the identity written and the status; `accessOk` is the check of
  // the result pointer
  function CallerClientId(cfg: Config, c: Control, accessOk: bool): (int, Status)
    requires |c.parts| == |cfg.statics| && c.running < |c.parts|
  {
    var p := c.parts[c.running];
    if !cfg.statics[c.running].appRot || p.state == HANDLING_IRQ || p.state == SUSPENDED then (0, InvalidParameter)
    else if !accessOk then (0, InvalidParameter)
    else (p.clientId, Success)
  }
}
