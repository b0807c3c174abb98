/**
  The non-secure mailbox between two cores: client tasks, the reply interrupt and the secure core
  interleave, one step per critical section or unprotected access, around a queue of slots.
*/
module MailboxModel {
  import opened BitMasks
  import opened Options
  import opened Words

  // struct mailbox_msg_t; `params` stands for the whole parameter union
  datatype Msg = Msg(callType: nat, params: nat, clientId: int)

  // struct ns_mailbox_slot_t; owner 0 is no owner
  datatype Slot = Slot(msg: Msg, reply: int, owner: nat, woken: bool)

  // struct ns_mailbox_queue_t
  datatype Queue = Queue(empty: nat, pend: nat, replied: nat, slots: seq<Slot>, nrTx: nat, nrUsed: nat)

  // multi: TFM_MULTI_CORE_MULTI_CLIENT_CALL with 2 to 32 slots and wake-up by the reply interrupt;
  // otherwise one slot, whose reply is polled for.
  datatype Config = Config(n: nat, multi: bool)
  {
    predicate Valid() { if multi then 2 <= n <= 32 else n == 1 }
  }

  // ---------------------------------------------------------------- accesses to the queue

  // acquire_empty_slot
  function Acquire(q: Queue, n: nat): (nat, Queue) {
    var idx := LowestBit(q.empty, n);
    if q.empty == 0 then (n, q) else (idx, if idx < n then q.(empty := ClearBit(q.empty, idx)) else q)
  }

  // The two critical sections of mailbox_tx_stats_update
  function CountTx(q: Queue): Queue { q.(nrTx := (q.nrTx + 1) % TWO_32) }

  function AddUsed(q: Queue, used: nat): Queue { q.(nrUsed := (q.nrUsed + used) % TWO_32) }

  function ResetCounters(q: Queue): Queue { q.(nrTx := 0, nrUsed := 0) }

  function Fill(q: Queue, i: nat, msg: Msg, owner: nat): Queue
    requires i < |q.slots|
  {
    q.(slots := q.slots[i := q.slots[i].(msg := msg, owner := owner)])
  }

  function Pend(q: Queue, i: nat): Queue { q.(pend := SetBit(q.pend, i)) }

  // The second critical section of tfm_ns_mailbox_fetch_reply_msg_isr
  function Wake(q: Queue, i: nat): Queue
    requires i < |q.slots|
  {
    q.(replied := ClearBit(q.replied, i), slots := q.slots[i := q.slots[i].(woken := true)])
  }

  function Disown(q: Queue, i: nat): Queue
    requires i < |q.slots|
  {
    q.(slots := q.slots[i := q.slots[i].(owner := 0)])
  }

  // The critical section of tfm_ns_mailbox_rx_client_reply
  function Release(q: Queue, i: nat): Queue
    requires i < |q.slots|
  {
    q.(replied := ClearBit(q.replied, i), slots := q.slots[i := q.slots[i].(woken := false)], empty := SetBit(q.empty, i))
  }

  // What the secure core does to the queue
  function Take(q: Queue, i: nat): Queue { q.(pend := ClearBit(q.pend, i)) }

  function WriteReply(q: Queue, i: nat, v: int): Queue
    requires i < |q.slots|
  {
    q.(slots := q.slots[i := q.slots[i].(reply := v)])
  }

  function SetReplied(q: Queue, i: nat): Queue { q.(replied := SetBit(q.replied, i)) }

  // tfm_ns_mailbox_init on a zeroed queue
  function InitialQueue(n: nat): Queue
    requires n >= 1
  {
    Queue(((Pow2(n - 1) - 1) + Pow2(n - 1)) % TWO_32, 0, 0, seq(n, _ => Slot(Msg(0, 0, 0), 0, 0, false)), 0, 0)
  }

  // ---------------------------------------------------------------- the parties

  // A call in progress, from the acquisition of the semaphore to its release. `since` is the length
  // of the secure core's log when the message was pended.
  datatype Task =
    | Locked(msg: Msg)
    | Acquired(msg: Msg, idx: nat)
    | Counted(msg: Msg, idx: nat, used: nat)
    | Filling(msg: Msg, idx: nat)
    | Filled(msg: Msg, idx: nat)
    | Waiting(msg: Msg, idx: nat, since: nat)
    | Ready(msg: Msg, idx: nat, since: nat)
    | Fetched(msg: Msg, idx: nat, since: nat, reply: int)
    | Returned(msg: Msg, from: nat, since: nat, until: nat, reply: int)
    | QueueFull(msg: Msg)
  {
    predicate HasSlot() { !Locked? && !Returned? && !QueueFull? }
  }

  // The secure core's work on a slot
  datatype Secure = Rest | Took(msg: Msg) | Wrote(msg: Msg, reply: int)

  // One request the secure core has finished
  datatype Handled = Handled(slot: nat, msg: Msg, reply: int)

  datatype Isr = IsrIdle | IsrGot(status: nat)

  // sem: count of the semaphore. txTotal: transmissions counted since the last reset, without wrap-around.
  datatype State = State(q: Queue, tasks: map<nat, Task>, sem: nat, isr: Isr, sec: seq<Secure>, log: seq<Handled>, txTotal: nat)

  function Initial(cfg: Config): State
    requires cfg.Valid()
  {
    State(InitialQueue(cfg.n), map[], cfg.n, IsrIdle, seq(cfg.n, _ => Rest), [], 0)
  }

  // ---------------------------------------------------------------- steps

  datatype Event =
    | LockEv(t: nat, msg: Msg)          // tfm_ns_multi_core_lock_acquire succeeds
    | AcquireEv(t: nat)
    | CountEv(t: nat)
    | AddUsedEv(t: nat)
    | FillEv(t: nat, owner: nat)
    | PendEv(t: nat)
    | ObserveEv(t: nat)                 // the wait loop sees the reply
    | FetchEv(t: nat)
    | ReleaseEv(t: nat)
    | UnlockEv(t: nat, ok: bool)        // the semaphore release may fail
    | IsrReadEv
    | IsrWakeEv
    | SecTakeEv(i: nat)
    | SecWriteEv(i: nat, v: int)
    | SecReplyEv(i: nat)
    | ResetEv                           // tfm_ns_mailbox_tx_stats_init

  predicate Enabled(cfg: Config, s: State, ev: Event)
    requires |s.q.slots| == |s.sec| == cfg.n
  {
    match ev
    case LockEv(t, _) => t !in s.tasks && s.sem > 0
    case AcquireEv(t) => t in s.tasks && s.tasks[t].Locked?
    case CountEv(t) => t in s.tasks && s.tasks[t].Acquired?
    case AddUsedEv(t) => t in s.tasks && s.tasks[t].Counted?
    case FillEv(t, _) => t in s.tasks && (s.tasks[t].Acquired? || s.tasks[t].Filling?) && s.tasks[t].idx < cfg.n
    case PendEv(t) => t in s.tasks && s.tasks[t].Filled?
    case ObserveEv(t) =>
      && t in s.tasks && s.tasks[t].Waiting? && s.tasks[t].idx < cfg.n
      && if cfg.multi then s.q.slots[s.tasks[t].idx].woken else TestBit(s.q.replied, s.tasks[t].idx)
    case FetchEv(t) => t in s.tasks && s.tasks[t].Ready? && s.tasks[t].idx < cfg.n
    case ReleaseEv(t) => t in s.tasks && s.tasks[t].Fetched? && s.tasks[t].idx < cfg.n
    case UnlockEv(t, _) => t in s.tasks && (s.tasks[t].Returned? || s.tasks[t].QueueFull?)
    case IsrReadEv => cfg.multi && s.isr.IsrIdle?
    case IsrWakeEv => cfg.multi && s.isr.IsrGot? && LowestBit(s.isr.status, cfg.n) < cfg.n
    case SecTakeEv(i) => i < cfg.n && TestBit(s.q.pend, i) && s.sec[i].Rest?
    case SecWriteEv(i, _) => i < cfg.n && s.sec[i].Took?
    case SecReplyEv(i) => i < cfg.n && s.sec[i].Wrote?
    case ResetEv => true
  }

  function Step(cfg: Config, s: State, ev: Event): State
    requires |s.q.slots| == |s.sec| == cfg.n && Enabled(cfg, s, ev)
  {
    match ev
    case LockEv(t, msg) => s.(sem := s.sem - 1, tasks := s.tasks[t := Locked(msg)])
    case AcquireEv(t) =>
      var (idx, q) := Acquire(s.q, cfg.n);
      s.(q := q, tasks := s.tasks[t := if idx >= cfg.n then QueueFull(s.tasks[t].msg) else Acquired(s.tasks[t].msg, idx)])
    case CountEv(t) =>
      s.(q := CountTx(s.q), txTotal := s.txTotal + 1,
         tasks := s.tasks[t := Counted(s.tasks[t].msg, s.tasks[t].idx, cfg.n - CountBits(s.q.empty, cfg.n))])
    case AddUsedEv(t) =>
      s.(q := AddUsed(s.q, s.tasks[t].used), tasks := s.tasks[t := Filling(s.tasks[t].msg, s.tasks[t].idx)])
    case FillEv(t, owner) =>
      s.(q := Fill(s.q, s.tasks[t].idx, s.tasks[t].msg, owner), tasks := s.tasks[t := Filled(s.tasks[t].msg, s.tasks[t].idx)])
    case PendEv(t) =>
      s.(q := Pend(s.q, s.tasks[t].idx), tasks := s.tasks[t := Waiting(s.tasks[t].msg, s.tasks[t].idx, |s.log|)])
    case ObserveEv(t) =>
      s.(tasks := s.tasks[t := Ready(s.tasks[t].msg, s.tasks[t].idx, s.tasks[t].since)])
    case FetchEv(t) =>
      var i := s.tasks[t].idx;
      s.(q := Disown(s.q, i), tasks := s.tasks[t := Fetched(s.tasks[t].msg, i, s.tasks[t].since, s.q.slots[i].reply)])
    case ReleaseEv(t) =>
      var k := s.tasks[t];
      s.(q := Release(s.q, k.idx), tasks := s.tasks[t := Returned(k.msg, k.idx, k.since, |s.log|, k.reply)])
    case UnlockEv(t, ok) => s.(tasks := s.tasks - {t}, sem := if ok then s.sem + 1 else s.sem)
    case IsrReadEv => if s.q.replied == 0 then s else s.(isr := IsrGot(s.q.replied))
    case IsrWakeEv => s.(q := Wake(s.q, LowestBit(s.isr.status, cfg.n)), isr := IsrIdle)
    case SecTakeEv(i) => s.(q := Take(s.q, i), sec := s.sec[i := Took(s.q.slots[i].msg)])
    case SecWriteEv(i, v) => s.(q := WriteReply(s.q, i, v), sec := s.sec[i := Wrote(s.sec[i].msg, v)])
    case SecReplyEv(i) =>
      s.(q := SetReplied(s.q, i), sec := s.sec[i := Rest], log := s.log + [Handled(i, s.sec[i].msg, s.sec[i].reply)])
    case ResetEv => s.(q := ResetCounters(s.q), txTotal := 0)
  }

  // The state after a run, if each of its events was possible
  function Run(cfg: Config, trace: seq<Event>): Option<State>
    requires cfg.Valid()
  {
    if trace == [] then Some(Initial(cfg))
    else
      match Run(cfg, trace[..|trace| - 1])
      case None => None
      case Some(s) =>
        var ev := trace[|trace| - 1];
        if |s.q.slots| == |s.sec| == cfg.n && Enabled(cfg, s, ev) then Some(Step(cfg, s, ev)) else None
  }

  lemma RunNext(cfg: Config, trace: seq<Event>, s: State, ev: Event)
    requires cfg.Valid() && Run(cfg, trace) == Some(s) && |s.q.slots| == |s.sec| == cfg.n && Enabled(cfg, s, ev)
    ensures Run(cfg, trace + [ev]) == Some(Step(cfg, s, ev))
  {
    assert (trace + [ev])[..|trace|] == trace;
  }

  // The state after some steps, if each was possible
  function Steps(cfg: Config, s: State, evs: seq<Event>): Option<State>
    decreases |evs|
  {
    if evs == [] then Some(s)
    else if |s.q.slots| == |s.sec| == cfg.n && Enabled(cfg, s, evs[0]) then Steps(cfg, Step(cfg, s, evs[0]), evs[1..])
    else None
  }

  lemma StepsFirst(cfg: Config, s: State, ev: Event, rest: seq<Event>)
    requires |s.q.slots| == |s.sec| == cfg.n && Enabled(cfg, s, ev)
    ensures Steps(cfg, s, [ev] + rest) == Steps(cfg, Step(cfg, s, ev), rest)
  {
    assert ([ev] + rest)[1..] == rest;
  }
}
