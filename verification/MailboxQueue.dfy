/**
  The mailbox queue in memory: the bit masks, slots and counters, updated in place by the functions
  of the non-secure mailbox library, each proved against the access it makes in MailboxModel.
*/
module MailboxQueue {
  import opened BitMasks
  import opened MailboxModel
  import MailboxProofs
  import MailboxStats
  import opened Options
  import opened Words

  const NULL_HANDLE: int := 0
  const SUCCESS: int := 0
  const QUEUE_FULL: int := -0x8000_0000 + 1
  const INVAL_PARAMS: int := -0x8000_0000 + 2

  // ---------------------------------------------------------------- whole functions, uninterrupted

  // tfm_ns_mailbox_tx_client_req once it holds slot idx
  function Send(q: Queue, n: nat, idx: nat, msg: Msg, owner: nat, stats: bool): Queue
    requires idx < |q.slots|
  {
    var counted := if stats then AddUsed(CountTx(q), n - CountBits(q.empty, n)) else q;
    Pend(Fill(counted, idx, msg, owner), idx)
  }

  // tfm_ns_mailbox_rx_client_reply
  function Receive(q: Queue, idx: nat): (int, Queue)
    requires idx < |q.slots|
  {
    (q.slots[idx].reply, Release(Disown(q, idx), idx))
  }

  lemma TaskUpdated(tasks: map<nat, Task>, t: nat, a: Task, b: Task)
    ensures tasks[t := a][t := b] == tasks[t := b]
  {
  }

  function SendEvents(t: nat, owner: nat, stats: bool): seq<Event> {
    [AcquireEv(t)] + ((if stats then [CountEv(t)] + [AddUsedEv(t)] else []) + ([FillEv(t, owner)] + [PendEv(t)]))
  }

  /** The transmission as one function is its steps taken without interruption. */
  lemma SendIsItsSteps(cfg: Config, s: State, t: nat, owner: nat, stats: bool)
    requires |s.q.slots| == |s.sec| == cfg.n && t in s.tasks && s.tasks[t].Locked?
    requires Acquire(s.q, cfg.n).0 < cfg.n
    ensures var (idx, q) := Acquire(s.q, cfg.n);
            Steps(cfg, s, SendEvents(t, owner, stats)) ==
            Some(s.(q := Send(q, cfg.n, idx, s.tasks[t].msg, owner, stats),
                    tasks := s.tasks[t := Waiting(s.tasks[t].msg, idx, |s.log|)],
                    txTotal := if stats then s.txTotal + 1 else s.txTotal))
  {
    var fill := [FillEv(t, owner)] + [PendEv(t)];
    var s1 := Step(cfg, s, AcquireEv(t));
    var w := Waiting(s.tasks[t].msg, Acquire(s.q, cfg.n).0, |s.log|);
    if stats {
      StepsFirst(cfg, s, AcquireEv(t), [CountEv(t)] + [AddUsedEv(t)] + fill);
      CountIsItsSteps(cfg, s1, t, owner);
    } else {
      assert [] + fill == fill;
      StepsFirst(cfg, s, AcquireEv(t), fill);
      FillIsItsSteps(cfg, s1, t, owner);
    }
    TaskUpdated(s.tasks, t, s1.tasks[t], w);
  }

  lemma CountIsItsSteps(cfg: Config, s: State, t: nat, owner: nat)
    requires |s.q.slots| == |s.sec| == cfg.n && Enabled(cfg, s, CountEv(t)) && s.tasks[t].idx < cfg.n
    ensures var k := s.tasks[t];
            Steps(cfg, s, [CountEv(t)] + [AddUsedEv(t)] + ([FillEv(t, owner)] + [PendEv(t)])) ==
            Some(s.(q := Send(s.q, cfg.n, k.idx, k.msg, owner, true), txTotal := s.txTotal + 1,
                    tasks := s.tasks[t := Waiting(k.msg, k.idx, |s.log|)]))
  {
    var fill := [FillEv(t, owner)] + [PendEv(t)];
    var s1 := Step(cfg, s, CountEv(t));
    var s2 := Step(cfg, s1, AddUsedEv(t));
    var w := Waiting(s.tasks[t].msg, s.tasks[t].idx, |s.log|);
    assert [CountEv(t)] + [AddUsedEv(t)] + fill == [CountEv(t)] + ([AddUsedEv(t)] + fill);
    StepsFirst(cfg, s, CountEv(t), [AddUsedEv(t)] + fill);
    StepsFirst(cfg, s1, AddUsedEv(t), fill);
    FillIsItsSteps(cfg, s2, t, owner);
    TaskUpdated(s1.tasks, t, s2.tasks[t], w);
    TaskUpdated(s.tasks, t, s1.tasks[t], w);
  }

  lemma FillIsItsSteps(cfg: Config, s: State, t: nat, owner: nat)
    requires |s.q.slots| == |s.sec| == cfg.n && Enabled(cfg, s, FillEv(t, owner))
    ensures var k := s.tasks[t];
            Steps(cfg, s, [FillEv(t, owner)] + [PendEv(t)]) ==
            Some(s.(q := Pend(Fill(s.q, k.idx, k.msg, owner), k.idx), tasks := s.tasks[t := Waiting(k.msg, k.idx, |s.log|)]))
  {
    StepsFirst(cfg, s, FillEv(t, owner), [PendEv(t)]);
    var s1 := Step(cfg, s, FillEv(t, owner));
    assert [PendEv(t)] + [] == [PendEv(t)];
    StepsFirst(cfg, s1, PendEv(t), []);
    TaskUpdated(s.tasks, t, s1.tasks[t], Waiting(s.tasks[t].msg, s.tasks[t].idx, |s.log|));
  }

  /** The reception as one function is its steps taken without interruption. */
  lemma ReceiveIsItsSteps(cfg: Config, s: State, t: nat)
    requires |s.q.slots| == |s.sec| == cfg.n && Enabled(cfg, s, FetchEv(t))
    ensures var k := s.tasks[t];
            var (reply, q) := Receive(s.q, k.idx);
            Steps(cfg, s, [FetchEv(t)] + [ReleaseEv(t)]) ==
            Some(s.(q := q, tasks := s.tasks[t := Returned(k.msg, k.idx, k.since, |s.log|, reply)]))
  {
    StepsFirst(cfg, s, FetchEv(t), [ReleaseEv(t)]);
    var s1 := Step(cfg, s, FetchEv(t));
    assert [ReleaseEv(t)] + [] == [ReleaseEv(t)];
    StepsFirst(cfg, s1, ReleaseEv(t), []);
    TaskUpdated(s.tasks, t, s1.tasks[t], Step(cfg, s1, ReleaseEv(t)).tasks[t]);
  }

  // ---------------------------------------------------------------- the queue in memory

  class NsMailbox {
    const n: nat
    var initialised: bool
    var emptySlots: nat
    var pendSlots: nat
    var repliedSlots: nat
    const queue: array<Slot>
    var nrTx: nat
    var nrUsed: nat

    ghost function Q(): Queue
      reads this, queue
    {
      Queue(emptySlots, pendSlots, repliedSlots, queue[..], nrTx, nrUsed)
    }

    ghost predicate Valid() {
      1 <= n <= 32 && queue.Length == n
    }

    constructor (slots: nat)
      requires 1 <= slots <= 32
      ensures Valid() && n == slots && !initialised && fresh(queue)
    {
      n := slots;
      initialised := false;
      emptySlots, pendSlots, repliedSlots, nrTx, nrUsed := 0, 0, 0, 0, 0;
      queue := new Slot[slots](_ => Slot(Msg(0, 0, 0), 0, 0, false));
    }

    // tfm_ns_mailbox_init, without the platform's part
    method Init()
      requires Valid()
      modifies this, queue
      ensures initialised && Q() == InitialQueue(n) && emptySlots == Pow2(n) - 1
    {
      pendSlots, repliedSlots, nrTx, nrUsed := 0, 0, 0, 0;
      forall i | 0 <= i < queue.Length {
        queue[i] := Slot(Msg(0, 0, 0), 0, 0, false);
      }
      var top := Pow2(n - 1);
      WrapOnce(top - 1, top);
      emptySlots := (top - 1) % TWO_32;
      emptySlots := (emptySlots + top % TWO_32) % TWO_32;
      initialised := true;
      MailboxProofs.InitialEmpty(n);
      assert queue[..] == InitialQueue(n).slots;
    }

    static lemma WrapOnce(a: nat, b: nat)
      ensures (a % TWO_32 + b % TWO_32) % TWO_32 == (a + b) % TWO_32
    {
    }

    // acquire_empty_slot
    method AcquireEmptySlot() returns (idx: nat)
      requires Valid()
      modifies this`emptySlots
      ensures (idx, Q()) == Acquire(old(Q()), n)
    {
      var status := emptySlots;
      if status == 0 {
        return n;
      }
      idx := FirstSet(status);
      if idx < n {
        emptySlots := ClearBit(emptySlots, idx);
      }
    }

    // The scan for the first set bit, here and in the interrupt handler
    method FirstSet(status: nat) returns (idx: nat)
      ensures idx == LowestBit(status, n)
    {
      idx := 0;
      while idx < n
        invariant idx <= n && LowestFrom(status, 0, n) == LowestFrom(status, idx, n)
      {
        if TestBit(status, idx) {
          break;
        }
        idx := idx + 1;
      }
    }

    // The counting loop of mailbox_tx_stats_update, outside its critical sections
    method CountEmpty(status: nat) returns (nrEmpty: nat)
      ensures nrEmpty == CountBits(status, n)
    {
      nrEmpty := 0;
      if status != 0 {
        for idx := 0 to n
          invariant nrEmpty == CountBits(status, idx)
        {
          if TestBit(status, idx) {
            nrEmpty := nrEmpty + 1;
          }
        }
      } else {
        NoBits(n);
      }
    }

    static lemma {:induction false} NoBits(k: nat)
      ensures CountBits(0, k) == 0
    {
      if k > 0 {
        NoBits(k - 1);
        ZeroHasNoBits(k - 1);
      }
    }

    // tfm_ns_mailbox_tx_stats_init
    method TxStatsInit()
      requires Valid()
      modifies this`nrTx, this`nrUsed
      ensures Q() == if initialised then ResetCounters(old(Q())) else old(Q())
    {
      if !initialised {
        return;
      }
      nrTx := 0;
      nrUsed := 0;
    }

    // mailbox_tx_stats_update
    method TxStatsUpdate()
      requires Valid()
      modifies this`nrTx, this`nrUsed
      ensures Q() == AddUsed(CountTx(old(Q())), n - CountBits(emptySlots, n))
    {
      nrTx := (nrTx + 1) % TWO_32;
      var nrEmpty := CountEmpty(emptySlots);
      nrUsed := (nrUsed + (n - nrEmpty)) % TWO_32;
    }

    /** tfm_ns_mailbox_tx_client_req run without interruption: the message and its owner are in the acquired
        slot, the slot is pending, and the handle names it. */
    method TxClientReq(msg: Msg, owner: nat, params: bool, stats: bool) returns (handle: int)
      requires Valid()
      modifies this, queue
      ensures initialised == old(initialised)
      ensures !old(initialised) || !params ==> handle == NULL_HANDLE && Q() == old(Q())
      ensures old(initialised) && params ==>
                var (idx, q) := Acquire(old(Q()), n);
                if idx >= n then handle == QUEUE_FULL && Q() == q
                else handle == idx + 1 && Q() == Send(q, n, idx, msg, owner, stats)
    {
      if !initialised || !params {
        return NULL_HANDLE;
      }
      var idx := AcquireEmptySlot();
      if idx >= n {
        return QUEUE_FULL;
      }
      if stats {
        TxStatsUpdate();
      }
      queue[idx] := queue[idx].(msg := msg);
      queue[idx] := queue[idx].(owner := owner);
      pendSlots := SetBit(pendSlots, idx);
      assert queue[..] == old(queue[..])[idx := old(queue[idx]).(msg := msg, owner := owner)];
      return idx + 1;
    }

    // get_mailbox_msg_idx: the low byte of the handle minus one
    static function SlotIdx(handle: int): (idx: nat)
      ensures 0 < handle <= 256 ==> idx == handle - 1
    {
      (handle - 1) % 256
    }

    // tfm_ns_mailbox_is_msg_replied; the C code shifts a 32-bit one by the index
    method IsMsgReplied(handle: int) returns (yes: bool)
      requires Valid() && (handle != NULL_HANDLE ==> SlotIdx(handle) < 32)
      ensures yes <==> initialised && handle != NULL_HANDLE && TestBit(repliedSlots, SlotIdx(handle))
    {
      if !initialised || handle == NULL_HANDLE {
        return false;
      }
      yes := TestBit(repliedSlots, SlotIdx(handle));
    }

    /** tfm_ns_mailbox_rx_client_reply run without interruption: the reply of the slot, which becomes empty,
        unowned and unmarked. The C code reads the array at the index. */
    method RxClientReply(handle: int) returns (st: int, reply: int)
      requires Valid() && (handle != NULL_HANDLE ==> SlotIdx(handle) < n)
      modifies this, queue
      ensures initialised == old(initialised)
      ensures !old(initialised) || handle == NULL_HANDLE ==> st == INVAL_PARAMS && Q() == old(Q())
      ensures old(initialised) && handle != NULL_HANDLE ==>
                st == SUCCESS && (reply, Q()) == Receive(old(Q()), SlotIdx(handle))
    {
      reply := 0;
      if !initialised || handle == NULL_HANDLE {
        return INVAL_PARAMS, reply;
      }
      var idx := SlotIdx(handle);
      reply := queue[idx].reply;
      queue[idx] := queue[idx].(owner := 0);
      repliedSlots := ClearBit(repliedSlots, idx);
      queue[idx] := queue[idx].(woken := false);
      emptySlots := SetBit(emptySlots, idx);
      assert queue[..] == old(queue[..])[idx := old(queue[idx]).(owner := 0, woken := false)];
      return SUCCESS, reply;
    }

    /** tfm_ns_mailbox_fetch_reply_msg_isr: the first replied slot is marked woken instead. */
    method FetchReplyMsgIsr() returns (handle: int)
      requires Valid()
      modifies this, queue
      ensures initialised == old(initialised)
      ensures var idx := LowestBit(old(repliedSlots), n);
              if !old(initialised) || old(repliedSlots) == 0 || idx == n then handle == NULL_HANDLE && Q() == old(Q())
              else handle == idx + 1 && Q() == Wake(old(Q()), idx)
    {
      if !initialised {
        return NULL_HANDLE;
      }
      var status := repliedSlots;
      if status == 0 {
        return NULL_HANDLE;
      }
      var idx := FirstSet(status);
      if idx < n {
        repliedSlots := ClearBit(repliedSlots, idx);
        queue[idx] := queue[idx].(woken := true);
        assert queue[..] == old(queue[..])[idx := old(queue[idx]).(woken := true)];
        return idx + 1;
      }
      return NULL_HANDLE;
    }

    // tfm_ns_mailbox_stats_avg_slot
    method StatsAvgSlot() returns (written: bool, avg: nat, tenths: nat)
      requires Valid() && (initialised ==> nrTx > 0)
      ensures written == initialised
      ensures written ==> (avg, tenths) == MailboxStats.Average(nrUsed, nrTx)
    {
      avg, tenths := 0, 0;
      if !initialised {
        return false, avg, tenths;
      }
      var used := nrUsed;
      avg := used / nrTx % 256;
      used := used % nrTx;
      tenths := used * 10 % TWO_32 / nrTx % 256;
      written := true;
    }
  }
}
