/**
  Progress of the mailbox: no call in progress is ever stuck, and without new calls every schedule of the
  tasks, the interrupt and the secure core ends with all calls completed.
*/
module MailboxProgress {
  import opened BitMasks
  import opened MailboxModel
  import opened MailboxProofs

  // ---------------------------------------------------------------- the work ahead

  function TaskWork(k: Task): nat {
    match k
    case Locked(_) => 15
    case Acquired(_, _) => 14
    case Counted(_, _, _) => 13
    case Filling(_, _) => 12
    case Filled(_, _) => 11
    case Waiting(_, _, _) => 4
    case Ready(_, _, _) => 3
    case Fetched(_, _, _, _) => 2
    case Returned(_, _, _, _, _) => 1
    case QueueFull(_) => 1
  }

  function SlotWork(v: View): nat {
    (if v.pend then 6 else 0) + (if v.replied then 3 else 0) + (if v.woken then 1 else 0) +
    (if v.sec.Took? then 5 else if v.sec.Wrote? then 4 else 0)
  }

  function IsrWork(isr: Isr): nat { if isr.IsrIdle? then 1 else 0 }

  ghost function WorkOf(tasks: map<nat, Task>, among: set<nat>): nat
    requires among <= tasks.Keys
    decreases among
  {
    if among == {} then 0
    else
      var t :| t in among;
      TaskWork(tasks[t]) + WorkOf(tasks, among - {t})
  }

  function SlotsWork(s: State, k: nat): nat
    requires k <= |s.q.slots| == |s.sec|
  {
    if k == 0 then 0 else SlotsWork(s, k - 1) + SlotWork(ViewOf(s, k - 1))
  }

  ghost function Work(cfg: Config, s: State): nat
    requires |s.q.slots| == |s.sec| == cfg.n
  {
    WorkOf(s.tasks, s.tasks.Keys) + SlotsWork(s, cfg.n) + IsrWork(s.isr)
  }

  lemma {:induction false} WorkSplit(tasks: map<nat, Task>, among: set<nat>, t: nat)
    requires among <= tasks.Keys && t in among
    ensures WorkOf(tasks, among) == TaskWork(tasks[t]) + WorkOf(tasks, among - {t})
    decreases among
  {
    var u :| u in among && WorkOf(tasks, among) == TaskWork(tasks[u]) + WorkOf(tasks, among - {u});
    if u != t {
      WorkSplit(tasks, among - {u}, t);
      WorkSplit(tasks, among - {t}, u);
      assert among - {u} - {t} == among - {t} - {u};
    }
  }

  lemma {:induction false} WorkFrame(tasks: map<nat, Task>, tasks': map<nat, Task>, among: set<nat>)
    requires among <= tasks.Keys && among <= tasks'.Keys && forall t :: t in among ==> tasks'[t] == tasks[t]
    ensures WorkOf(tasks', among) == WorkOf(tasks, among)
    decreases among
  {
    if among != {} {
      var t :| t in among;
      WorkSplit(tasks, among, t);
      WorkSplit(tasks', among, t);
      WorkFrame(tasks, tasks', among - {t});
    }
  }

  ghost predicate OthersKept(s: State, s': State, n: nat, i: nat) {
    && |s.q.slots| == |s.sec| == |s'.q.slots| == |s'.sec| == n
    && forall j :: 0 <= j < n && j != i ==> ViewOf(s', j) == ViewOf(s, j)
  }

  lemma {:induction false} SlotsWorkChange(s: State, s': State, n: nat, i: nat, k: nat)
    requires OthersKept(s, s', n, i) && i < n && k <= n
    ensures SlotsWork(s', k) + (if i < k then SlotWork(ViewOf(s, i)) else 0)
         == SlotsWork(s, k) + (if i < k then SlotWork(ViewOf(s', i)) else 0)
    decreases k
  {
    if k > 0 {
      SlotsWorkChange(s, s', n, i, k - 1);
    }
  }

  // A task works on its slot.
  lemma TaskWorks(cfg: Config, s: State, s': State, t: nat, i: nat)
    requires OthersKept(s, s', cfg.n, i) && i < cfg.n && s'.isr == s.isr
    requires t in s.tasks && t in s'.tasks && s'.tasks.Keys == s.tasks.Keys
    requires forall u :: u in s.tasks && u != t ==> s'.tasks[u] == s.tasks[u]
    requires TaskWork(s'.tasks[t]) + SlotWork(ViewOf(s', i)) < TaskWork(s.tasks[t]) + SlotWork(ViewOf(s, i))
    ensures Work(cfg, s') < Work(cfg, s)
  {
    SlotsWorkChange(s, s', cfg.n, i, cfg.n);
    WorkSplit(s.tasks, s.tasks.Keys, t);
    WorkSplit(s'.tasks, s.tasks.Keys, t);
    WorkFrame(s.tasks, s'.tasks, s.tasks.Keys - {t});
  }

  // The interrupt or the secure core works on a slot.
  lemma OtherWorks(cfg: Config, s: State, s': State, i: nat)
    requires OthersKept(s, s', cfg.n, i) && i < cfg.n && s'.tasks == s.tasks
    requires SlotWork(ViewOf(s', i)) + IsrWork(s'.isr) < SlotWork(ViewOf(s, i)) + IsrWork(s.isr)
    ensures Work(cfg, s') < Work(cfg, s)
  {
    SlotsWorkChange(s, s', cfg.n, i, cfg.n);
  }

  // ---------------------------------------------------------------- every step but a new call does work

  // Not the start of another call, nor a reset of the statistics, nor an interrupt without a reply
  predicate Effective(s: State, ev: Event) {
    !ev.LockEv? && !ev.ResetEv? && (ev.IsrReadEv? ==> s.q.replied != 0)
  }

  // All of the invariant that matters here
  ghost predicate InRange(cfg: Config, s: State) {
    && |s.q.slots| == |s.sec| == cfg.n > 0 && IsrOk(cfg, s)
    && forall t :: t in s.tasks && s.tasks[t].HasSlot() ==> s.tasks[t].idx < cfg.n
  }

  lemma TaskStepWorks(cfg: Config, s: State, ev: Event)
    requires InRange(cfg, s) && Enabled(cfg, s, ev)
    requires ev.CountEv? || ev.AddUsedEv? || ev.FillEv? || ev.ObserveEv? || ev.FetchEv?
    ensures Work(cfg, Step(cfg, s, ev)) < Work(cfg, s)
  {
    TaskWorks(cfg, s, Step(cfg, s, ev), ev.t, s.tasks[ev.t].idx);
  }

  lemma AcquireWorks(cfg: Config, s: State, t: nat)
    requires InRange(cfg, s) && Enabled(cfg, s, AcquireEv(t))
    ensures Work(cfg, Step(cfg, s, AcquireEv(t))) < Work(cfg, s)
  {
    TaskWorks(cfg, s, Step(cfg, s, AcquireEv(t)), t, 0);
  }

  lemma PendWorks(cfg: Config, s: State, t: nat)
    requires InRange(cfg, s) && Enabled(cfg, s, PendEv(t))
    ensures Work(cfg, Step(cfg, s, PendEv(t))) < Work(cfg, s)
  {
    SetBitAll(s.q.pend, s.tasks[t].idx);
    TaskWorks(cfg, s, Step(cfg, s, PendEv(t)), t, s.tasks[t].idx);
  }

  lemma ReleaseWorks(cfg: Config, s: State, t: nat)
    requires InRange(cfg, s) && Enabled(cfg, s, ReleaseEv(t))
    ensures Work(cfg, Step(cfg, s, ReleaseEv(t))) < Work(cfg, s)
  {
    ClearBitAll(s.q.replied, s.tasks[t].idx);
    TaskWorks(cfg, s, Step(cfg, s, ReleaseEv(t)), t, s.tasks[t].idx);
  }

  lemma UnlockWorks(cfg: Config, s: State, t: nat, ok: bool)
    requires InRange(cfg, s) && Enabled(cfg, s, UnlockEv(t, ok))
    ensures Work(cfg, Step(cfg, s, UnlockEv(t, ok))) < Work(cfg, s)
  {
    var s' := Step(cfg, s, UnlockEv(t, ok));
    WorkSplit(s.tasks, s.tasks.Keys, t);
    assert s'.tasks.Keys == s.tasks.Keys - {t};
    WorkFrame(s.tasks, s'.tasks, s'.tasks.Keys);
    SlotsWorkChange(s, s', cfg.n, 0, cfg.n);
  }

  lemma SecureWorks(cfg: Config, s: State, ev: Event)
    requires InRange(cfg, s) && Enabled(cfg, s, ev)
    requires ev.SecTakeEv? || ev.SecWriteEv? || ev.SecReplyEv?
    ensures Work(cfg, Step(cfg, s, ev)) < Work(cfg, s)
  {
    ClearBitAll(s.q.pend, ev.i);
    SetBitAll(s.q.replied, ev.i);
    OtherWorks(cfg, s, Step(cfg, s, ev), ev.i);
  }

  lemma IsrReadWorks(cfg: Config, s: State)
    requires InRange(cfg, s) && Enabled(cfg, s, IsrReadEv) && s.q.replied != 0
    ensures Work(cfg, Step(cfg, s, IsrReadEv)) < Work(cfg, s)
  {
    OtherWorks(cfg, s, Step(cfg, s, IsrReadEv), 0);
  }

  lemma IsrWakeWorks(cfg: Config, s: State)
    requires InRange(cfg, s) && Enabled(cfg, s, IsrWakeEv)
    ensures Work(cfg, Step(cfg, s, IsrWakeEv)) < Work(cfg, s)
  {
    var i := LowestBit(s.isr.status, cfg.n);
    ClearBitAll(s.q.replied, i);
    OtherWorks(cfg, s, Step(cfg, s, IsrWakeEv), i);
  }

  lemma StepWorks(cfg: Config, s: State, ev: Event)
    requires InRange(cfg, s) && Enabled(cfg, s, ev) && Effective(s, ev)
    ensures |Step(cfg, s, ev).q.slots| == |Step(cfg, s, ev).sec| == cfg.n
    ensures Work(cfg, Step(cfg, s, ev)) < Work(cfg, s)
  {
    match ev
    case AcquireEv(t) => AcquireWorks(cfg, s, t);
    case PendEv(t) => PendWorks(cfg, s, t);
    case ReleaseEv(t) => ReleaseWorks(cfg, s, t);
    case UnlockEv(t, ok) => UnlockWorks(cfg, s, t, ok);
    case IsrReadEv => IsrReadWorks(cfg, s);
    case IsrWakeEv => IsrWakeWorks(cfg, s);
    case SecTakeEv(_) => SecureWorks(cfg, s, ev);
    case SecWriteEv(_, _) => SecureWorks(cfg, s, ev);
    case SecReplyEv(_) => SecureWorks(cfg, s, ev);
    case _ => TaskStepWorks(cfg, s, ev);
  }

  // ---------------------------------------------------------------- some party can act

  lemma IsrContinues(cfg: Config, s: State, i: nat) returns (ev: Event)
    requires cfg.Valid() && Inv(cfg, s) && cfg.multi && TestBit(s.q.replied, i)
    ensures Enabled(cfg, s, ev) && Effective(s, ev)
  {
    if s.isr.IsrIdle? {
      ZeroHasNoBits(i);
      ev := IsrReadEv;
    } else {
      var j := SomeBitSet(s.isr.status);
      assert j < cfg.n;
      ev := IsrWakeEv;
    }
  }

  lemma WaitingContinues(cfg: Config, s: State, t: nat) returns (ev: Event)
    requires cfg.Valid() && Inv(cfg, s) && t in s.tasks && s.tasks[t].Waiting?
    ensures Enabled(cfg, s, ev) && Effective(s, ev)
  {
    var i := s.tasks[t].idx;
    var v := ViewOf(s, i);
    if v.pend {
      ev := SecTakeEv(i);
    } else if v.sec.Took? {
      ev := SecWriteEv(i, 0);
    } else if v.sec.Wrote? {
      ev := SecReplyEv(i);
    } else if cfg.multi && !v.woken {
      ev := IsrContinues(cfg, s, i);
    } else {
      ev := ObserveEv(t);
    }
  }

  /** For every call in progress some party can act. */
  lemma CallContinues(cfg: Config, s: State, t: nat) returns (ev: Event)
    requires cfg.Valid() && Inv(cfg, s) && t in s.tasks
    ensures Enabled(cfg, s, ev) && Effective(s, ev)
  {
    match s.tasks[t]
    case Locked(_) => ev := AcquireEv(t);
    case Acquired(_, _) => ev := CountEv(t);
    case Counted(_, _, _) => ev := AddUsedEv(t);
    case Filling(_, _) => ev := FillEv(t, 0);
    case Filled(_, _) => ev := PendEv(t);
    case Waiting(_, _, _) => ev := WaitingContinues(cfg, s, t);
    case Ready(_, _, _) => ev := FetchEv(t);
    case Fetched(_, _, _, _) => ev := ReleaseEv(t);
    case Returned(_, _, _, _, _) => ev := UnlockEv(t, true);
    case QueueFull(_) => ev := UnlockEv(t, true);
  }

  // ---------------------------------------------------------------- every call completes

  // From s on, the parties act in the order of these events, and no call starts.
  ghost predicate Schedule(cfg: Config, s: State, evs: seq<Event>)
    decreases |evs|
  {
    evs == [] ||
    (&& |s.q.slots| == |s.sec| == cfg.n
     && Enabled(cfg, s, evs[0]) && Effective(s, evs[0])
     && Schedule(cfg, Step(cfg, s, evs[0]), evs[1..]))
  }

  ghost function After(cfg: Config, s: State, evs: seq<Event>): State
    requires Schedule(cfg, s, evs)
    decreases |evs|
  {
    if evs == [] then s else After(cfg, Step(cfg, s, evs[0]), evs[1..])
  }

  ghost predicate Stuck(cfg: Config, s: State) {
    |s.q.slots| == |s.sec| == cfg.n && forall ev :: Enabled(cfg, s, ev) ==> !Effective(s, ev)
  }

  lemma {:induction false} ScheduleEnds(cfg: Config, s: State, evs: seq<Event>)
    requires cfg.Valid() && Inv(cfg, s) && Schedule(cfg, s, evs)
    ensures |evs| <= Work(cfg, s)
    ensures Inv(cfg, After(cfg, s, evs))
    decreases |evs|
  {
    if evs != [] {
      StepWorks(cfg, s, evs[0]);
      StepKeepsInv(cfg, s, evs[0]);
      ScheduleEnds(cfg, Step(cfg, s, evs[0]), evs[1..]);
    }
  }

  /** From any point of any run, if no call starts any more, the parties can take only boundedly many steps,
      in whatever order, and when none of them can act all calls have completed. */
  lemma EveryCallCompletes(cfg: Config, trace: seq<Event>, evs: seq<Event>)
    requires cfg.Valid() && Run(cfg, trace).Some? && Schedule(cfg, Run(cfg, trace).value, evs)
    ensures var s := Run(cfg, trace).value;
            && |s.q.slots| == |s.sec| == cfg.n && |evs| <= Work(cfg, s)
            && (Stuck(cfg, After(cfg, s, evs)) ==> After(cfg, s, evs).tasks == map[])
  {
    RunKeepsInv(cfg, trace);
    var s := Run(cfg, trace).value;
    ScheduleEnds(cfg, s, evs);
    var d := After(cfg, s, evs);
    if Stuck(cfg, d) && d.tasks != map[] {
      var t :| t in d.tasks;
      var ev := CallContinues(cfg, d, t);
      assert false;
    }
  }
}
