/**
  What holds of the mailbox in every interleaving.
*/
module MailboxProofs {
  import opened BitMasks
  import opened MailboxModel
  import opened Words

  // ---------------------------------------------------------------- one slot

  // Everything the parties can see of one slot
  datatype View = View(pend: bool, replied: bool, woken: bool, msg: Msg, reply: int, sec: Secure)

  function ViewOf(s: State, i: nat): View
    requires i < |s.q.slots| && i < |s.sec|
  {
    View(TestBit(s.q.pend, i), TestBit(s.q.replied, i), s.q.slots[i].woken, s.q.slots[i].msg, s.q.slots[i].reply, s.sec[i])
  }

  // What the secure core has finished on slot i since the log had length `since`
  function Since(log: seq<Handled>, since: nat, i: nat): seq<Handled> {
    if |log| <= since then []
    else
      var e := log[|log| - 1];
      Since(log[..|log| - 1], since, i) + if e.slot == i then [e] else []
  }

  lemma SinceGrows(log: seq<Handled>, e: Handled, since: nat, i: nat)
    requires since <= |log|
    ensures Since(log + [e], since, i) == Since(log, since, i) + if e.slot == i then [e] else []
  {
    assert (log + [e])[..|log|] == log;
  }

  lemma SinceNow(log: seq<Handled>, i: nat)
    ensures Since(log, |log|, i) == []
  {
  }

  predicate Quiet(v: View) { !v.pend && !v.replied && !v.woken && v.sec.Rest? }

  predicate Pending(v: View) { v.pend && !v.replied && !v.woken && v.sec.Rest? }

  predicate AtSecureCore(v: View, msg: Msg) {
    && !v.pend && !v.replied && !v.woken
    && (v.sec == Took(msg) || v.sec == Wrote(msg, v.reply))
  }

  predicate HasReply(v: View) { !v.pend && v.sec.Rest? && v.replied != v.woken }

  // The one request handled on slot i since then is this one.
  ghost predicate Answered(log: seq<Handled>, since: nat, i: nat, msg: Msg, reply: int) {
    since <= |log| && Since(log, since, i) == [Handled(i, msg, reply)]
  }

  // The slot of a call, at each point of the call
  ghost predicate SlotOk(multi: bool, v: View, k: Task, log: seq<Handled>)
    requires k.HasSlot()
  {
    match k
    case Waiting(msg, i, since) =>
      && v.msg == msg && since <= |log|
      && (|| (Pending(v) && Since(log, since, i) == [])
          || (AtSecureCore(v, msg) && Since(log, since, i) == [])
          || (HasReply(v) && (v.woken ==> multi) && Answered(log, since, i, msg, v.reply)))
    case Ready(msg, i, since) => v.msg == msg && HasReply(v) && v.woken == multi && Answered(log, since, i, msg, v.reply)
    case Fetched(msg, i, since, r) =>
      v.msg == msg && HasReply(v) && v.woken == multi && v.reply == r && Answered(log, since, i, msg, r)
    case Filled(msg, _) => v.msg == msg && Quiet(v)
    case _ => Quiet(v)
  }

  // ---------------------------------------------------------------- the whole queue

  ghost predicate Shape(cfg: Config, s: State) {
    && |s.q.slots| == |s.sec| == cfg.n
    && Within(s.q.empty, cfg.n) && Within(s.q.pend, cfg.n) && Within(s.q.replied, cfg.n)
  }

  function Owns(k: Task, i: nat): bool { k.HasSlot() && k.idx == i }

  // Every slot in use belongs to exactly one call in progress, the others are marked empty.
  ghost predicate Ownership(cfg: Config, empty: nat, tasks: map<nat, Task>) {
    && (forall t :: t in tasks && tasks[t].HasSlot() ==> tasks[t].idx < cfg.n && !TestBit(empty, tasks[t].idx))
    && (forall t, u :: t in tasks && u in tasks && t != u && tasks[t].HasSlot() && tasks[u].HasSlot() ==> tasks[t].idx != tasks[u].idx)
    && (forall i :: 0 <= i < cfg.n && !TestBit(empty, i) ==> exists t :: t in tasks && Owns(tasks[t], i))
  }

  ghost predicate SlotsOk(cfg: Config, s: State)
    requires |s.q.slots| == |s.sec| == cfg.n
  {
    && (forall t :: t in s.tasks && s.tasks[t].HasSlot() ==>
          s.tasks[t].idx < cfg.n && SlotOk(cfg.multi, ViewOf(s, s.tasks[t].idx), s.tasks[t], s.log))
    && (forall i :: 0 <= i < cfg.n && TestBit(s.q.empty, i) ==> Quiet(ViewOf(s, i)))
  }

  // A finished call holds the reply to its own message.
  ghost predicate ResultsOk(s: State) {
    forall t :: t in s.tasks && s.tasks[t].Returned? ==>
      var k := s.tasks[t];
      k.until <= |s.log| && Answered(s.log[..k.until], k.since, k.from, k.msg, k.reply)
  }

  // The interrupt holds the status of slots that still await it.
  ghost predicate IsrOk(cfg: Config, s: State) {
    s.isr.IsrGot? ==> cfg.multi && s.isr.status != 0 && forall i: nat :: TestBit(s.isr.status, i) ==> TestBit(s.q.replied, i)
  }

  ghost predicate Inv(cfg: Config, s: State) {
    && Shape(cfg, s)
    && s.sem + |s.tasks| <= cfg.n
    && Ownership(cfg, s.q.empty, s.tasks)
    && SlotsOk(cfg, s)
    && ResultsOk(s)
    && IsrOk(cfg, s)
  }

  // ---------------------------------------------------------------- steps that touch one slot

  // s' differs from s in slot i at most, and in the task t, which keeps its slot i.
  ghost predicate OnlySlot(cfg: Config, s: State, s': State, i: nat) {
    && Shape(cfg, s) && Shape(cfg, s') && i < cfg.n
    && s'.q.empty == s.q.empty && s'.sem == s.sem
    && (forall j :: 0 <= j < cfg.n && j != i ==> ViewOf(s', j) == ViewOf(s, j))
  }

  ghost predicate OnlyTask(s: State, s': State, t: nat) {
    && t in s.tasks && s'.tasks.Keys == s.tasks.Keys && s'.log == s.log
    && (forall u :: u in s.tasks && u != t ==> s'.tasks[u] == s.tasks[u])
  }

  // A task works on its own slot.
  lemma TaskStep(cfg: Config, s: State, s': State, t: nat, i: nat)
    requires Inv(cfg, s) && OnlySlot(cfg, s, s', i) && OnlyTask(s, s', t)
    requires Owns(s.tasks[t], i) && Owns(s'.tasks[t], i)
    requires SlotOk(cfg.multi, ViewOf(s', i), s'.tasks[t], s'.log)
    requires IsrOk(cfg, s')
    ensures Inv(cfg, s')
  {
    TaskKeepsOwnership(cfg, s.q.empty, s.tasks, s'.tasks, t, i);
    TaskKeepsSlots(cfg, s, s', t, i);
  }

  lemma TaskKeepsSlots(cfg: Config, s: State, s': State, t: nat, i: nat)
    requires OnlySlot(cfg, s, s', i) && OnlyTask(s, s', t) && Ownership(cfg, s.q.empty, s.tasks) && SlotsOk(cfg, s)
    requires Owns(s.tasks[t], i) && Owns(s'.tasks[t], i)
    requires SlotOk(cfg.multi, ViewOf(s', i), s'.tasks[t], s'.log)
    ensures SlotsOk(cfg, s')
  {
  }

  lemma TaskKeepsOwnership(cfg: Config, empty: nat, tasks: map<nat, Task>, tasks': map<nat, Task>, t: nat, i: nat)
    requires Ownership(cfg, empty, tasks) && t in tasks && tasks'.Keys == tasks.Keys
    requires forall u :: u in tasks && u != t ==> tasks'[u] == tasks[u]
    requires Owns(tasks[t], i) && Owns(tasks'[t], i)
    ensures Ownership(cfg, empty, tasks')
    ensures |tasks'| == |tasks|
  {
    assert |tasks'.Keys| == |tasks.Keys|;
    forall j | 0 <= j < cfg.n && !TestBit(empty, j) ensures exists u :: u in tasks' && Owns(tasks'[u], j) {
      var u :| u in tasks && Owns(tasks[u], j);
      assert u in tasks' && Owns(tasks'[u], j);
    }
  }

  // The interrupt or the secure core works on a slot whose task t waits.
  lemma OtherStep(cfg: Config, s: State, s': State, t: nat, i: nat)
    requires Inv(cfg, s) && OnlySlot(cfg, s, s', i) && s'.tasks == s.tasks
    requires t in s.tasks && Owns(s.tasks[t], i) && SlotOk(cfg.multi, ViewOf(s', i), s.tasks[t], s'.log)
    requires s'.log == s.log || exists e: Handled :: e.slot == i && s'.log == s.log + [e]
    requires IsrOk(cfg, s')
    ensures Inv(cfg, s')
  {
    forall u | u in s.tasks && s.tasks[u].HasSlot() && u != t
      ensures SlotOk(cfg.multi, ViewOf(s', s.tasks[u].idx), s.tasks[u], s'.log)
    {
      LogKeepsSlot(cfg, s, s', i, u);
    }
    ResultsKept(s, s');
  }

  lemma LogKeepsSlot(cfg: Config, s: State, s': State, i: nat, u: nat)
    requires Inv(cfg, s) && OnlySlot(cfg, s, s', i) && s'.tasks == s.tasks
    requires u in s.tasks && s.tasks[u].HasSlot() && s.tasks[u].idx != i
    requires s'.log == s.log || exists e: Handled :: e.slot == i && s'.log == s.log + [e]
    ensures SlotOk(cfg.multi, ViewOf(s', s.tasks[u].idx), s.tasks[u], s'.log)
  {
    var k := s.tasks[u];
    if s'.log != s.log && (k.Waiting? || k.Ready? || k.Fetched?) {
      var e: Handled :| e.slot == i && s'.log == s.log + [e];
      SinceGrows(s.log, e, k.since, k.idx);
      assert Since(s.log, k.since, k.idx) + [] == Since(s.log, k.since, k.idx);
    }
  }

  lemma ResultsKept(s: State, s': State)
    requires ResultsOk(s) && s'.tasks == s.tasks && s.log <= s'.log
    ensures ResultsOk(s')
  {
    forall t | t in s.tasks && s.tasks[t].Returned? ensures s'.log[..s.tasks[t].until] == s.log[..s.tasks[t].until] {
    }
  }

  lemma SetBitAll(m: nat, i: nat)
    ensures forall j: nat :: TestBit(SetBit(m, i), j) <==> i == j || TestBit(m, j)
  {
    forall j: nat ensures TestBit(SetBit(m, i), j) <==> i == j || TestBit(m, j) {
      TestSetBit(m, i, j);
    }
  }

  lemma ClearBitAll(m: nat, i: nat)
    ensures forall j: nat :: TestBit(ClearBit(m, i), j) <==> i != j && TestBit(m, j)
  {
    forall j: nat ensures TestBit(ClearBit(m, i), j) <==> i != j && TestBit(m, j) {
      TestClearBit(m, i, j);
    }
  }

  // ---------------------------------------------------------------- the client's own steps

  lemma StatsKeepInv(cfg: Config, s: State, ev: Event)
    requires cfg.Valid() && Inv(cfg, s) && (ev.CountEv? || ev.AddUsedEv?) && Enabled(cfg, s, ev)
    ensures Inv(cfg, Step(cfg, s, ev))
  {
    TaskStep(cfg, s, Step(cfg, s, ev), ev.t, s.tasks[ev.t].idx);
  }

  lemma FillKeepsInv(cfg: Config, s: State, t: nat, owner: nat)
    requires cfg.Valid() && Inv(cfg, s) && Enabled(cfg, s, FillEv(t, owner))
    ensures Inv(cfg, Step(cfg, s, FillEv(t, owner)))
  {
    TaskStep(cfg, s, Step(cfg, s, FillEv(t, owner)), t, s.tasks[t].idx);
  }

  lemma PendKeepsInv(cfg: Config, s: State, t: nat)
    requires cfg.Valid() && Inv(cfg, s) && Enabled(cfg, s, PendEv(t))
    ensures Inv(cfg, Step(cfg, s, PendEv(t)))
  {
    var i := s.tasks[t].idx;
    SetBitAll(s.q.pend, i);
    SinceNow(s.log, i);
    TaskStep(cfg, s, Step(cfg, s, PendEv(t)), t, i);
  }

  lemma ObserveKeepsInv(cfg: Config, s: State, t: nat)
    requires cfg.Valid() && Inv(cfg, s) && Enabled(cfg, s, ObserveEv(t))
    ensures Inv(cfg, Step(cfg, s, ObserveEv(t)))
  {
    TaskStep(cfg, s, Step(cfg, s, ObserveEv(t)), t, s.tasks[t].idx);
  }

  lemma FetchKeepsInv(cfg: Config, s: State, t: nat)
    requires cfg.Valid() && Inv(cfg, s) && Enabled(cfg, s, FetchEv(t))
    ensures Inv(cfg, Step(cfg, s, FetchEv(t)))
  {
    TaskStep(cfg, s, Step(cfg, s, FetchEv(t)), t, s.tasks[t].idx);
  }

  // ---------------------------------------------------------------- the other parties' steps

  // A slot with something going on belongs to a task.
  lemma OwnerOf(cfg: Config, s: State, i: nat) returns (t: nat)
    requires Inv(cfg, s) && i < cfg.n && !Quiet(ViewOf(s, i))
    ensures t in s.tasks && Owns(s.tasks[t], i) && SlotOk(cfg.multi, ViewOf(s, i), s.tasks[t], s.log)
    ensures s.tasks[t].Waiting? || s.tasks[t].Ready? || s.tasks[t].Fetched?
  {
    assert !TestBit(s.q.empty, i);
    t :| t in s.tasks && Owns(s.tasks[t], i);
  }

  lemma SecTakeKeepsInv(cfg: Config, s: State, i: nat)
    requires cfg.Valid() && Inv(cfg, s) && Enabled(cfg, s, SecTakeEv(i))
    ensures Inv(cfg, Step(cfg, s, SecTakeEv(i)))
  {
    var t := OwnerOf(cfg, s, i);
    ClearBitAll(s.q.pend, i);
    OtherStep(cfg, s, Step(cfg, s, SecTakeEv(i)), t, i);
  }

  lemma SecWriteKeepsInv(cfg: Config, s: State, i: nat, v: int)
    requires cfg.Valid() && Inv(cfg, s) && Enabled(cfg, s, SecWriteEv(i, v))
    ensures Inv(cfg, Step(cfg, s, SecWriteEv(i, v)))
  {
    var t := OwnerOf(cfg, s, i);
    OtherStep(cfg, s, Step(cfg, s, SecWriteEv(i, v)), t, i);
  }

  lemma SecReplyKeepsInv(cfg: Config, s: State, i: nat)
    requires cfg.Valid() && Inv(cfg, s) && Enabled(cfg, s, SecReplyEv(i))
    ensures Inv(cfg, Step(cfg, s, SecReplyEv(i)))
  {
    var t := OwnerOf(cfg, s, i);
    var e := Handled(i, s.sec[i].msg, s.sec[i].reply);
    SetBitAll(s.q.replied, i);
    SinceGrows(s.log, e, s.tasks[t].since, i);
    OtherStep(cfg, s, Step(cfg, s, SecReplyEv(i)), t, i);
  }

  lemma IsrReadKeepsInv(cfg: Config, s: State)
    requires cfg.Valid() && Inv(cfg, s) && Enabled(cfg, s, IsrReadEv)
    ensures Inv(cfg, Step(cfg, s, IsrReadEv))
  {
  }

  lemma IsrWakeKeepsInv(cfg: Config, s: State)
    requires cfg.Valid() && Inv(cfg, s) && Enabled(cfg, s, IsrWakeEv)
    ensures Inv(cfg, Step(cfg, s, IsrWakeEv))
  {
    var i := LowestBit(s.isr.status, cfg.n);
    assert TestBit(s.q.replied, i);
    var t := OwnerOf(cfg, s, i);
    ClearBitAll(s.q.replied, i);
    OtherStep(cfg, s, Step(cfg, s, IsrWakeEv), t, i);
  }

  // ---------------------------------------------------------------- the semaphore keeps the queue from filling up

  // The slots owned by some of the tasks
  function SlotsOf(tasks: map<nat, Task>, among: set<nat>): set<nat>
    requires among <= tasks.Keys
  {
    set t | t in among && tasks[t].HasSlot() :: tasks[t].idx
  }

  lemma {:induction false} FewSlots(tasks: map<nat, Task>, among: set<nat>)
    requires among <= tasks.Keys
    ensures |SlotsOf(tasks, among)| <= |among|
    decreases among
  {
    if among != {} {
      var t :| t in among;
      var rest := among - {t};
      FewSlots(tasks, rest);
      var one := if tasks[t].HasSlot() then {tasks[t].idx} else {};
      assert SlotsOf(tasks, among) == SlotsOf(tasks, rest) + one;
    }
  }

  function Range(n: nat): (r: set<nat>)
    ensures |r| == n && forall i :: i in r <==> 0 <= i < n
  {
    if n == 0 then {} else Range(n - 1) + {n - 1}
  }

  lemma SomethingMissing(a: set<nat>, b: set<nat>) returns (x: nat)
    requires |a| < |b|
    ensures x in b && x !in a
  {
    assert b <= a ==> a == b + (a - b);
    x :| x in b && x !in a;
  }

  // A task without a slot leaves one for itself.
  lemma SomeSlotEmpty(cfg: Config, empty: nat, tasks: map<nat, Task>, t: nat) returns (i: nat)
    requires Ownership(cfg, empty, tasks) && |tasks| <= cfg.n && t in tasks && !tasks[t].HasSlot()
    ensures i < cfg.n && TestBit(empty, i)
  {
    var others := tasks.Keys - {t};
    assert tasks.Keys == others + {t};
    FewSlots(tasks, others);
    i := SomethingMissing(SlotsOf(tasks, others), Range(cfg.n));
    assert !TestBit(empty, i) ==> exists u :: u in tasks && Owns(tasks[u], i);
    assert forall u :: u in tasks && Owns(tasks[u], i) ==> u in others;
  }

  /** A call that holds the semaphore and no slot yet finds an empty one: fewer slots are in use than the
      semaphore has holders. */
  lemma NotFull(cfg: Config, s: State, t: nat)
    requires cfg.Valid() && Inv(cfg, s) && t in s.tasks && !s.tasks[t].HasSlot()
    ensures s.q.empty != 0 && LowestBit(s.q.empty, cfg.n) < cfg.n
  {
    var i := SomeSlotEmpty(cfg, s.q.empty, s.tasks, t);
    ZeroHasNoBits(i);
  }

  lemma AcquireKeepsOwnership(cfg: Config, empty: nat, tasks: map<nat, Task>, t: nat, idx: nat)
    requires Ownership(cfg, empty, tasks) && t in tasks && !tasks[t].HasSlot() && idx < cfg.n && TestBit(empty, idx)
    ensures Ownership(cfg, ClearBit(empty, idx), tasks[t := Acquired(tasks[t].msg, idx)])
  {
    ClearBitAll(empty, idx);
    var tasks' := tasks[t := Acquired(tasks[t].msg, idx)];
    forall j | 0 <= j < cfg.n && !TestBit(ClearBit(empty, idx), j) ensures exists u :: u in tasks' && Owns(tasks'[u], j) {
      if j == idx {
        assert t in tasks' && Owns(tasks'[t], j);
      } else {
        var u :| u in tasks && Owns(tasks[u], j);
        assert u in tasks' && Owns(tasks'[u], j);
      }
    }
  }

  lemma AcquireKeepsInv(cfg: Config, s: State, t: nat)
    requires cfg.Valid() && Inv(cfg, s) && Enabled(cfg, s, AcquireEv(t))
    ensures Inv(cfg, Step(cfg, s, AcquireEv(t)))
  {
    NotFull(cfg, s, t);
    var idx := LowestBit(s.q.empty, cfg.n);
    var s' := Step(cfg, s, AcquireEv(t));
    AcquireKeepsOwnership(cfg, s.q.empty, s.tasks, t, idx);
    ClearBitAll(s.q.empty, idx);
    TasksSame(s.tasks, t, s'.tasks[t]);
    AcquireKeepsSlots(cfg, s, s', t, idx);
  }

  lemma TasksSame(tasks: map<nat, Task>, t: nat, k: Task)
    requires t in tasks
    ensures |tasks[t := k]| == |tasks|
  {
    assert tasks[t := k].Keys == tasks.Keys;
  }

  lemma AcquireKeepsSlots(cfg: Config, s: State, s': State, t: nat, idx: nat)
    requires Shape(cfg, s) && SlotsOk(cfg, s) && t in s.tasks && idx < cfg.n && TestBit(s.q.empty, idx)
    requires s' == s.(q := s.q.(empty := s'.q.empty), tasks := s.tasks[t := Acquired(s.tasks[t].msg, idx)])
    requires forall j: nat :: TestBit(s'.q.empty, j) ==> TestBit(s.q.empty, j)
    ensures SlotsOk(cfg, s')
  {
    assert forall j :: 0 <= j < cfg.n ==> ViewOf(s', j) == ViewOf(s, j);
  }

  lemma ReleaseKeepsOwnership(cfg: Config, empty: nat, tasks: map<nat, Task>, t: nat, k: Task)
    requires Ownership(cfg, empty, tasks) && t in tasks && tasks[t].HasSlot() && !k.HasSlot()
    ensures Ownership(cfg, SetBit(empty, tasks[t].idx), tasks[t := k])
  {
    SetBitAll(empty, tasks[t].idx);
    var tasks' := tasks[t := k];
    forall j | 0 <= j < cfg.n && !TestBit(SetBit(empty, tasks[t].idx), j) ensures exists u :: u in tasks' && Owns(tasks'[u], j) {
      var u :| u in tasks && Owns(tasks[u], j);
      assert u in tasks' && Owns(tasks'[u], j);
    }
  }

  lemma ReleaseKeepsSlots(cfg: Config, s: State, t: nat)
    requires cfg.Valid() && Inv(cfg, s) && Enabled(cfg, s, ReleaseEv(t))
    ensures Shape(cfg, Step(cfg, s, ReleaseEv(t))) && SlotsOk(cfg, Step(cfg, s, ReleaseEv(t)))
  {
    ReleaseViews(cfg, s, t);
    SetBitAll(s.q.empty, s.tasks[t].idx);
    ReleasedSlots(cfg, s, Step(cfg, s, ReleaseEv(t)), t, s.tasks[t].idx);
  }

  lemma ReleasedSlots(cfg: Config, s: State, s': State, t: nat, i: nat)
    requires Shape(cfg, s) && Shape(cfg, s') && Ownership(cfg, s.q.empty, s.tasks) && SlotsOk(cfg, s)
    requires t in s.tasks && Owns(s.tasks[t], i) && i < cfg.n && Quiet(ViewOf(s', i))
    requires forall j :: 0 <= j < cfg.n && j != i ==> ViewOf(s', j) == ViewOf(s, j)
    requires forall j: nat :: TestBit(s'.q.empty, j) ==> i == j || TestBit(s.q.empty, j)
    requires s'.log == s.log && t in s'.tasks && !s'.tasks[t].HasSlot()
    requires forall u :: u in s'.tasks && u != t ==> u in s.tasks && s'.tasks[u] == s.tasks[u]
    ensures SlotsOk(cfg, s')
  {
  }

  // The slot released becomes quiet, the others do not change.
  lemma ReleaseViews(cfg: Config, s: State, t: nat)
    requires cfg.Valid() && Inv(cfg, s) && Enabled(cfg, s, ReleaseEv(t))
    ensures var i, s' := s.tasks[t].idx, Step(cfg, s, ReleaseEv(t));
            && Shape(cfg, s') && i < cfg.n && Quiet(ViewOf(s', i))
            && forall j :: 0 <= j < cfg.n && j != i ==> ViewOf(s', j) == ViewOf(s, j)
  {
    SetBitAll(s.q.empty, s.tasks[t].idx);
    ClearBitAll(s.q.replied, s.tasks[t].idx);
  }

  lemma ReleaseKeepsInv(cfg: Config, s: State, t: nat)
    requires cfg.Valid() && Inv(cfg, s) && Enabled(cfg, s, ReleaseEv(t))
    ensures Inv(cfg, Step(cfg, s, ReleaseEv(t)))
  {
    var s' := Step(cfg, s, ReleaseEv(t));
    ReleaseKeepsSlots(cfg, s, t);
    ReleaseKeepsOwnership(cfg, s.q.empty, s.tasks, t, s'.tasks[t]);
    assert s'.tasks.Keys == s.tasks.Keys;
    assert |s'.tasks| == |s.tasks|;
    assert s.log[..|s.log|] == s.log;
    assert ResultsOk(s');
    assert IsrOk(cfg, s') by { ClearBitAll(s.q.replied, s.tasks[t].idx); }
  }

  // A task without a slot comes or goes; nothing else changes.
  lemma TasksStep(cfg: Config, s: State, s': State)
    requires Inv(cfg, s) && s'.q == s.q && s'.sec == s.sec && s'.log == s.log && s'.isr == s.isr
    requires s'.sem + |s'.tasks| <= cfg.n
    requires forall t :: t in s'.tasks && (s'.tasks[t].HasSlot() || s'.tasks[t].Returned?) ==> t in s.tasks && s.tasks[t] == s'.tasks[t]
    requires forall t :: t in s.tasks && s.tasks[t].HasSlot() ==> t in s'.tasks && s'.tasks[t] == s.tasks[t]
    ensures Inv(cfg, s')
  {
    forall j | 0 <= j < cfg.n && !TestBit(s.q.empty, j) ensures exists u :: u in s'.tasks && Owns(s'.tasks[u], j) {
      var u :| u in s.tasks && Owns(s.tasks[u], j);
      assert u in s'.tasks && Owns(s'.tasks[u], j);
    }
    assert forall j :: 0 <= j < cfg.n ==> ViewOf(s', j) == ViewOf(s, j);
  }

  lemma TasksWith(tasks: map<nat, Task>, t: nat, k: Task)
    requires t !in tasks
    ensures |tasks[t := k]| == |tasks| + 1
  {
    assert tasks[t := k].Keys == tasks.Keys + {t};
  }

  lemma TasksWithout(tasks: map<nat, Task>, t: nat)
    requires t in tasks
    ensures |tasks - {t}| == |tasks| - 1
  {
    assert tasks.Keys == (tasks - {t}).Keys + {t};
  }

  lemma LockKeepsInv(cfg: Config, s: State, t: nat, msg: Msg)
    requires cfg.Valid() && Inv(cfg, s) && Enabled(cfg, s, LockEv(t, msg))
    ensures Inv(cfg, Step(cfg, s, LockEv(t, msg)))
  {
    TasksWith(s.tasks, t, Locked(msg));
    TasksStep(cfg, s, Step(cfg, s, LockEv(t, msg)));
  }

  lemma UnlockKeepsInv(cfg: Config, s: State, t: nat, ok: bool)
    requires cfg.Valid() && Inv(cfg, s) && Enabled(cfg, s, UnlockEv(t, ok))
    ensures Inv(cfg, Step(cfg, s, UnlockEv(t, ok)))
  {
    TasksWithout(s.tasks, t);
    TasksStep(cfg, s, Step(cfg, s, UnlockEv(t, ok)));
  }

  lemma ResetKeepsInv(cfg: Config, s: State)
    requires cfg.Valid() && Inv(cfg, s)
    ensures Inv(cfg, Step(cfg, s, ResetEv))
  {
    var s' := Step(cfg, s, ResetEv);
    assert forall j :: 0 <= j < cfg.n ==> ViewOf(s', j) == ViewOf(s, j);
  }

  // ---------------------------------------------------------------- every run

  lemma InitialMasks(n: nat, ones: nat)
    requires ones == Pow2(n) - 1
    ensures forall i: nat :: TestBit(ones, i) <==> i < n
    ensures forall i: nat :: !TestBit(0, i)
  {
    forall i: nat ensures TestBit(ones, i) <==> i < n {
      OnesBits(n, i);
    }
    forall i: nat ensures !TestBit(0, i) {
      ZeroHasNoBits(i);
    }
  }

  lemma InitialInv(cfg: Config)
    requires cfg.Valid()
    ensures Inv(cfg, Initial(cfg))
  {
    var s := Initial(cfg);
    InitialEmpty(cfg.n);
    InitialMasks(cfg.n, s.q.empty);
    assert Shape(cfg, s) && Ownership(cfg, s.q.empty, s.tasks) && SlotsOk(cfg, s);
  }

  lemma InitialEmpty(n: nat)
    requires 1 <= n <= 32
    ensures InitialQueue(n).empty == Pow2(n) - 1
  {
    Pow2Word(n);
  }

  // The mask of up to 32 slots fits its 32 bits.
  lemma Pow2Word(n: nat)
    requires 1 <= n <= 32
    ensures (Pow2(n - 1) - 1) + Pow2(n - 1) == Pow2(n) - 1 < TWO_32
    ensures ((Pow2(n - 1) - 1) + Pow2(n - 1)) % TWO_32 == Pow2(n) - 1
  {
    assert Pow2(8) == 0x100 && Pow2(16) == 0x1_0000 && Pow2(24) == 0x100_0000 && Pow2(32) == TWO_32;
    Pow2Monotone(n, 32);
  }

  lemma {:induction false} Pow2Monotone(a: nat, b: nat)
    requires a <= b
    ensures Pow2(a) <= Pow2(b)
    decreases b
  {
    if a < b {
      Pow2Monotone(a, b - 1);
    }
  }

  lemma StepKeepsInv(cfg: Config, s: State, ev: Event)
    requires cfg.Valid() && Inv(cfg, s) && Enabled(cfg, s, ev)
    ensures Inv(cfg, Step(cfg, s, ev))
  {
    match ev
    case LockEv(t, msg) => LockKeepsInv(cfg, s, t, msg);
    case AcquireEv(t) => AcquireKeepsInv(cfg, s, t);
    case CountEv(t) => StatsKeepInv(cfg, s, ev);
    case AddUsedEv(t) => StatsKeepInv(cfg, s, ev);
    case FillEv(t, owner) => FillKeepsInv(cfg, s, t, owner);
    case PendEv(t) => PendKeepsInv(cfg, s, t);
    case ObserveEv(t) => ObserveKeepsInv(cfg, s, t);
    case FetchEv(t) => FetchKeepsInv(cfg, s, t);
    case ReleaseEv(t) => ReleaseKeepsInv(cfg, s, t);
    case UnlockEv(t, ok) => UnlockKeepsInv(cfg, s, t, ok);
    case IsrReadEv => IsrReadKeepsInv(cfg, s);
    case IsrWakeEv => IsrWakeKeepsInv(cfg, s);
    case SecTakeEv(i) => SecTakeKeepsInv(cfg, s, i);
    case SecWriteEv(i, v) => SecWriteKeepsInv(cfg, s, i, v);
    case SecReplyEv(i) => SecReplyKeepsInv(cfg, s, i);
    case ResetEv => ResetKeepsInv(cfg, s);
  }

  lemma {:induction false} RunKeepsInv(cfg: Config, trace: seq<Event>)
    requires cfg.Valid() && Run(cfg, trace).Some?
    ensures Inv(cfg, Run(cfg, trace).value)
  {
    if trace == [] {
      InitialInv(cfg);
    } else {
      RunKeepsInv(cfg, trace[..|trace| - 1]);
      StepKeepsInv(cfg, Run(cfg, trace[..|trace| - 1]).value, trace[|trace| - 1]);
    }
  }

  // ---------------------------------------------------------------- what every interleaving guarantees

  datatype Phase = Empty | BeingFilled | PendingAtQueue | AtSecure | Replied | Woken

  // The phase of a slot, read off the three masks, the woken flag and the secure core
  function PhaseOf(s: State, i: nat): Phase
    requires i < |s.q.slots| && i < |s.sec|
  {
    var v := ViewOf(s, i);
    if TestBit(s.q.empty, i) then Empty
    else if v.pend then PendingAtQueue
    else if v.replied then Replied
    else if v.woken then Woken
    else if !v.sec.Rest? then AtSecure
    else BeingFilled
  }

  // No two of the marks are present at once: masks disjoint, woken and secure work exclusive.
  ghost predicate OnePhase(s: State, i: nat)
    requires i < |s.q.slots| && i < |s.sec|
  {
    var v := ViewOf(s, i);
    && !(TestBit(s.q.empty, i) && (v.pend || v.replied || v.woken || !v.sec.Rest?))
    && !(v.pend && (v.replied || v.woken || !v.sec.Rest?))
    && !(v.replied && (v.woken || !v.sec.Rest?))
    && !(v.woken && !v.sec.Rest?)
  }

  /** In every interleaving each slot is in exactly one phase, the masks stay within the slots and pairwise
      disjoint, and every slot that is not empty belongs to exactly one call in progress. */
  lemma EachSlotOnePhase(cfg: Config, trace: seq<Event>, i: nat)
    requires cfg.Valid() && Run(cfg, trace).Some? && i < cfg.n
    ensures var s := Run(cfg, trace).value;
            && |s.q.slots| == |s.sec| == cfg.n && OnePhase(s, i)
            && Within(s.q.empty, cfg.n) && Within(s.q.pend, cfg.n) && Within(s.q.replied, cfg.n)
            && (PhaseOf(s, i) == Empty <==> !exists t :: t in s.tasks && Owns(s.tasks[t], i))
            && (forall t, u :: t in s.tasks && u in s.tasks && Owns(s.tasks[t], i) && Owns(s.tasks[u], i) ==> t == u)
  {
    RunKeepsInv(cfg, trace);
    var s := Run(cfg, trace).value;
    SlotHasOnePhase(cfg, s, i);
  }

  lemma SlotHasOnePhase(cfg: Config, s: State, i: nat)
    requires Inv(cfg, s) && i < cfg.n
    ensures OnePhase(s, i)
  {
    if !TestBit(s.q.empty, i) {
      var t :| t in s.tasks && Owns(s.tasks[t], i);
      assert SlotOk(cfg.multi, ViewOf(s, i), s.tasks[t], s.log);
    }
  }

  /** Every call returns the reply to its own message: since it pended that message, the secure core
      finished exactly one request on the call's slot, that request was this message, and the reply it
      wrote is the one the call returns. */
  lemma EveryCallGetsItsReply(cfg: Config, trace: seq<Event>, t: nat)
    requires cfg.Valid() && Run(cfg, trace).Some?
    requires t in Run(cfg, trace).value.tasks && Run(cfg, trace).value.tasks[t].Returned?
    ensures var s := Run(cfg, trace).value;
            var k := s.tasks[t];
            && k.since <= k.until <= |s.log|
            && Since(s.log[..k.until], k.since, k.from) == [Handled(k.from, k.msg, k.reply)]
  {
    RunKeepsInv(cfg, trace);
  }

  /** From the moment a call pends its message until it has read the reply, the slot holds that message,
      and whatever the secure core works on there is that message. */
  lemma MessageIsKept(cfg: Config, trace: seq<Event>, t: nat)
    requires cfg.Valid() && Run(cfg, trace).Some? && t in Run(cfg, trace).value.tasks
    requires var k := Run(cfg, trace).value.tasks[t]; k.Waiting? || k.Ready? || k.Fetched?
    ensures var s := Run(cfg, trace).value;
            var k := s.tasks[t];
            && k.idx < |s.q.slots| == |s.sec| && s.q.slots[k.idx].msg == k.msg
            && (!s.sec[k.idx].Rest? ==> s.sec[k.idx].msg == k.msg)
  {
    RunKeepsInv(cfg, trace);
  }

  /** No call after initialisation is refused for want of a slot, even if semaphore releases fail:
      non-empty slots never exceed the holders of the semaphore, which with its count never exceed N. */
  lemma NeverQueueFull(cfg: Config, trace: seq<Event>)
    requires cfg.Valid() && Run(cfg, trace).Some?
    ensures var s := Run(cfg, trace).value;
            && s.sem + |s.tasks| <= cfg.n
            && |SlotsOf(s.tasks, s.tasks.Keys)| <= |s.tasks|
            && (forall i :: 0 <= i < cfg.n && !TestBit(s.q.empty, i) ==> i in SlotsOf(s.tasks, s.tasks.Keys))
            && (forall t :: t in s.tasks ==> !s.tasks[t].QueueFull?)
    decreases |trace|
  {
    RunKeepsInv(cfg, trace);
    var s := Run(cfg, trace).value;
    FewSlots(s.tasks, s.tasks.Keys);
    NonEmptyIsOwned(cfg, s);
    if trace != [] {
      NeverQueueFull(cfg, trace[..|trace| - 1]);
      var before, ev := Run(cfg, trace[..|trace| - 1]).value, trace[|trace| - 1];
      RunKeepsInv(cfg, trace[..|trace| - 1]);
      StepNotFull(cfg, before, ev);
    }
  }

  lemma NonEmptyIsOwned(cfg: Config, s: State)
    requires Inv(cfg, s)
    ensures forall i :: 0 <= i < cfg.n && !TestBit(s.q.empty, i) ==> i in SlotsOf(s.tasks, s.tasks.Keys)
  {
    forall i | 0 <= i < cfg.n && !TestBit(s.q.empty, i) ensures i in SlotsOf(s.tasks, s.tasks.Keys) {
      var t :| t in s.tasks && Owns(s.tasks[t], i);
    }
  }

  lemma StepNotFull(cfg: Config, s: State, ev: Event)
    requires cfg.Valid() && Inv(cfg, s) && Enabled(cfg, s, ev) && forall t :: t in s.tasks ==> !s.tasks[t].QueueFull?
    ensures forall t :: t in Step(cfg, s, ev).tasks ==> !Step(cfg, s, ev).tasks[t].QueueFull?
  {
    if ev.AcquireEv? {
      NotFull(cfg, s, ev.t);
    }
  }

  /** A call keeps its message from its first step to its last. */
  lemma CallKeepsMessage(cfg: Config, s: State, ev: Event, t: nat)
    requires |s.q.slots| == |s.sec| == cfg.n && Enabled(cfg, s, ev) && t in s.tasks && t in Step(cfg, s, ev).tasks
    ensures Step(cfg, s, ev).tasks[t].msg == s.tasks[t].msg
  {
  }
}
