/**
  Which steps of the Secure Partition Manager succeed, and that whatever is in progress can be
  completed.
*/
module SpmProgress {
  import opened Options
  import opened SpmModel
  import opened SpmRuns
  import opened SpmTheorems

  // ---------------------------------------------------------------- interrupts

  ghost predicate OnlyCoreClosed(c: Control) {
    forall p :: 0 <= p < |c.parts| ==> (IrqStateOk(c.parts[p].state) <==> p != CORE)
  }

  lemma BaseOnlyCoreClosed(cfg: Config, c: Control, ch: seq<nat>)
    requires Topology(cfg, c, ch)
    ensures OnlyCoreClosed(c)
  {
    forall p | 0 <= p < |c.parts| ensures IrqStateOk(c.parts[p].state) <==> p != CORE {
      if p in ch {
        var k :| 0 <= k < |ch| && ch[k] == p;
      }
    }
  }

  lemma EnterKeepsOnlyCoreClosed(c: Control, h: nat)
    requires OnlyCoreClosed(c) && UniqueActive(c) && h < |c.parts| && IrqStateOk(c.parts[h].state)
    ensures OnlyCoreClosed(IrqEnterCtl(c, h))
  {
    assert c.running != CORE;
  }

  lemma {:induction false} NestedOnlyCoreClosed(cfg: Config, c: Control, frames: seq<Frame>, ch: seq<nat>)
    requires Nested(cfg, c, frames) && Topology(cfg, Bottom(c, frames), ch)
    ensures OnlyCoreClosed(c)
    decreases |frames|
  {
    if frames == [] {
      BaseOnlyCoreClosed(cfg, c, ch);
    } else {
      var f, below := frames[|frames| - 1], frames[..|frames| - 1];
      NestedOnlyCoreClosed(cfg, f.pre, below, ch);
      NestedUniqueActive(cfg, f.pre, below, ch);
      EnterKeepsOnlyCoreClosed(f.pre, f.handler);
    }
  }

  /** In every run, whatever is in progress, an interrupt is taken exactly if its handler is not the core's
      partition, which boot closed. */
  lemma InterruptTakenExactly(cfg: Config, c: Conf, id: nat, signal: bv32)
    requires cfg.Valid() && Reachable(cfg, c) && IdxOf(cfg.statics, id) < |cfg.statics|
    ensures Sized(cfg, c.state)
    ensures IrqEnter(cfg, c.state, id, signal).Next? <==> IdxOf(cfg.statics, id) != CORE
  {
    LockCountsCalls(cfg, c);
    assert OnlyCoreClosed(c.state.ctl) by {
      ReachableInv(cfg, c);
      NestedOnlyCoreClosed(cfg, c.state.ctl, c.hist.frames, Chain(c.hist.acts));
    }
  }

  // ---------------------------------------------------------------- calls

  // All the checks on the way of a request, in one condition
  lemma CallNext(cfg: Config, s: State, r: Request)
    requires cfg.Valid() && Sized(cfg, s) && s.ctl.running < |cfg.statics| && IdxOf(cfg.statics, r.spId) < |cfg.statics|
    ensures Call(cfg, s, r, false).Next? <==>
              && ParamsOk(cfg, s.mem, r) && r.spId != 0 && r.sfn != 0
              && s.ctl.parts[s.ctl.running].state == RUNNING && s.ctl.parts[IdxOf(cfg.statics, r.spId)].state == IDLE
              && cfg.statics[s.ctl.running].appRot == !r.nsCaller && (r.nsCaller ==> s.ctl.lock == 0 && r.nsClientId < 0)
  {
  }

  lemma IdleExactly(cfg: Config, c: Conf, p: nat)
    requires cfg.Valid() && Reachable(cfg, c) && c.hist.frames == [] && p < |cfg.statics|
    ensures p < |c.state.ctl.parts|
    ensures c.state.ctl.parts[p].state == IDLE <==> p != CORE && p !in Chain(c.hist.acts)
  {
    ReachableInv(cfg, c);
    var ch := Chain(c.hist.acts);
    if p in ch {
      var k :| 0 <= k < |ch| && ch[k] == p;
    }
  }

  /** In every run a request succeeds exactly if its vectors are accepted, no interrupt handler makes it, it comes
      from non-secure code exactly if no call is in progress, such code then has a negative identity, and its
      target is a service that is not already on the call chain. */
  lemma CallSucceedsExactly(cfg: Config, c: Conf, r: Request)
    requires cfg.Valid() && Reachable(cfg, c) && IdxOf(cfg.statics, r.spId) < |cfg.statics|
    ensures Sized(cfg, c.state) && c.state.ctl.running < |cfg.statics|
    ensures Call(cfg, c.state, r, false).Next? <==>
              && ParamsOk(cfg, c.state.mem, r) && r.sfn != 0 && c.hist.frames == []
              && r.nsCaller == (c.hist.acts == []) && (r.nsCaller ==> r.nsClientId < 0)
              && IdxOf(cfg.statics, r.spId) != CORE && IdxOf(cfg.statics, r.spId) !in Chain(c.hist.acts)
  {
    LockCountsCalls(cfg, c);
    CallNext(cfg, c.state, r);
    if c.hist.frames == [] {
      CallerOfTop(cfg, c);
      IdleExactly(cfg, c, IdxOf(cfg.statics, r.spId));
      assert NS in Chain(c.hist.acts);
    }
  }

  // ---------------------------------------------------------------- completion

  // The end of what was begun last: interrupts before calls
  function Ending(c: Conf): Event {
    if c.hist.frames != [] then IrqReturnEv else ReturnEv
  }

  ghost predicate Ends(cfg: Config, c: Conf, d: Conf) { StepConf(cfg, c, Ending(c)) == Some(d) }

  // The configurations that such ends lead through
  ghost predicate Completion(cfg: Config, confs: seq<Conf>) {
    confs != [] && forall k :: 0 <= k < |confs| - 1 ==> EndsAt(cfg, confs, k)
  }

  ghost predicate EndsAt(cfg: Config, confs: seq<Conf>, k: nat)
    requires k + 1 < |confs|
  {
    Ends(cfg, confs[k], confs[k + 1])
  }

  function InProgress(h: History): nat { |h.frames| + |h.acts| }

  lemma RunGrows(cfg: Config, confs: seq<Conf>, trace: seq<Event>, ev: Event, d: Conf)
    requires IsRun(cfg, confs, trace) && StepConf(cfg, confs[|trace|], ev) == Some(d)
    ensures IsRun(cfg, confs + [d], trace + [ev])
  {
    var cs, t := confs + [d], trace + [ev];
    forall k | 0 <= k < |t| ensures StepAt(cfg, cs, t, k) {
      if k < |trace| {
        assert StepAt(cfg, confs, trace, k);
      }
    }
  }

  lemma StepReaches(cfg: Config, c: Conf, ev: Event, d: Conf)
    requires Reachable(cfg, c) && StepConf(cfg, c, ev) == Some(d)
    ensures Reachable(cfg, d)
  {
    var confs, trace :| IsRun(cfg, confs, trace) && confs[|trace|] == c;
    RunGrows(cfg, confs, trace, ev, d);
    assert (confs + [d])[|trace + [ev]|] == d;
  }

  // The step of a handler that returns, and of a service that returns
  lemma IrqReturnIs(cfg: Config, c: Conf, s': State) returns (d: Conf)
    requires Sized(cfg, c.state) && c.state.ctl.running < |cfg.statics| && c.hist.frames != []
    requires c.state.ctl.parts[c.state.ctl.running].state == HANDLING_IRQ && IrqLeave(cfg, c.state) == Next(s')
    ensures StepConf(cfg, c, IrqReturnEv) == Some(d)
    ensures d.hist == c.hist.(frames := c.hist.frames[..|c.hist.frames| - 1])
  {
    d := Conf(s', c.hist.(frames := c.hist.frames[..|c.hist.frames| - 1]));
  }

  lemma ReturnIs(cfg: Config, c: Conf, s': State) returns (d: Conf)
    requires Sized(cfg, c.state) && c.state.ctl.running < |cfg.statics| && c.hist.acts != []
    requires c.state.ctl.parts[c.state.ctl.running].state == RUNNING && Return(cfg, c.state, false) == Next(s')
    ensures StepConf(cfg, c, ReturnEv) == Some(d)
    ensures d.hist == c.hist.(acts := c.hist.acts[..|c.hist.acts| - 1])
  {
    d := Conf(s', c.hist.(acts := c.hist.acts[..|c.hist.acts| - 1]));
  }

  lemma HandlerReturns(cfg: Config, c: Conf) returns (d: Conf)
    requires cfg.Valid() && Reachable(cfg, c) && c.hist.frames != []
    ensures StepConf(cfg, c, IrqReturnEv) == Some(d)
    ensures d.hist == c.hist.(frames := c.hist.frames[..|c.hist.frames| - 1])
  {
    LockCountsCalls(cfg, c);
    HandlerIsActive(cfg, c);
    HandlingHasFrame(cfg, c);
    d := IrqReturnIs(cfg, c, c.state.(ctl := c.hist.frames[|c.hist.frames| - 1].pre));
  }

  lemma ServiceReturns(cfg: Config, c: Conf) returns (d: Conf)
    requires cfg.Valid() && Reachable(cfg, c) && c.hist.frames == [] && c.hist.acts != []
    ensures StepConf(cfg, c, ReturnEv) == Some(d)
    ensures d.hist == c.hist.(acts := c.hist.acts[..|c.hist.acts| - 1])
  {
    LockCountsCalls(cfg, c);
    ReturnSucceeds(cfg, c);
    d := ReturnIs(cfg, c, Return(cfg, c.state, false).state);
  }

  lemma ReturnSucceeds(cfg: Config, c: Conf)
    requires cfg.Valid() && Reachable(cfg, c) && c.hist.frames == [] && c.hist.acts != []
    ensures Sized(cfg, c.state) && Return(cfg, c.state, false).Next?
  {
    ReachableInv(cfg, c);
    ReturnDefined(cfg, c.state, c.hist.acts);
  }

  lemma EndingSucceeds(cfg: Config, c: Conf) returns (d: Conf)
    requires cfg.Valid() && Reachable(cfg, c) && InProgress(c.hist) > 0
    ensures Completion(cfg, [c, d]) && Reachable(cfg, d) && InProgress(d.hist) == InProgress(c.hist) - 1
  {
    if c.hist.frames != [] {
      d := HandlerReturns(cfg, c);
      StepReaches(cfg, c, IrqReturnEv, d);
    } else {
      d := ServiceReturns(cfg, c);
      StepReaches(cfg, c, ReturnEv, d);
    }
    assert EndsAt(cfg, [c, d], 0);
  }

  lemma CompletionGrows(cfg: Config, c: Conf, confs: seq<Conf>)
    requires Completion(cfg, confs) && Completion(cfg, [c, confs[0]])
    ensures Completion(cfg, [c] + confs)
  {
    var cs := [c] + confs;
    forall k | 0 <= k < |cs| - 1 ensures EndsAt(cfg, cs, k) {
      if k > 0 {
        assert EndsAt(cfg, confs, k - 1);
      } else {
        assert EndsAt(cfg, [c, confs[0]], 0);
      }
    }
  }

  lemma {:induction false} CompleteFrom(cfg: Config, c: Conf) returns (confs: seq<Conf>)
    requires cfg.Valid() && Reachable(cfg, c)
    ensures |confs| == InProgress(c.hist) + 1 && confs[0] == c && Completion(cfg, confs)
    ensures Reachable(cfg, confs[|confs| - 1]) && InProgress(confs[|confs| - 1].hist) == 0
    decreases InProgress(c.hist)
  {
    if InProgress(c.hist) == 0 {
      confs := [c];
    } else {
      var d := EndingSucceeds(cfg, c);
      var rest := CompleteFrom(cfg, d);
      CompletionGrows(cfg, c, rest);
      confs := [c] + rest;
    }
  }

  /** In every run, as many returns as there are interrupts and calls in progress succeed one after the other, and
      leave the database as it was after boot. */
  lemma EverythingCompletes(cfg: Config, c: Conf) returns (confs: seq<Conf>)
    requires cfg.Valid() && Reachable(cfg, c)
    ensures |confs| == InProgress(c.hist) + 1 && confs[0] == c && Completion(cfg, confs)
    ensures Booted(cfg, confs[|confs| - 1].state)
  {
    confs := CompleteFrom(cfg, c);
    var d := confs[|confs| - 1];
    assert Booted(cfg, d.state) by {
      ReachableInv(cfg, d);
      assert Chain([]) == [NS];
    }
  }
}
