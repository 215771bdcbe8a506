/** The trace of every run of the updater: why each event is there, and what has to follow it. */
module UpdaterTrace {
  import opened Prelude
  import opened Semver
  import opened Updater

  // ---- Why an event is there

  /** The script at `i` was started by an apply decision taken just before it, inside the window. */
  ghost predicate ScriptJustified(cfg: Config, trace: seq<Event>, i: nat)
    requires i < |trace|
  {
    trace[i].ApplyScript? ==>
      && i > 0 && trace[i - 1].Decided?
      && trace[i - 1].decision.action == Apply && InWindow(cfg.window, trace[i - 1].minutes)
      && trace[i].target == Show(trace[i - 1].decision.target)
      && trace[i].current == Show(trace[i - 1].decision.current)
  }

  /** The write at `i` directly follows a successful script for that version, and the health check where one is set. */
  ghost predicate WriteJustified(cfg: Config, trace: seq<Event>, i: nat)
    requires i < |trace|
  {
    trace[i].WriteVersion? ==>
      var k := if cfg.healthUrl == "" then i - 1 else i - 2;
      && k >= 0 && trace[k].ApplyScript? && trace[k].ok && trace[i].text == trace[k].target + "\n"
      && (cfg.healthUrl != "" ==> trace[i - 1] == HealthConfirmed)
  }

  /** The rollback at `i` directly follows a failed script, or its failed health check, and gets the same versions. */
  ghost predicate RollbackJustified(cfg: Config, trace: seq<Event>, i: nat)
    requires i < |trace|
  {
    trace[i].RollbackScript? ==>
      && i > 0
      && var k := if trace[i - 1] == HealthFailed then i - 2 else i - 1;
         && k >= 0 && trace[k].ApplyScript? && (trace[k].ok <==> trace[i - 1] == HealthFailed)
         && trace[i].target == trace[k].target && trace[i].current == trace[k].current
  }

  ghost predicate Justified(cfg: Config, trace: seq<Event>) {
    forall i :: 0 <= i < |trace| ==>
                  ScriptJustified(cfg, trace, i) && WriteJustified(cfg, trace, i) && RollbackJustified(cfg, trace, i)
  }

  /** A trace stays justified when the next event is. */
  lemma JustifiedAppend(cfg: Config, trace: seq<Event>, e: Event)
    requires Justified(cfg, trace)
    requires ScriptJustified(cfg, trace + [e], |trace|)
    requires WriteJustified(cfg, trace + [e], |trace|)
    requires RollbackJustified(cfg, trace + [e], |trace|)
    ensures Justified(cfg, trace + [e])
  {
    hide InWindow, Show;
    forall i | 0 <= i < |trace|
      ensures ScriptJustified(cfg, trace + [e], i) && WriteJustified(cfg, trace + [e], i)
      ensures RollbackJustified(cfg, trace + [e], i)
    {
      assert ScriptJustified(cfg, trace, i) && WriteJustified(cfg, trace, i) && RollbackJustified(cfg, trace, i);
    }
  }

  lemma ScriptIsJustified(cfg: Config, d: Decision, tick: Tick)
    requires d.action == Apply && InWindow(cfg.window, tick.minutes)
    ensures Justified(cfg, [Decided(d, tick.minutes)] + [ApplyScript(Show(d.target), Show(d.current), tick.applyOk)])
  {
    hide InWindow, Show;
    JustifiedAppend(cfg, [], Decided(d, tick.minutes));
    assert [] + [Decided(d, tick.minutes)] == [Decided(d, tick.minutes)];
    JustifiedAppend(cfg, [Decided(d, tick.minutes)], ApplyScript(Show(d.target), Show(d.current), tick.applyOk));
  }

  lemma RollbackIsJustified(cfg: Config, d: Decision, tick: Tick, trace: seq<Event>, k: nat)
    requires Justified(cfg, trace) && trace != []
    requires k == if trace[|trace| - 1] == HealthFailed then |trace| - 2 else |trace| - 1
    requires trace[k] == ApplyScript(Show(d.target), Show(d.current), trace[|trace| - 1] == HealthFailed)
    ensures Justified(cfg, trace + RollbackEvents(cfg, d, tick))
  {
    hide InWindow, Show, Justified;
    if cfg.rollbackCmd == [] {
      assert trace + [] == trace;
    } else {
      JustifiedAppend(cfg, trace, RollbackEvent(d, !ContextDone(cfg, tick), tick.rollbackOk));
    }
  }

  lemma HealthIsJustified(cfg: Config, trace: seq<Event>, healthy: bool)
    requires Justified(cfg, trace)
    ensures Justified(cfg, trace + HealthEvents(cfg, healthy))
  {
    hide InWindow, Show, Justified;
    if cfg.healthUrl == "" {
      assert trace + [] == trace;
    } else {
      JustifiedAppend(cfg, trace, if healthy then HealthConfirmed else HealthFailed);
    }
  }

  lemma WriteIsJustified(cfg: Config, trace: seq<Event>, text: string, ok: bool)
    requires Justified(cfg, trace + HealthEvents(cfg, true))
    requires trace != [] && trace[|trace| - 1].ApplyScript? && trace[|trace| - 1].ok
    requires text == trace[|trace| - 1].target + "\n"
    ensures Justified(cfg, trace + HealthEvents(cfg, true) + [WriteVersion(text, ok)])
  {
    hide InWindow, Show, Justified;
    JustifiedAppend(cfg, trace + HealthEvents(cfg, true), WriteVersion(text, ok));
  }

  lemma ApplyIsJustified(cfg: Config, file: File, d: Decision, tick: Tick)
    requires d.action == Apply && InWindow(cfg.window, tick.minutes)
    ensures Justified(cfg, [Decided(d, tick.minutes)] + ApplyOutcome(cfg, file, d, tick).events)
  {
    var healthy := BecameHealthy(cfg, tick);
    assert cfg.healthUrl == "" ==> healthy;
    hide InWindow, Show, BecameHealthy, Justified;
    var decided := [Decided(d, tick.minutes)];
    var script := [ApplyScript(Show(d.target), Show(d.current), tick.applyOk)];
    var health, rollback := HealthEvents(cfg, healthy), RollbackEvents(cfg, d, tick);
    ScriptIsJustified(cfg, d, tick);
    if !tick.applyOk {
      RollbackIsJustified(cfg, d, tick, decided + script, 1);
      ConcatAssoc(decided, script, rollback);
    } else {
      HealthIsJustified(cfg, decided + script, healthy);
      ConcatAssoc(decided, script, health);
      if !healthy {
        RollbackIsJustified(cfg, d, tick, decided + script + health, 1);
        ConcatAssoc(decided, script + health, rollback);
      } else if cfg.versionFile != "" {
        WriteIsJustified(cfg, decided + script, Show(d.target) + "\n", tick.writeOk);
        ConcatAssoc(decided, script + health, [WriteVersion(Show(d.target) + "\n", tick.writeOk)]);
      }
    }
  }

  lemma TickIsJustified(cfg: Config, file: File, tick: Tick)
    ensures Justified(cfg, TickOutcome(cfg, file, tick).events)
  {
    DecisionExactly(cfg, file, tick);
    hide CheckOnce, InWindow, ApplyOutcome, Announced, Recorded, Before, Show;
    var d := CheckOnce(cfg, file, tick).0;
    if d.action == Apply {
      ApplyIsJustified(cfg, file, d, tick);
    }
  }

  lemma JustifiedConcat(cfg: Config, a: seq<Event>, b: seq<Event>)
    requires Justified(cfg, a) && Justified(cfg, b)
    ensures Justified(cfg, a + b)
  {
    hide InWindow, Show;
    forall i | 0 <= i < |a + b|
      ensures ScriptJustified(cfg, a + b, i) && WriteJustified(cfg, a + b, i) && RollbackJustified(cfg, a + b, i)
    {
      if i < |a| {
        assert ScriptJustified(cfg, a, i) && WriteJustified(cfg, a, i) && RollbackJustified(cfg, a, i);
      } else {
        var k := i - |a|;
        assert ScriptJustified(cfg, b, k) && WriteJustified(cfg, b, k) && RollbackJustified(cfg, b, k);
      }
    }
  }

  /** Every script, write and rollback of every run is justified by what happened just before it. */
  lemma {:induction false} RunIsJustified(cfg: Config, file: File, ticks: seq<Tick>)
    ensures Justified(cfg, TraceOf(cfg, file, ticks))
    decreases ticks
  {
    hide TickOutcome;
    if ticks == [] {
    } else {
      var o := TickOutcome(cfg, file, ticks[0]);
      TickIsJustified(cfg, file, ticks[0]);
      RunIsJustified(cfg, o.file, ticks[1..]);
      JustifiedConcat(cfg, o.events, TraceOf(cfg, o.file, ticks[1..]));
    }
  }

  // ---- What has to follow

  /** The configured rollback, with the versions of the script that has failed. */
  ghost predicate RollbackFollows(cfg: Config, trace: seq<Event>, i: nat, target: string, current: string) {
    cfg.rollbackCmd != [] ==>
      && i + 1 < |trace| && trace[i + 1].RollbackScript?
      && trace[i + 1].target == target && trace[i + 1].current == current
  }

  /** The write of the configured version file. */
  ghost predicate WriteFollows(cfg: Config, trace: seq<Event>, i: nat, target: string) {
    cfg.versionFile != "" ==> i + 1 < |trace| && trace[i + 1].WriteVersion? && trace[i + 1].text == target + "\n"
  }

  /** The event at `i` has the event right after it that it calls for. */
  ghost predicate Answered(cfg: Config, trace: seq<Event>, i: nat)
    requires i < |trace|
  {
    match trace[i]
    case Decided(d, _) =>
      d.action == Apply ==>
        && i + 1 < |trace| && trace[i + 1].ApplyScript?
        && trace[i + 1].target == Show(d.target) && trace[i + 1].current == Show(d.current)
    case ApplyScript(target, current, ok) =>
      if !ok then RollbackFollows(cfg, trace, i, target, current)
      else if cfg.healthUrl == "" then WriteFollows(cfg, trace, i, target)
      else i + 1 < |trace| && (trace[i + 1] == HealthConfirmed || trace[i + 1] == HealthFailed)
    case HealthConfirmed =>
      i > 0 && trace[i - 1].ApplyScript? && WriteFollows(cfg, trace, i, trace[i - 1].target)
    case HealthFailed =>
      i > 0 && trace[i - 1].ApplyScript? && RollbackFollows(cfg, trace, i, trace[i - 1].target, trace[i - 1].current)
    case _ => true
  }

  ghost predicate AllAnswered(cfg: Config, trace: seq<Event>) {
    forall i :: 0 <= i < |trace| ==> Answered(cfg, trace, i)
  }

  lemma FailedScriptAnswered(cfg: Config, d: Decision, minutes: nat, started: bool, ok: bool)
    ensures AllAnswered(cfg, [Decided(d, minutes), ApplyScript(Show(d.target), Show(d.current), false)]
                             + if cfg.rollbackCmd == [] then [] else [RollbackEvent(d, started, ok)])
  {
    hide Show;
  }

  lemma UnhealthyAnswered(cfg: Config, d: Decision, minutes: nat, started: bool, ok: bool)
    requires cfg.healthUrl != ""
    ensures AllAnswered(cfg, [Decided(d, minutes), ApplyScript(Show(d.target), Show(d.current), true), HealthFailed]
                             + if cfg.rollbackCmd == [] then [] else [RollbackEvent(d, started, ok)])
  {
    hide Show;
  }

  lemma HealthyAnswered(cfg: Config, d: Decision, minutes: nat, ok: bool)
    ensures AllAnswered(cfg, [Decided(d, minutes), ApplyScript(Show(d.target), Show(d.current), true)]
                             + HealthEvents(cfg, true)
                             + if cfg.versionFile == "" then [] else [WriteVersion(Show(d.target) + "\n", ok)])
  {
    hide Show;
  }

  lemma ApplyIsAnswered(cfg: Config, file: File, d: Decision, tick: Tick)
    ensures AllAnswered(cfg, [Decided(d, tick.minutes)] + ApplyOutcome(cfg, file, d, tick).events)
  {
    assert cfg.healthUrl == "" ==> BecameHealthy(cfg, tick);
    hide BecameHealthy, ContextDone, Show, AllAnswered;
    var decided := Decided(d, tick.minutes);
    var script := ApplyScript(Show(d.target), Show(d.current), tick.applyOk);
    var all := [decided] + ApplyOutcome(cfg, file, d, tick).events;
    if !tick.applyOk {
      FailedScriptAnswered(cfg, d, tick.minutes, !ContextDone(cfg, tick), tick.rollbackOk);
      assert all == [decided, script] + RollbackEvents(cfg, d, tick);
    } else if !BecameHealthy(cfg, tick) {
      UnhealthyAnswered(cfg, d, tick.minutes, !ContextDone(cfg, tick), tick.rollbackOk);
      assert all == [decided, script, HealthFailed] + RollbackEvents(cfg, d, tick);
    } else {
      HealthyAnswered(cfg, d, tick.minutes, tick.writeOk);
      assert all == [decided, script] + HealthEvents(cfg, true)
                    + if cfg.versionFile == "" then [] else [WriteVersion(Show(d.target) + "\n", tick.writeOk)];
    }
  }

  lemma IdleIsAnswered(cfg: Config, d: Decision, minutes: nat)
    ensures AllAnswered(cfg, [])
    ensures d.action != Apply ==> AllAnswered(cfg, [Decided(d, minutes)])
  {
  }

  lemma TickIsAnswered(cfg: Config, file: File, tick: Tick)
    ensures AllAnswered(cfg, TickOutcome(cfg, file, tick).events)
  {
    hide CheckOnce, ApplyOutcome, AllAnswered;
    var d := CheckOnce(cfg, file, tick).0;
    ApplyIsAnswered(cfg, file, d, tick);
    IdleIsAnswered(cfg, d, tick.minutes);
  }

  lemma AnsweredConcat(cfg: Config, a: seq<Event>, b: seq<Event>)
    requires AllAnswered(cfg, a) && AllAnswered(cfg, b)
    ensures AllAnswered(cfg, a + b)
  {
    hide Show;
    forall i | 0 <= i < |a + b| ensures Answered(cfg, a + b, i) {
      if i < |a| {
        assert Answered(cfg, a, i);
      } else {
        assert Answered(cfg, b, i - |a|);
      }
    }
  }

  /**
   In every run each apply decision is followed by its script, each failed script or health check by
   the configured rollback, and each healthy apply by the write of the configured version file.
   */
  lemma {:induction false} RunIsAnswered(cfg: Config, file: File, ticks: seq<Tick>)
    ensures AllAnswered(cfg, TraceOf(cfg, file, ticks))
    decreases ticks
  {
    hide TickOutcome, Answered;
    if ticks == [] {
      assert TraceOf(cfg, file, ticks) == [];
    } else {
      var o := TickOutcome(cfg, file, ticks[0]);
      TickIsAnswered(cfg, file, ticks[0]);
      RunIsAnswered(cfg, o.file, ticks[1..]);
      AnsweredConcat(cfg, o.events, TraceOf(cfg, o.file, ticks[1..]));
    }
  }
}
