/** The updater object of kernel/update/updater.go, stepping through the ticks of a run. */
module UpdaterMachine {
  import opened Prelude
  import opened GoStrings
  import opened Semver
  import opened Updater
  import opened UpdaterSafety
  import opened UpdaterTrace

  class Machine {
    const cfg: Config
    var file: File
    var trace: seq<Event>

    constructor (cfg: Config, file: File)
      ensures this.cfg == cfg && this.file == file && trace == []
    {
      this.cfg := cfg;
      this.file := file;
      trace := [];
    }

    method CurrentVersion() returns (v: Version)
      ensures v == Recorded(cfg, file)
    {
      if cfg.versionFile == "" || file.None? {
        return ZERO;
      }
      var parsed := ParseVersion(TrimSpace(file.value));
      return if parsed.Some? then parsed.value else ZERO;
    }

    /** `CheckOnce`: nothing is changed. */
    method Check(tick: Tick) returns (d: Decision, err: Option<Error>)
      ensures (d, err) == CheckOnce(cfg, file, tick)
    {
      var cur := CurrentVersion();
      if tick.fetch.None? {
        return Decision(Stay, cur, ZERO), Some(FetchFailed);
      }
      if cfg.channel !in tick.fetch.value {
        return Decision(Stay, cur, ZERO), Some(ChannelMissing);
      }
      var target := ParseVersion(tick.fetch.value[cfg.channel]);
      if target.None? {
        return Decision(Stay, cur, ZERO), Some(BadVersion);
      }
      var action :=
        if Compare(target.value, cur) <= 0 then Stay
        else if target.value.major > cur.major && !cfg.allowMajor then BlockedMajor
        else if !InWindow(cfg.window, tick.minutes) then BlockedWindow
        else Apply;
      return Decision(action, cur, target.value), None;
    }

    /** The rollback script, if one is configured; its own failure is only logged. */
    method Rollback(d: Decision, tick: Tick, done: bool)
      requires done <==> ContextDone(cfg, tick)
      modifies this`trace
      ensures trace == old(trace) + RollbackEvents(cfg, d, tick)
    {
      if cfg.rollbackCmd == [] {
        return;
      }
      trace := trace + [RollbackEvent(d, !done, tick.rollbackOk)];
    }

    method WaitHealthy(tick: Tick) returns (healthy: bool, cancelled: bool)
      modifies this`trace
      ensures healthy <==> BecameHealthy(cfg, tick)
      ensures cancelled <==> WaitCancelled(cfg, tick)
      ensures trace == old(trace) + HealthEvents(cfg, healthy)
    {
      healthy, cancelled := Probe(cfg, tick);
      if cfg.healthUrl != "" {
        trace := trace + [if healthy then HealthConfirmed else HealthFailed];
      }
    }

    /** An empty apply command has no program to start, so the caller must configure one. */
    method ApplyUpdate(d: Decision, tick: Tick) returns (err: Option<Error>)
      requires cfg.applyCmd != []
      modifies this
      ensures var o := ApplyOutcome(cfg, old(file), d, tick);
              file == o.file && err == o.err && trace == old(trace) + o.events
    {
      trace := trace + [ApplyScript(Show(d.target), Show(d.current), tick.applyOk)];
      if !tick.applyOk {
        Rollback(d, tick, tick.stopped);
        return Some(ApplyFailed);
      }
      var healthy, cancelled := WaitHealthy(tick);
      if !healthy {
        Rollback(d, tick, tick.stopped || cancelled);
        return Some(Unhealthy);
      }
      if cfg.versionFile != "" {
        var text := Show(d.target) + "\n";
        trace := trace + [WriteVersion(text, tick.writeOk)];
        file := tick.left;
        if !tick.writeOk {
          return Some(WriteFailed);
        }
      }
      return None;
    }

    /** One turn of the loop: check, and apply if that is the decision. */
    method Turn(tick: Tick)
      requires cfg.applyCmd != []
      modifies this
      ensures var o := TickOutcome(cfg, old(file), tick);
              file == o.file && trace == old(trace) + o.events
    {
      hide ApplyOutcome, CheckOnce;
      var d, err := Check(tick);
      if err.None? {
        trace := trace + [Decided(d, tick.minutes)];
        if d.action == Apply {
          var failed := ApplyUpdate(d, tick);
        }
      }
    }

    /**
     `Run`, for the ticks that happen. A trace whose events are justified and answered stays so, and
     on ordinary storage the version does not go down, nor its major number move without permission.
     */
    method Run(ticks: seq<Tick>)
      requires cfg.applyCmd != []
      modifies this
      ensures file == FileAfter(cfg, old(file), ticks)
      ensures trace == old(trace) + TraceOf(cfg, old(file), ticks)
      ensures Justified(cfg, old(trace)) ==> Justified(cfg, trace)
      ensures AllAnswered(cfg, old(trace)) ==> AllAnswered(cfg, trace)
      ensures OrdinaryWrites(cfg, old(file), ticks) ==>
                && !Before(Recorded(cfg, file), Recorded(cfg, old(file)))
                && (!cfg.allowMajor ==> Recorded(cfg, file).major == Recorded(cfg, old(file)).major)
    {
      hide TickOutcome, Justified, AllAnswered, OrdinaryWrites, Recorded;
      for i := 0 to |ticks|
        invariant file == FileAfter(cfg, old(file), ticks[..i])
        invariant trace == old(trace) + TraceOf(cfg, old(file), ticks[..i])
      {
        RunOneMore(cfg, old(file), ticks, i);
        Turn(ticks[i]);
      }
      assert ticks[..|ticks|] == ticks;
      RunIsJustified(cfg, old(file), ticks);
      if Justified(cfg, old(trace)) {
        JustifiedConcat(cfg, old(trace), TraceOf(cfg, old(file), ticks));
      }
      RunIsAnswered(cfg, old(file), ticks);
      if AllAnswered(cfg, old(trace)) {
        AnsweredConcat(cfg, old(trace), TraceOf(cfg, old(file), ticks));
      }
      if OrdinaryWrites(cfg, old(file), ticks) {
        NeverDowngrades(cfg, old(file), ticks, 0, |ticks|);
        assert ticks[..0] == [];
      }
    }
  }
}
