/** What holds over every run of the updater, whatever the manifests, clocks, scripts and probes answer. */
module UpdaterSafety {
  import opened Prelude
  import opened GoStrings
  import opened Semver
  import opened Updater

  // ---- One apply

  ghost function Rollbacks(events: seq<Event>): nat {
    if events == [] then 0 else (if events[0].RollbackScript? then 1 else 0) + Rollbacks(events[1..])
  }

  lemma {:induction false} RollbacksConcat(a: seq<Event>, b: seq<Event>)
    ensures Rollbacks(a + b) == Rollbacks(a) + Rollbacks(b)
  {
    if a == [] {
      assert a + b == b;
    } else {
      assert (a + b)[1..] == a[1..] + b;
      RollbacksConcat(a[1..], b);
    }
  }

  lemma NoRollbacks(events: seq<Event>)
    requires |events| <= 3 && forall e :: e in events ==> !e.RollbackScript?
    ensures Rollbacks(events) == 0
  {
    assert |events| > 0 ==> events[0] in events;
    assert |events| > 1 ==> events[1] in events;
    assert |events| > 2 ==> events[2] in events;
  }

  /**
   A failed apply: if the script or the health check fails, the configured rollback is invoked
   exactly once, as the last effect, and is started unless the context is cancelled; nothing is
   written and the file is untouched.
   */
  lemma FailedApplyRollsBack(cfg: Config, file: File, d: Decision, tick: Tick)
    requires FailsBeforeWrite(cfg, tick)
    ensures var o := ApplyOutcome(cfg, file, d, tick); var last := o.events[|o.events| - 1];
            && o.err.Some? && o.file == file
            && Rollbacks(o.events) == (if cfg.rollbackCmd == [] then 0 else 1)
            && (cfg.rollbackCmd != [] ==>
                  last == RollbackScript(Show(d.target), Show(d.current), !ContextDone(cfg, tick),
                                         !ContextDone(cfg, tick) && tick.rollbackOk))
            && forall e :: e in o.events ==> !e.WriteVersion?
  {
    hide Show, BecameHealthy, ContextDone;
    var script := [ApplyScript(Show(d.target), Show(d.current), tick.applyOk)];
    if !tick.applyOk {
      RollbacksConcat(script, RollbackEvents(cfg, d, tick));
    } else {
      NoRollbacks(script + HealthEvents(cfg, false));
      RollbacksConcat(script + HealthEvents(cfg, false), RollbackEvents(cfg, d, tick));
    }
  }

  /** Which error an apply ends with, and how many events it has. */
  lemma ApplyErrorExactly(cfg: Config, file: File, d: Decision, tick: Tick)
    ensures var o := ApplyOutcome(cfg, file, d, tick);
            && (o.err == Some(ApplyFailed) <==> !tick.applyOk)
            && (o.err == Some(Unhealthy) <==> tick.applyOk && !BecameHealthy(cfg, tick))
            && (o.err == Some(WriteFailed) <==>
                  tick.applyOk && BecameHealthy(cfg, tick) && cfg.versionFile != "" && !tick.writeOk)
            && (o.err.None? <==>
                  tick.applyOk && BecameHealthy(cfg, tick) && (cfg.versionFile == "" || tick.writeOk))
            && o.events[0] == ApplyScript(Show(d.target), Show(d.current), tick.applyOk)
            && |o.events| == 1 + (if tick.applyOk && cfg.healthUrl != "" then 1 else 0)
                             + (if FailsBeforeWrite(cfg, tick) then if cfg.rollbackCmd == [] then 0 else 1
                                else if cfg.versionFile == "" then 0 else 1)
  {
    assert cfg.healthUrl == "" ==> BecameHealthy(cfg, tick);
    hide Show, BecameHealthy, ContextDone;
  }

  ghost function Decisions(events: seq<Event>): nat {
    if events == [] then 0 else (if events[0].Decided? then 1 else 0) + Decisions(events[1..])
  }

  lemma NoDecisions(events: seq<Event>)
    requires |events| <= 3 && forall e :: e in events ==> !e.Decided?
    ensures Decisions(events) == 0
  {
    assert |events| > 0 ==> events[0] in events;
    assert |events| > 1 ==> events[1] in events;
    assert |events| > 2 ==> events[2] in events;
  }

  lemma ApplyDecidesNothing(cfg: Config, file: File, d: Decision, tick: Tick)
    ensures Decisions(ApplyOutcome(cfg, file, d, tick).events) == 0
  {
    hide Show, BecameHealthy, ContextDone;
    NoDecisions(ApplyOutcome(cfg, file, d, tick).events);
  }

  /** A tick records its decision once and first, none exactly on an error; only an apply has further events. */
  lemma TickDecidesOnce(cfg: Config, file: File, tick: Tick)
    ensures var (d, err) := CheckOnce(cfg, file, tick); var o := TickOutcome(cfg, file, tick);
            && (err.Some? ==> o == Outcome(file, err, []))
            && (err.None? ==> Decisions(o.events) == 1 && o.events[0] == Decided(d, tick.minutes))
            && (err.None? && d.action != Apply ==> o == Outcome(file, None, [Decided(d, tick.minutes)]))
            && (d.action == Apply ==> o.file == ApplyOutcome(cfg, file, d, tick).file
                                      && o.err == ApplyOutcome(cfg, file, d, tick).err
                                      && o.events[1..] == ApplyOutcome(cfg, file, d, tick).events)
  {
    var d := CheckOnce(cfg, file, tick).0;
    DecisionExactly(cfg, file, tick);
    hide CheckOnce, ApplyOutcome;
    ApplyDecidesNothing(cfg, file, d, tick);
    assert Decisions([]) == 0;
    assert [Decided(d, tick.minutes)][1..] == [];
  }

  /** The tick runs the apply script but leaves what it did in place: a rollback is configured and not started. */
  ghost predicate LeftUnrolled(cfg: Config, file: File, tick: Tick) {
    && CheckOnce(cfg, file, tick).0.action == Apply && FailsBeforeWrite(cfg, tick) && cfg.rollbackCmd != []
    && forall e :: e in TickOutcome(cfg, file, tick).events && e.RollbackScript? ==> !e.started
  }

  lemma OnlyRollback(cfg: Config, file: File, d: Decision, tick: Tick)
    requires FailsBeforeWrite(cfg, tick)
    ensures forall e :: e in ApplyOutcome(cfg, file, d, tick).events && e.RollbackScript? ==>
                          e == RollbackEvent(d, !ContextDone(cfg, tick), tick.rollbackOk)
  {
    hide Show, BecameHealthy, ContextDone;
  }

  /**
   The documentation promises the rollback after every failure. It is kept exactly unless the
   context is cancelled during the script, after the wait, or between two probes of the wait.
   */
  lemma LeftUnrolledExactly(cfg: Config, file: File, tick: Tick)
    requires CheckOnce(cfg, file, tick).0.action == Apply && FailsBeforeWrite(cfg, tick) && cfg.rollbackCmd != []
    ensures LeftUnrolled(cfg, file, tick) <==> tick.stopped || (tick.applyOk && WaitCancelled(cfg, tick))
  {
    var d := CheckOnce(cfg, file, tick).0;
    var o := ApplyOutcome(cfg, file, d, tick);
    FailedApplyRollsBack(cfg, file, d, tick);
    DecisionExactly(cfg, file, tick);
    var all := [Decided(d, tick.minutes)] + o.events;
    assert all == TickOutcome(cfg, file, tick).events;
    var last := o.events[|o.events| - 1];
    assert all[|all| - 1] == last;
    OnlyRollback(cfg, file, d, tick);
    hide CheckOnce, ApplyOutcome, FailsBeforeWrite, WaitCancelled;
    if LeftUnrolled(cfg, file, tick) {
      assert last in all && !last.started;
    } else {
      var e :| e in all && e.RollbackScript? && e.started;
      assert e in o.events;
    }
  }

  /**
   An apply whose script and health check succeed: nothing is rolled back; exactly with a version
   file there is a write, of the target's text, as the last effect; only a failed write is an error.
   */
  lemma HealthyApplyWritesLast(cfg: Config, file: File, d: Decision, tick: Tick)
    requires !FailsBeforeWrite(cfg, tick)
    ensures var o := ApplyOutcome(cfg, file, d, tick); var last := o.events[|o.events| - 1];
            && Rollbacks(o.events) == 0
            && (o.err.None? <==> cfg.versionFile == "" || tick.writeOk)
            && o.file == (if cfg.versionFile == "" then file else tick.left)
            && (cfg.versionFile != "" <==> last == WriteVersion(Show(d.target) + "\n", tick.writeOk))
            && forall i :: 0 <= i < |o.events| - 1 ==> !o.events[i].WriteVersion?
  {
    hide Show, BecameHealthy;
    NoRollbacks(ApplyOutcome(cfg, file, d, tick).events);
  }

  // ---- The recorded version over a run

  /** The file after a tick that went through script and health check. */
  ghost function FileLeft(cfg: Config, file: File, tick: Tick): File {
    if cfg.versionFile == "" then file else tick.left
  }

  /** Only a write changes the file, and then everything depends on what later reads see. */
  lemma RecordAfterTick(cfg: Config, file: File, tick: Tick)
    ensures TickOutcome(cfg, file, tick).file == if Completes(cfg, file, tick) then FileLeft(cfg, file, tick) else file
    ensures Recorded(cfg, TickOutcome(cfg, file, tick).file)
         == if Writes(cfg, file, tick) then Recorded(cfg, tick.left) else Recorded(cfg, file)
    ensures Completes(cfg, file, tick) <==> LosesWrite(cfg, file, tick) || Succeeds(cfg, file, tick)
    ensures !(LosesWrite(cfg, file, tick) && Succeeds(cfg, file, tick))
  {
    hide CheckOnce, Parsed, TrimSpace;
    var (d, err) := CheckOnce(cfg, file, tick);
    DecisionExactly(cfg, file, tick);
    if d.action == Apply {
      if FailsBeforeWrite(cfg, tick) {
        FailedApplyRollsBack(cfg, file, d, tick);
      } else {
        HealthyApplyWritesLast(cfg, file, d, tick);
      }
    }
  }

  /** What the updater writes reads back as the same version. */
  lemma WrittenReadsBack(cfg: Config, v: Version)
    requires cfg.versionFile != "" && Canonical(v)
    ensures Recorded(cfg, Some(Show(v) + "\n")) == v
  {
    hide Parsed, TrimSpace, Show;
    ParseOfShow(v);
  }

  /**
   After a successful apply the recorded version is the target exactly when a version file is
   configured that reads back as the target, as one does that holds the written text.
   */
  lemma SuccessRecordsTarget(cfg: Config, file: File, tick: Tick)
    requires Succeeds(cfg, file, tick)
    ensures var target := CheckOnce(cfg, file, tick).0.target;
            var now := Recorded(cfg, TickOutcome(cfg, file, tick).file);
            && (now == target <==> cfg.versionFile != "" && Recorded(cfg, tick.left) == target)
            && (cfg.versionFile != "" && tick.left == Some(Show(target) + "\n") ==> now == target)
  {
    assert CheckOnce(cfg, file, tick).0.action == Apply;
    DecisionExactly(cfg, file, tick);
    RecordAfterTick(cfg, file, tick);
    hide CheckOnce, TickOutcome, Show, InWindow, Parsed, TrimSpace, Announced;
    if cfg.versionFile != "" {
      WrittenReadsBack(cfg, CheckOnce(cfg, file, tick).0.target);
    }
  }

  /**
   Ordinary storage: what was written without error reads back as the target, and a failed write
   leaves the old version or the new one.
   */
  ghost predicate OrdinaryWrite(cfg: Config, file: File, tick: Tick) {
    Writes(cfg, file, tick) ==>
      || Recorded(cfg, tick.left) == CheckOnce(cfg, file, tick).0.target
      || (!tick.writeOk && Recorded(cfg, tick.left) == Recorded(cfg, file))
  }

  ghost predicate OrdinaryWrites(cfg: Config, file: File, ticks: seq<Tick>)
    decreases ticks
  {
    ticks == []
    || (OrdinaryWrite(cfg, file, ticks[0]) && OrdinaryWrites(cfg, TickOutcome(cfg, file, ticks[0]).file, ticks[1..]))
  }

  /** One tick: the recorded version stays or becomes the newer announced one. */
  lemma TickMovesForward(cfg: Config, file: File, tick: Tick)
    requires OrdinaryWrite(cfg, file, tick)
    ensures var old', now := Recorded(cfg, file), Recorded(cfg, TickOutcome(cfg, file, tick).file);
            && Compare(old', now) <= 0
            && (now != old' ==> Writes(cfg, file, tick) && Announced(cfg, tick) == Some(now))
            && (Succeeds(cfg, file, tick) && cfg.versionFile != "" ==> Compare(old', now) < 0)
            && (!cfg.allowMajor ==> now.major == old'.major)
  {
    RecordedIsCanonical(cfg, file);
    DecisionExactly(cfg, file, tick);
    RecordAfterTick(cfg, file, tick);
    var d := CheckOnce(cfg, file, tick).0;
    hide CheckOnce, TickOutcome, Recorded, Compare, InWindow, FailsBeforeWrite;
    CompareIsBefore(Recorded(cfg, file), Recorded(cfg, file));
    if Writes(cfg, file, tick) {
      CompareIsBefore(d.current, d.target);
    }
  }

  /** The tick writes, and the file then reads as a lower version, as an emptied one reads as v0.0.0. */
  ghost predicate Falls(cfg: Config, file: File, tick: Tick) {
    Writes(cfg, file, tick) && Before(Recorded(cfg, tick.left), Recorded(cfg, file))
  }

  /** The one way down, exactly. */
  lemma GoesDownExactly(cfg: Config, file: File, tick: Tick)
    ensures Before(Recorded(cfg, TickOutcome(cfg, file, tick).file), Recorded(cfg, file)) <==> Falls(cfg, file, tick)
    ensures tick.left == Some("") ==> Recorded(cfg, tick.left) == ZERO
  {
    RecordAfterTick(cfg, file, tick);
    RecordedIsCanonical(cfg, file);
    CompareIsBefore(Recorded(cfg, file), Recorded(cfg, file));
    assert TrimSpace("") == "" && Parsed("").None?;
  }

  /** The recorded version before tick `i` of a run. */
  ghost function RecordAt(cfg: Config, file: File, ticks: seq<Tick>, i: nat): Version
    requires i <= |ticks|
  {
    Recorded(cfg, FileAfter(cfg, file, ticks[..i]))
  }

  /** Some tick of the run writes and falls. */
  ghost predicate FallsSomewhere(cfg: Config, file: File, ticks: seq<Tick>) {
    exists i :: 0 <= i < |ticks| && Falls(cfg, FileAfter(cfg, file, ticks[..i]), ticks[i])
  }

  lemma RecordAtIsCanonical(cfg: Config, file: File, ticks: seq<Tick>, i: nat)
    requires i <= |ticks|
    ensures Canonical(RecordAt(cfg, file, ticks, i))
  {
    RecordedIsCanonical(cfg, FileAfter(cfg, file, ticks[..i]));
  }

  lemma NotBeforeChain(a: Version, b: Version, c: Version)
    requires Canonical(a) && Canonical(b) && Canonical(c)
    requires a == b || !Before(b, a)
    requires b == c || !Before(c, b)
    ensures !Before(c, a)
  {
    hide Before, Compare;
    CompareIsBefore(a, b);
    CompareIsBefore(b, c);
    CompareIsBefore(a, c);
    CompareTotalOrder(a, b, c);
    CompareTotalOrder(a, c, c);
  }

  lemma {:induction false} StepsUp(cfg: Config, file: File, ticks: seq<Tick>, i: nat, j: nat)
    requires i <= j <= |ticks|
    requires forall k :: 0 <= k < |ticks| ==> !Before(RecordAt(cfg, file, ticks, k + 1), RecordAt(cfg, file, ticks, k))
    ensures !Before(RecordAt(cfg, file, ticks, j), RecordAt(cfg, file, ticks, i))
    decreases j - i
  {
    hide RecordAt;
    RecordAtIsCanonical(cfg, file, ticks, i);
    RecordAtIsCanonical(cfg, file, ticks, j);
    if i == j {
      NotBeforeChain(RecordAt(cfg, file, ticks, i), RecordAt(cfg, file, ticks, i), RecordAt(cfg, file, ticks, i));
    } else {
      hide Before;
      StepsUp(cfg, file, ticks, i, j - 1);
      RecordAtIsCanonical(cfg, file, ticks, j - 1);
      assert !Before(RecordAt(cfg, file, ticks, j - 1 + 1), RecordAt(cfg, file, ticks, j - 1));
      NotBeforeChain(RecordAt(cfg, file, ticks, i), RecordAt(cfg, file, ticks, j - 1), RecordAt(cfg, file, ticks, j));
    }
  }

  /** Over a run: the version never goes down, between whatever two moments, exactly when no single write falls. */
  lemma NeverDownExactly(cfg: Config, file: File, ticks: seq<Tick>)
    ensures (forall i, j :: 0 <= i <= j <= |ticks| ==>
                              !Before(RecordAt(cfg, file, ticks, j), RecordAt(cfg, file, ticks, i)))
       <==> !FallsSomewhere(cfg, file, ticks)
  {
    hide Before, Falls;
    forall i | 0 <= i < |ticks|
      ensures Before(RecordAt(cfg, file, ticks, i + 1), RecordAt(cfg, file, ticks, i))
         <==> Falls(cfg, FileAfter(cfg, file, ticks[..i]), ticks[i])
    {
      RunOneMore(cfg, file, ticks, i);
      GoesDownExactly(cfg, FileAfter(cfg, file, ticks[..i]), ticks[i]);
    }
    if FallsSomewhere(cfg, file, ticks) {
      var i :| 0 <= i < |ticks| && Falls(cfg, FileAfter(cfg, file, ticks[..i]), ticks[i]);
      assert Before(RecordAt(cfg, file, ticks, i + 1), RecordAt(cfg, file, ticks, i));
    } else {
      forall i, j | 0 <= i <= j <= |ticks|
        ensures !Before(RecordAt(cfg, file, ticks, j), RecordAt(cfg, file, ticks, i))
      {
        StepsUp(cfg, file, ticks, i, j);
      }
    }
  }

  /**
   Over any run on ordinary storage, the recorded version never decreases, it has strictly increased
   once an apply has succeeded with a version file, and without permission for major steps its major
   number is fixed.
   */
  lemma {:induction false} RunMovesForward(cfg: Config, file: File, ticks: seq<Tick>)
    requires OrdinaryWrites(cfg, file, ticks)
    ensures var old', now := Recorded(cfg, file), Recorded(cfg, FileAfter(cfg, file, ticks));
            && Compare(old', now) <= 0
            && (Completions(cfg, file, ticks) == 0 ==> now == old')
            && (Successes(cfg, file, ticks) > 0 && cfg.versionFile != "" ==> Compare(old', now) < 0)
            && (!cfg.allowMajor ==> now.major == old'.major)
    decreases ticks
  {
    hide TickOutcome, Recorded, Compare, Succeeds, Completes, OrdinaryWrite;
    RecordedIsCanonical(cfg, file);
    if ticks == [] {
      CompareTotalOrder(Recorded(cfg, file), Recorded(cfg, file), Recorded(cfg, file));
    } else {
      var next := TickOutcome(cfg, file, ticks[0]).file;
      TickMovesForward(cfg, file, ticks[0]);
      RunMovesForward(cfg, next, ticks[1..]);
      RecordedIsCanonical(cfg, next);
      RecordedIsCanonical(cfg, FileAfter(cfg, next, ticks[1..]));
      CompareTotalOrder(Recorded(cfg, file), Recorded(cfg, next), Recorded(cfg, FileAfter(cfg, next, ticks[1..])));
    }
  }

  lemma {:induction false} OrdinaryParts(cfg: Config, file: File, a: seq<Tick>, b: seq<Tick>)
    requires OrdinaryWrites(cfg, file, a + b)
    ensures OrdinaryWrites(cfg, file, a) && OrdinaryWrites(cfg, FileAfter(cfg, file, a), b)
    decreases a
  {
    hide TickOutcome, OrdinaryWrite;
    if a == [] {
      assert a + b == b;
    } else {
      assert (a + b)[1..] == a[1..] + b;
      OrdinaryParts(cfg, TickOutcome(cfg, file, a[0]).file, a[1..], b);
    }
  }

  /** Between any two moments of one run. */
  lemma NeverDowngrades(cfg: Config, file: File, ticks: seq<Tick>, i: nat, j: nat)
    requires i <= j <= |ticks| && OrdinaryWrites(cfg, file, ticks)
    ensures var earlier, later := RecordAt(cfg, file, ticks, i), RecordAt(cfg, file, ticks, j);
            !Before(later, earlier) && (!cfg.allowMajor ==> later.major == earlier.major)
  {
    hide OrdinaryWrites;
    assert ticks == ticks[..j] + ticks[j..];
    OrdinaryParts(cfg, file, ticks[..j], ticks[j..]);
    assert ticks[..j] == ticks[..i] + ticks[i..j];
    OrdinaryParts(cfg, file, ticks[..i], ticks[i..j]);
    RunConcat(cfg, file, ticks[..i], ticks[i..j]);
    var mid := FileAfter(cfg, file, ticks[..i]);
    RunMovesForward(cfg, mid, ticks[i..j]);
    RecordedIsCanonical(cfg, mid);
    RecordedIsCanonical(cfg, FileAfter(cfg, mid, ticks[i..j]));
    CompareIsBefore(Recorded(cfg, mid), Recorded(cfg, FileAfter(cfg, mid, ticks[i..j])));
  }

  // ---- A manifest that does not change

  /** From this file, the version is an allowed step up. */
  ghost predicate Applicable(cfg: Config, file: File, v: Version) {
    Before(Recorded(cfg, file), v) && MajorAllowed(cfg, Recorded(cfg, file), v)
  }

  /** Nothing that the ticks announce is an allowed step up. */
  ghost predicate NoneApplicable(cfg: Config, file: File, ticks: seq<Tick>) {
    forall i :: 0 <= i < |ticks| && Announced(cfg, ticks[i]).Some? ==>
                  !Applicable(cfg, file, Announced(cfg, ticks[i]).value)
  }

  lemma IdleTick(cfg: Config, file: File, tick: Tick)
    requires Announced(cfg, tick).Some? ==> !Applicable(cfg, file, Announced(cfg, tick).value)
    ensures !Completes(cfg, file, tick) && !Succeeds(cfg, file, tick) && TickOutcome(cfg, file, tick).file == file
  {
    DecisionExactly(cfg, file, tick);
    hide CheckOnce, Recorded, Before, Announced;
  }

  /** When no announced version is an allowed step up, nothing is applied and the file stays. */
  lemma {:induction false} IdleRun(cfg: Config, file: File, ticks: seq<Tick>)
    requires NoneApplicable(cfg, file, ticks)
    ensures Successes(cfg, file, ticks) == 0 && Completions(cfg, file, ticks) == 0
    ensures FileAfter(cfg, file, ticks) == file
    decreases ticks
  {
    hide TickOutcome, Announced, Applicable, Succeeds, Completes;
    if ticks == [] {
    } else {
      IdleTick(cfg, file, ticks[0]);
      IdleRun(cfg, file, ticks[1..]);
    }
  }

  /**
   Without permission for major steps the updater is blocked for good when every announced version
   has another major number than the record, as after a write that left the file empty.
   */
  lemma BlockedForGood(cfg: Config, file: File, ticks: seq<Tick>)
    requires !cfg.allowMajor
    requires forall i :: 0 <= i < |ticks| && Announced(cfg, ticks[i]).Some? ==>
                           Announced(cfg, ticks[i]).value.major != Recorded(cfg, file).major
    ensures Completions(cfg, file, ticks) == 0 && FileAfter(cfg, file, ticks) == file
  {
    hide Announced, Recorded, Before;
    IdleRun(cfg, file, ticks);
  }

  /** Each tick's channel announces this version or, when the download fails, nothing. */
  ghost predicate Announces(cfg: Config, ticks: seq<Tick>, v: Version) {
    forall i :: 0 <= i < |ticks| ==> Announced(cfg, ticks[i]).None? || Announced(cfg, ticks[i]) == Some(v)
  }

  /** An update that went through script and health check was an allowed step to the announced version. */
  lemma CompletedTick(cfg: Config, file: File, tick: Tick)
    requires Completes(cfg, file, tick)
    ensures Announced(cfg, tick).Some? && Applicable(cfg, file, Announced(cfg, tick).value)
    ensures TickOutcome(cfg, file, tick).file == FileLeft(cfg, file, tick)
    ensures Succeeds(cfg, file, tick) <==> cfg.versionFile == "" || tick.writeOk
  {
    DecisionExactly(cfg, file, tick);
    RecordAfterTick(cfg, file, tick);
    hide CheckOnce, Recorded, Before, Announced, InWindow, TickOutcome, FailsBeforeWrite;
  }

  /** A tick that runs an update does so from exactly those files from which it is an allowed step up. */
  lemma CompletesAgainExactly(cfg: Config, file: File, tick: Tick, next: File)
    requires Completes(cfg, file, tick)
    ensures Announced(cfg, tick).Some?
    ensures Completes(cfg, next, tick) <==> Applicable(cfg, next, Announced(cfg, tick).value)
  {
    DecisionExactly(cfg, file, tick);
    DecisionExactly(cfg, next, tick);
    hide CheckOnce, Recorded, Before, Announced, InWindow, FailsBeforeWrite;
  }

  ghost function Repeat(tick: Tick, n: nat): (ticks: seq<Tick>)
    ensures |ticks| == n && forall i :: 0 <= i < n ==> ticks[i] == tick
  {
    if n == 0 then [] else [tick] + Repeat(tick, n - 1)
  }

  /**
   How often the same tick runs the update: every time, if what the file reads as afterwards leaves
   it an allowed step, and once otherwise. It reports success each time or, with a failing write, never.
   */
  lemma {:induction false} RepeatedTickExactly(cfg: Config, file: File, tick: Tick, n: nat)
    requires Completes(cfg, file, tick) && n >= 1
    ensures Announced(cfg, tick).Some?
    ensures var again := Applicable(cfg, FileLeft(cfg, file, tick), Announced(cfg, tick).value);
            && Completions(cfg, file, Repeat(tick, n)) == (if again then n else 1)
            && Successes(cfg, file, Repeat(tick, n))
            == (if cfg.versionFile != "" && !tick.writeOk then 0 else if again then n else 1)
    decreases n
  {
    hide TickOutcome, Completes, Succeeds, Announced, Applicable;
    var next, rest := FileLeft(cfg, file, tick), Repeat(tick, n)[1..];
    CompletedTick(cfg, file, tick);
    assert rest == Repeat(tick, n - 1);
    CompletesAgainExactly(cfg, file, tick, next);
    if !Applicable(cfg, next, Announced(cfg, tick).value) {
      IdleRun(cfg, next, rest);
    } else if n > 1 {
      RepeatedTickExactly(cfg, next, tick, n - 1);
    }
  }

  /** What later reads see after each write is one of these. */
  ghost predicate LeavesOneOf(lefts: iset<File>, ticks: seq<Tick>) {
    forall i :: 0 <= i < |ticks| ==> ticks[i].left in lefts
  }

  lemma RestOfRun(cfg: Config, ticks: seq<Tick>, v: Version, lefts: iset<File>)
    requires ticks != [] && Announces(cfg, ticks, v) && LeavesOneOf(lefts, ticks)
    ensures Announced(cfg, ticks[0]).None? || Announced(cfg, ticks[0]) == Some(v)
    ensures ticks[0].left in lefts && Announces(cfg, ticks[1..], v) && LeavesOneOf(lefts, ticks[1..])
    ensures forall next :: !Applicable(cfg, next, v) ==> NoneApplicable(cfg, next, ticks[1..])
  {
    hide Announced, Applicable;
  }

  lemma SameWithoutFile(cfg: Config, a: File, b: File, v: Version)
    requires cfg.versionFile == ""
    ensures Applicable(cfg, a, v) <==> Applicable(cfg, b, v)
  {
  }

  /** An update whose write leaves nothing more to do had a version file to write. */
  lemma SettlingTick(cfg: Config, file: File, tick: Tick, v: Version)
    requires Completes(cfg, file, tick) && (Announced(cfg, tick).None? || Announced(cfg, tick) == Some(v))
    requires !Applicable(cfg, tick.left, v)
    ensures TickOutcome(cfg, file, tick).file == tick.left && cfg.versionFile != ""
  {
    CompletedTick(cfg, file, tick);
    hide Completes, Announced, TickOutcome;
    if cfg.versionFile == "" {
      SameWithoutFile(cfg, file, tick.left, v);
    }
  }

  lemma {:induction false} AtMostOneCompletion(cfg: Config, file: File, ticks: seq<Tick>, v: Version, lefts: iset<File>)
    requires Announces(cfg, ticks, v) && LeavesOneOf(lefts, ticks)
    requires forall left :: left in lefts ==> !Applicable(cfg, left, v)
    ensures Completions(cfg, file, ticks) <= 1
    decreases ticks
  {
    hide TickOutcome, Completes, Announced, Applicable;
    if ticks == [] {
    } else {
      var next, rest := TickOutcome(cfg, file, ticks[0]).file, ticks[1..];
      RestOfRun(cfg, ticks, v, lefts);
      if Completes(cfg, file, ticks[0]) {
        SettlingTick(cfg, file, ticks[0], v);
        IdleRun(cfg, next, rest);
      } else {
        AtMostOneCompletion(cfg, next, rest, v, lefts);
      }
    }
  }

  /** What a write would leave does not matter before the write. */
  lemma SameUntilWrite(cfg: Config, file: File, tick: Tick, left: File)
    ensures var other := tick.(left := left);
            && (Completes(cfg, file, other) <==> Completes(cfg, file, tick))
            && Announced(cfg, other) == Announced(cfg, tick)
  {
    hide InWindow, Recorded, Compare, Parsed;
  }

  lemma CompletedTwice(cfg: Config, file: File, tick: Tick, v: Version)
    requires Completes(cfg, file, tick) && Announced(cfg, tick) == Some(v) && Applicable(cfg, tick.left, v)
    ensures Completions(cfg, file, Repeat(tick, 2)) == 2
  {
    RepeatedTickExactly(cfg, file, tick, 2);
    CompletedTick(cfg, file, tick);
  }

  /** A run that completes twice, when some write leaves an allowed step. */
  lemma TwiceWith(cfg: Config, file: File, tick: Tick, v: Version, lefts: iset<File>, left: File)
    returns (ticks: seq<Tick>)
    requires Completes(cfg, file, tick) && Announced(cfg, tick) == Some(v)
    requires left in lefts && Applicable(cfg, left, v)
    ensures Announces(cfg, ticks, v) && LeavesOneOf(lefts, ticks) && Completions(cfg, file, ticks) == 2
  {
    var again := tick.(left := left);
    SameUntilWrite(cfg, file, tick, left);
    hide Completes, Announced, Applicable, Completions;
    CompletedTwice(cfg, file, again, v);
    ticks := Repeat(again, 2);
  }

  lemma OnceOrMore(cfg: Config, file: File, tick: Tick, v: Version)
    requires Applicable(cfg, file, v) && Announced(cfg, tick) == Some(v)
    ensures cfg.versionFile == "" ==> Applicable(cfg, tick.left, v)
    ensures cfg.versionFile != "" ==> !Applicable(cfg, Some(Show(v) + "\n"), v)
  {
    DecisionExactly(cfg, file, tick);
    hide CheckOnce, Announced, InWindow, Parsed, TrimSpace, Show;
    if cfg.versionFile != "" {
      WrittenReadsBack(cfg, v);
      CompareIsBefore(v, v);
    }
  }

  /**
   Once per release, exactly: where one tick runs an update through script and health check, an
   unchanged manifest does so at most once in every run if and only if, whatever a write may leave
   to be read, the announced version is no allowed step any more. Without a version file the record
   is always v0.0.0, so that fails; it holds where the written text is read back.
   */
  lemma AppliedOnceExactlyWhenRecorded(cfg: Config, file: File, tick: Tick, v: Version, lefts: iset<File>)
    requires Completes(cfg, file, tick) && Announced(cfg, tick) == Some(v) && tick.left in lefts
    ensures (forall ticks :: Announces(cfg, ticks, v) && LeavesOneOf(lefts, ticks) ==>
                               Completions(cfg, file, ticks) <= 1)
       <==> forall left :: left in lefts ==> !Applicable(cfg, left, v)
    ensures cfg.versionFile == "" ==> Applicable(cfg, tick.left, v)
    ensures cfg.versionFile != "" ==> !Applicable(cfg, Some(Show(v) + "\n"), v)
  {
    CompletedTick(cfg, file, tick);
    OnceOrMore(cfg, file, tick, v);
    hide Completes, Announced, Announces, Applicable, LeavesOneOf, Completions;
    if left :| left in lefts && Applicable(cfg, left, v) {
      var again := TwiceWith(cfg, file, tick, v, lefts, left);
    } else {
      forall ticks | Announces(cfg, ticks, v) && LeavesOneOf(lefts, ticks) ensures Completions(cfg, file, ticks) <= 1 {
        AtMostOneCompletion(cfg, file, ticks, v, lefts);
      }
    }
  }

  /** After every write that succeeds, the announced version is no allowed step any more. */
  ghost predicate SuccessesSettle(cfg: Config, ticks: seq<Tick>, v: Version) {
    forall i :: 0 <= i < |ticks| && ticks[i].writeOk ==> !Applicable(cfg, ticks[i].left, v)
  }

  /** When successful writes settle the version, only one apply succeeds, whatever failed writes leave. */
  lemma {:induction false} AtMostOneSuccess(cfg: Config, file: File, ticks: seq<Tick>, v: Version)
    requires cfg.versionFile != "" && Announces(cfg, ticks, v) && SuccessesSettle(cfg, ticks, v)
    ensures Successes(cfg, file, ticks) <= 1
    decreases ticks
  {
    hide TickOutcome, Completes, Succeeds, Announced, Applicable;
    if ticks == [] {
    } else {
      var next := TickOutcome(cfg, file, ticks[0]).file;
      RecordAfterTick(cfg, file, ticks[0]);
      if Succeeds(cfg, file, ticks[0]) {
        CompletedTick(cfg, file, ticks[0]);
        IdleRun(cfg, next, ticks[1..]);
      } else {
        AtMostOneSuccess(cfg, next, ticks[1..], v);
      }
    }
  }

  /** An update that went through script and health check either succeeds or loses its write. */
  lemma {:induction false} CompletionsCounted(cfg: Config, file: File, ticks: seq<Tick>)
    ensures Completions(cfg, file, ticks) == Successes(cfg, file, ticks) + LostWrites(cfg, file, ticks)
    decreases ticks
  {
    hide TickOutcome, Succeeds, Completes, LosesWrite;
    if ticks == [] {
    } else {
      RecordAfterTick(cfg, file, ticks[0]);
      CompletionsCounted(cfg, TickOutcome(cfg, file, ticks[0]).file, ticks[1..]);
    }
  }

  /** The unchanged manifest goes through script and health check at most once more often than a write fails. */
  lemma CompletionsBounded(cfg: Config, file: File, ticks: seq<Tick>, v: Version)
    requires cfg.versionFile != "" && Announces(cfg, ticks, v) && SuccessesSettle(cfg, ticks, v)
    ensures Completions(cfg, file, ticks) <= 1 + LostWrites(cfg, file, ticks)
  {
    CompletionsCounted(cfg, file, ticks);
    AtMostOneSuccess(cfg, file, ticks, v);
  }
}
