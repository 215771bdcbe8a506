/** Inputs at which "once per release", "the version never goes down" and "a failure is rolled back" fail. */
module UpdaterInputs {
  import opened Prelude
  import opened GoStrings
  import opened Decimal
  import opened Semver
  import opened Updater
  import opened UpdaterSafety

  const INSTALLED := Version(1, 0, 0, "")
  const RELEASE := Version(1, 0, 1, "")

  function Settings(path: string, allowMajor: bool, healthUrl: string): Config {
    Config("stable", path, allowMajor, "", ["update.sh"], ["rollback.sh"], healthUrl, 0)
  }

  /** The release is announced, its script succeeds; the rest is given. */
  function Offer(polls: seq<Poll>, writeOk: bool, left: File): Tick {
    Tick(Some(map["stable" := "v1.0.1"]), 0, true, 0, polls, false, true, writeOk, left)
  }

  lemma Digits()
    ensures PrintInt(0) == "0" && PrintInt(1) == "1"
  {
  }

  lemma Texts()
    ensures Show(INSTALLED) == "v1.0.0" && Show(RELEASE) == "v1.0.1"
    ensures Canonical(INSTALLED) && Canonical(RELEASE)
    ensures Parsed("v1.0.1") == Some(RELEASE)
  {
    hide PrintInt, Parsed;
    Digits();
    assert Numbers(INSTALLED) == "1.0.0" && Numbers(RELEASE) == "1.0.1";
    ParseOfShow(RELEASE);
  }

  lemma NothingReadsAsZero(cfg: Config)
    ensures Recorded(cfg, Some("")) == ZERO
  {
    assert TrimLeft("") == "" && TrimRight("") == "";
    assert TrimPrefix("", "v") == "" && ParsedRaw("").None?;
  }

  lemma InstalledReads(cfg: Config)
    requires cfg.versionFile != ""
    ensures Recorded(cfg, Some("v1.0.0\n")) == INSTALLED
  {
    hide Parsed, TrimSpace, Show, Recorded;
    Texts();
    WrittenReadsBack(cfg, INSTALLED);
    assert "v1.0.0" + "\n" == "v1.0.0\n";
  }

  /** The release is applied wherever it is an allowed step. */
  lemma OfferApplies(path: string, allowMajor: bool, healthUrl: string, file: File, tick: Tick)
    requires tick.fetch == Some(map["stable" := "v1.0.1"])
    requires Applicable(Settings(path, allowMajor, healthUrl), file, RELEASE)
    ensures var cfg := Settings(path, allowMajor, healthUrl);
            && Announced(cfg, tick) == Some(RELEASE) && CheckOnce(cfg, file, tick).0.action == Apply
            && (tick.applyOk && healthUrl == "" ==> Completes(cfg, file, tick))
  {
    Texts();
    var cfg := Settings(path, allowMajor, healthUrl);
    DecisionExactly(cfg, file, tick);
    assert InWindow("", tick.minutes);
    hide Parsed, Recorded, Before, InWindow, CheckOnce;
  }

  /**
   A failed write that empties the file: the version goes down from v1.0.0 to v0.0.0, and the
   release, now a major step, is not applied any more.
   */
  lemma EmptiedFileGoesDown(n: nat)
    requires n >= 1
    ensures var cfg, file, tick := Settings("VERSION", false, ""), Some("v1.0.0\n"), Offer([], false, Some(""));
            && LosesWrite(cfg, file, tick) && Falls(cfg, file, tick)
            && Recorded(cfg, file) == INSTALLED && Recorded(cfg, TickOutcome(cfg, file, tick).file) == ZERO
            && Completions(cfg, file, Repeat(tick, n)) == 1
  {
    var cfg, file, tick := Settings("VERSION", false, ""), Some("v1.0.0\n"), Offer([], false, Some(""));
    InstalledReads(cfg);
    NothingReadsAsZero(cfg);
    OfferApplies("VERSION", false, "", file, tick);
    hide Recorded, Announced, CheckOnce, BecameHealthy, TickOutcome, Completions;
    RecordAfterTick(cfg, file, tick);
    RepeatedTickExactly(cfg, file, tick, n);
  }

  /** A file that cannot be written keeps v1.0.0: the release is applied in every tick and never reported a success. */
  lemma UnwritableFileRepeats(n: nat)
    requires n >= 1
    ensures var cfg, file := Settings("VERSION", false, ""), Some("v1.0.0\n");
            var run := Repeat(Offer([], false, file), n);
            Completions(cfg, file, run) == n && Successes(cfg, file, run) == 0
  {
    var cfg, file := Settings("VERSION", false, ""), Some("v1.0.0\n");
    InstalledReads(cfg);
    OfferApplies("VERSION", false, "", file, Offer([], false, file));
    hide Recorded, Announced, CheckOnce, Completes, Completions, Successes;
    RepeatedTickExactly(cfg, file, Offer([], false, file), n);
  }

  /**
   With permission for major steps and no version file, or one that is written without error and
   reads back empty as /dev/null does, the release is applied successfully in every tick.
   */
  lemma UnreadRecordRepeats(path: string, n: nat)
    requires n >= 1
    ensures var cfg, file := Settings(path, true, ""), Some(""); var run := Repeat(Offer([], true, file), n);
            Completions(cfg, file, run) == n && Successes(cfg, file, run) == n
  {
    var cfg, file := Settings(path, true, ""), Some("");
    NothingReadsAsZero(cfg);
    OfferApplies(path, true, "", file, Offer([], true, file));
    hide Recorded, Announced, CheckOnce, Completes, Completions, Successes;
    RepeatedTickExactly(cfg, file, Offer([], true, file), n);
  }

  lemma CancelledAtOnce(cfg: Config, tick: Tick)
    requires cfg.healthUrl != "" && cfg.healthTimeout == 0
    requires tick.healthStart == 0 && tick.polls == [Poll(0, Some(503), true)]
    ensures WaitCancelled(cfg, tick) && !BecameHealthy(cfg, tick)
  {
    assert tick.polls[0].cancelled;
  }

  lemma UnhealthyAndCancelled(cfg: Config, file: File, tick: Tick)
    requires CheckOnce(cfg, file, tick).0.action == Apply && cfg.rollbackCmd != [] && tick.applyOk
    requires cfg.healthUrl != "" && cfg.healthTimeout == 0
    requires tick.healthStart == 0 && tick.polls == [Poll(0, Some(503), true)]
    ensures LeftUnrolled(cfg, file, tick)
  {
    CancelledAtOnce(cfg, tick);
    hide CheckOnce, WaitCancelled, BecameHealthy, LeftUnrolled;
    LeftUnrolledExactly(cfg, file, tick);
  }

  /** An unhealthy release stays in place when the context is cancelled during the wait. */
  lemma CancelledWaitSkipsRollback()
    ensures var cfg, file := Settings("VERSION", false, "http://h"), Some("v1.0.0\n");
            LeftUnrolled(cfg, file, Offer([Poll(0, Some(503), true)], true, file))
  {
    var cfg, file := Settings("VERSION", false, "http://h"), Some("v1.0.0\n");
    var tick := Offer([Poll(0, Some(503), true)], true, file);
    InstalledReads(cfg);
    OfferApplies("VERSION", false, "http://h", file, tick);
    hide Recorded, Announced, CheckOnce, LeftUnrolled, Completes;
    UnhealthyAndCancelled(cfg, file, tick);
  }

  /**
   The first check, from a missing version file: v0.0.0 is the current version, so a release of
   another major number than 0 is applied only with permission for major steps.
   */
  lemma FirstCheck(cfg: Config, tick: Tick, v: Version)
    requires tick.fetch.Some? && cfg.channel in tick.fetch.value && Parsed(tick.fetch.value[cfg.channel]) == Some(v)
    ensures var (d, err) := CheckOnce(cfg, None, tick);
            && err.None? && d.current == Version(0, 0, 0, "") && d.target == v
            && (d.action == Stay <==> v.major == 0 && v.minor == 0 && v.patch == 0)
            && (d.action == BlockedMajor <==> v.major > 0 && !cfg.allowMajor)
            && (d.action == BlockedWindow <==>
                  && (v.major == 0 || cfg.allowMajor) && (v.major > 0 || v.minor > 0 || v.patch > 0)
                  && !InWindow(cfg.window, tick.minutes))
            && (d.action == Apply <==>
                  && (v.major == 0 || cfg.allowMajor) && (v.major > 0 || v.minor > 0 || v.patch > 0)
                  && InWindow(cfg.window, tick.minutes))
  {
    DecisionExactly(cfg, None, tick);
    hide CheckOnce, InWindow, Parsed;
  }
}
