/** kernel/update/updater.go: the update decision and the apply, health and rollback machine. */
module Updater {
  import opened Prelude
  import opened GoStrings
  import opened Decimal
  import opened Semver

  datatype Action = Stay | Apply | BlockedMajor | BlockedWindow

  datatype Decision = Decision(action: Action, current: Version, target: Version)

  datatype Config = Config(
    channel: string,
    versionFile: string,
    allowMajor: bool,
    window: string,
    applyCmd: seq<string>,
    rollbackCmd: seq<string>,
    healthUrl: string,
    healthTimeout: int)

  const DEFAULT_HEALTH_TIMEOUT: int := 3 * 60 * 1_000_000_000

  datatype Error = FetchFailed | ChannelMissing | BadVersion | ApplyFailed | Unhealthy | WriteFailed

  /** One look at the health URL: the clock before it, the HTTP status (None: no answer), cancellation after it. */
  datatype Poll = Poll(now: int, status: Option<int>, cancelled: bool)

  /**
   Everything the outside world answers during one tick: the channel table of the manifest (None:
   download failed), the local time in minutes, the script results, the health probes up to the
   moment the clock passes the deadline, whether the context is cancelled otherwise than between
   probes (during the apply script, or once the wait is over), whether a write of the version file
   reports success, and what the file holds after the write, as later reads see it.
   */
  datatype Tick = Tick(
    fetch: Option<map<string, string>>,
    minutes: nat,
    applyOk: bool,
    healthStart: int,
    polls: seq<Poll>,
    stopped: bool,
    rollbackOk: bool,
    writeOk: bool,
    left: File)

  /**
   What the machine does. Scripts are recorded when they are invoked, `ok` is how the invocation ends;
   under a cancelled context a rollback script is invoked without being started.
   */
  datatype Event =
    | Decided(decision: Decision, minutes: nat)
    | ApplyScript(target: string, current: string, ok: bool)
    | HealthConfirmed
    | HealthFailed
    | RollbackScript(target: string, current: string, started: bool, ok: bool)
    | WriteVersion(text: string, ok: bool)

  /** Contents of the version file, None while it does not exist. */
  type File = Option<string>

  // ---- The recorded version

  /** `CurrentVersion`: v0.0.0 without a readable, parsable file. */
  function Recorded(cfg: Config, file: File): Version {
    if cfg.versionFile == "" || file.None? then ZERO
    else
      match Parsed(TrimSpace(file.value))
      case Some(v) => v
      case None => ZERO
  }

  lemma RecordedIsCanonical(cfg: Config, file: File)
    ensures Canonical(Recorded(cfg, file))
  {
    if cfg.versionFile != "" && file.Some? {
      ParsedIsCanonical(TrimSpace(file.value));
    }
  }

  /** The recorded version, stated by what the file holds: v0.0.0 unless there is a file that parses. */
  lemma RecordedExactly(cfg: Config, file: File, v: Version)
    ensures Recorded(cfg, file) == v <==>
              if cfg.versionFile != "" && file.Some? && Parsed(TrimSpace(file.value)).Some? then
                Parsed(TrimSpace(file.value)) == Some(v)
              else v == Version(0, 0, 0, "")
  {
    hide Parsed, TrimSpace;
  }

  // ---- The maintenance window

  function ScanThen(s: string, lit: string): Option<(int, string)> {
    match ScanInt(s)
    case None => None
    case Some((n, rest)) =>
      match ScanLiteral(rest, lit)
      case None => None
      case Some(after) => Some((n, after))
  }

  /** `Sscanf(w, "%d:%d-%d:%d")`. */
  function ScanWindow(w: string): Option<(int, int, int, int)> {
    match ScanThen(w, ":")
    case None => None
    case Some((fromH, s1)) =>
      match ScanThen(s1, "-")
      case None => None
      case Some((fromM, s2)) =>
        match ScanThen(s2, ":")
        case None => None
        case Some((toH, s3)) =>
          match ScanInt(s3)
          case None => None
          case Some((toM, _)) => Some((fromH, fromM, toH, toM))
  }

  /** A window that runs over midnight is open late and early. */
  predicate OpenAt(from: int, to: int, mins: nat) {
    if from <= to then mins >= from && mins < to else mins >= from || mins < to
  }

  function InWindow(window: string, mins: nat): bool {
    var w := TrimSpace(window);
    if w == "" then true
    else
      match ScanWindow(w)
      case None => false
      case Some((fromH, fromM, toH, toM)) =>
        OpenAt(Wrap64(fromH * 60 + fromM), Wrap64(toH * 60 + toM), mins)
  }

  ghost predicate IsNumber(s: string) {
    s != "" && AllDigits(s) && InInt64(Value(s))
  }

  lemma ScanThenOfDigits(d: string, lit: string, rest: string)
    requires IsNumber(d) && lit != "" && !IsDigit(lit[0])
    ensures ScanThen(d + (lit + rest), lit) == Some((Value(d), rest))
  {
    ScanOfDigits(d, lit + rest);
  }

  /** Hours, minutes and separators of a window as they are written. */
  function WindowText(a: string, b: string, c: string, d: string): string {
    a + (":" + (b + ("-" + (c + (":" + d)))))
  }

  lemma ScanWindowSteps(w: string, s1: string, s2: string, s3: string, a: int, b: int, c: int, d: int)
    requires ScanThen(w, ":") == Some((a, s1)) && ScanThen(s1, "-") == Some((b, s2))
    requires ScanThen(s2, ":") == Some((c, s3)) && ScanInt(s3) == Some((d, ""))
    ensures ScanWindow(w) == Some((a, b, c, d))
  {
  }

  lemma ScanWindowOfDigits(a: string, b: string, c: string, d: string)
    requires IsNumber(a) && IsNumber(b) && IsNumber(c) && IsNumber(d)
    ensures ScanWindow(WindowText(a, b, c, d)) == Some((Value(a), Value(b), Value(c), Value(d)))
  {
    var s2 := c + (":" + d);
    var s1 := b + ("-" + s2);
    ScanThenOfDigits(a, ":", s1);
    ScanThenOfDigits(b, "-", s2);
    ScanThenOfDigits(c, ":", d);
    ScanOfDigits(d, "");
    assert d + "" == d;
    ScanWindowSteps(WindowText(a, b, c, d), s1, s2, d, Value(a), Value(b), Value(c), Value(d));
  }

  /** On the day's circle, less time has passed since `from` than lies between `from` and `to`. */
  predicate WithinArc(from: int, to: int, mins: nat) {
    (mins - from) % 1440 < (to - from) % 1440
  }

  lemma ArcArithmetic(from: nat, to: nat, mins: nat)
    requires from <= 1440 && to <= 1440 && mins < 1440
    ensures OpenAt(from, to, mins) <==> WithinArc(from, to, mins) || (from == 0 && to == 1440)
  {
    assert mins < from ==> (mins - from) % 1440 == mins - from + 1440;
    assert to < from ==> (to - from) % 1440 == to - from + 1440;
  }

  lemma NothingToScan()
    ensures ScanWindow("") == None
  {
  }

  lemma InWindowScanned(window: string, fromH: int, fromM: int, toH: int, toM: int, mins: nat)
    requires ScanWindow(TrimSpace(window)) == Some((fromH, fromM, toH, toM))
    requires InInt64(fromH * 60 + fromM) && InInt64(toH * 60 + toM)
    ensures InWindow(window, mins) == OpenAt(fromH * 60 + fromM, toH * 60 + toM, mins)
  {
    NothingToScan();
    hide TrimSpace, ScanWindow, OpenAt;
  }

  ghost predicate TimeTexts(w: string, a: string, b: string, c: string, d: string, rest: string) {
    w == a + (":" + (b + ("-" + (c + (":" + (d + rest))))))
  }

  /** The text begins with four numbers as in 03:00-05:00; what comes after them is ignored. */
  ghost predicate ReadsAsWindow(w: string, fromH: int, fromM: int, toH: int, toM: int) {
    exists a: string, b: string, c: string, d: string, rest: string ::
      && TimeTexts(w, a, b, c, d, rest) && AfterNumber(rest)
      && NumberText(a, fromH) && NumberText(b, fromM) && NumberText(c, toH) && NumberText(d, toM)
  }

  lemma ScanThenExactly(s: string, lit: string, n: int, after: string)
    requires lit != "" && !IsDigit(lit[0])
    ensures ScanThen(s, lit) == Some((n, after)) <==> exists t: string :: s == t + (lit + after) && NumberText(t, n)
  {
    hide ScanInt, NumberText;
    ScanIntExactly(s, n, lit + after);
    if ScanThen(s, lit) == Some((n, after)) {
      assert ScanInt(s).value.1 == lit + after;
    }
    if ScanInt(s) == Some((n, lit + after)) {
      assert (lit + after)[|lit|..] == after;
    }
  }

  lemma WindowReads(w: string, fromH: int, fromM: int, toH: int, toM: int)
    requires ScanWindow(w) == Some((fromH, fromM, toH, toM))
    ensures ReadsAsWindow(w, fromH, fromM, toH, toM)
  {
    hide ScanInt, ScanThen, NumberText;
    var s1 := ScanThen(w, ":").value.1;
    var s2 := ScanThen(s1, "-").value.1;
    var s3 := ScanThen(s2, ":").value.1;
    var rest := ScanInt(s3).value.1;
    ScanThenExactly(w, ":", fromH, s1);
    ScanThenExactly(s1, "-", fromM, s2);
    ScanThenExactly(s2, ":", toH, s3);
    ScanIntExactly(s3, toM, rest);
    var a: string :| w == a + (":" + s1) && NumberText(a, fromH);
    var b: string :| s1 == b + ("-" + s2) && NumberText(b, fromM);
    var c: string :| s2 == c + (":" + s3) && NumberText(c, toH);
    var d: string :| s3 == d + rest && NumberText(d, toM);
    assert TimeTexts(w, a, b, c, d, rest);
  }

  lemma WindowOfTexts(w: string, fromH: int, fromM: int, toH: int, toM: int)
    requires ReadsAsWindow(w, fromH, fromM, toH, toM)
    ensures ScanWindow(w) == Some((fromH, fromM, toH, toM))
  {
    hide ScanInt, ScanThen, NumberText;
    var a: string, b: string, c: string, d: string, rest: string :|
      && TimeTexts(w, a, b, c, d, rest) && AfterNumber(rest)
      && NumberText(a, fromH) && NumberText(b, fromM) && NumberText(c, toH) && NumberText(d, toM);
    var s3 := d + rest;
    var s2 := c + (":" + s3);
    var s1 := b + ("-" + s2);
    ScanThenExactly(w, ":", fromH, s1);
    ScanThenExactly(s1, "-", fromM, s2);
    ScanThenExactly(s2, ":", toH, s3);
    ScanIntExactly(s3, toM, rest);
  }

  /**
   When a window is open, for every text: always without one, never when it does not read as four
   numbers, and otherwise between its ends, also over midnight.
   */
  lemma InWindowExactly(window: string, mins: nat)
    ensures TrimSpace(window) == "" ==> InWindow(window, mins)
    ensures TrimSpace(window) != "" ==>
              (InWindow(window, mins) ==> exists fromH, fromM, toH, toM ::
                   ReadsAsWindow(TrimSpace(window), fromH, fromM, toH, toM))
    ensures forall fromH, fromM, toH, toM :: ReadsAsWindow(TrimSpace(window), fromH, fromM, toH, toM) ==>
              var from, to := Wrap64(fromH * 60 + fromM), Wrap64(toH * 60 + toM);
              InWindow(window, mins) <==> if from <= to then from <= mins < to else mins >= from || mins < to
  {
    var w := TrimSpace(window);
    hide ScanWindow, ReadsAsWindow, Wrap64, TrimSpace;
    if w != "" && InWindow(window, mins) {
      var (fromH, fromM, toH, toM) := ScanWindow(w).value;
      WindowReads(w, fromH, fromM, toH, toM);
    }
    forall fromH, fromM, toH, toM | ReadsAsWindow(w, fromH, fromM, toH, toM)
      ensures var from, to := Wrap64(fromH * 60 + fromM), Wrap64(toH * 60 + toM);
              InWindow(window, mins) <==> if from <= to then from <= mins < to else mins >= from || mins < to
    {
      WindowOfTexts(w, fromH, fromM, toH, toM);
      NothingToScan();
    }
  }

  /**
   A window written as HH:MM-HH:MM, up to 24:00, is a half-open arc of the day's circle, also over
   midnight. Equal ends give an empty window; only 00:00-24:00 goes all the way round.
   */
  lemma WindowIsArc(window: string, a: string, b: string, c: string, d: string, mins: nat)
    requires IsNumber(a) && IsNumber(b) && IsNumber(c) && IsNumber(d) && mins < 1440
    requires TrimSpace(window) == WindowText(a, b, c, d)
    requires Value(a) * 60 + Value(b) <= 1440 && Value(c) * 60 + Value(d) <= 1440
    ensures var from, to := Value(a) * 60 + Value(b), Value(c) * 60 + Value(d);
            InWindow(window, mins) <==> WithinArc(from, to, mins) || (from == 0 && to == 1440)
  {
    hide InWindow, ScanWindow, TrimSpace, WindowText, Value, OpenAt, WithinArc;
    ScanWindowOfDigits(a, b, c, d);
    var from: nat, to: nat := Value(a) * 60 + Value(b), Value(c) * 60 + Value(d);
    hide IsNumber;
    InWindowScanned(window, Value(a), Value(b), Value(c), Value(d), mins);
    ArcArithmetic(from, to, mins);
  }

  // ---- The decision

  function CheckOnce(cfg: Config, file: File, tick: Tick): (Decision, Option<Error>) {
    var cur := Recorded(cfg, file);
    match tick.fetch
    case None => (Decision(Stay, cur, ZERO), Some(FetchFailed))
    case Some(channels) =>
      if cfg.channel !in channels then (Decision(Stay, cur, ZERO), Some(ChannelMissing))
      else
        match Parsed(channels[cfg.channel])
        case None => (Decision(Stay, cur, ZERO), Some(BadVersion))
        case Some(target) =>
          var action :=
            if Compare(target, cur) <= 0 then Stay
            else if target.major > cur.major && !cfg.allowMajor then BlockedMajor
            else if !InWindow(cfg.window, tick.minutes) then BlockedWindow
            else Apply;
          (Decision(action, cur, target), None)
  }

  /** The version that the tick's manifest announces on the configured channel. */
  function Announced(cfg: Config, tick: Tick): Option<Version> {
    if tick.fetch.Some? && cfg.channel in tick.fetch.value then Parsed(tick.fetch.value[cfg.channel]) else None
  }

  ghost predicate MajorAllowed(cfg: Config, from: Version, to: Version) {
    cfg.allowMajor || to.major == from.major
  }

  /**
   Every outcome of the check, exactly: an error without a usable announcement; no action without a
   newer version; the two refusals in their order; and an update only inside the window.
   */
  lemma DecisionExactly(cfg: Config, file: File, tick: Tick)
    ensures var (d, err) := CheckOnce(cfg, file, tick);
            var cur, announced := Recorded(cfg, file), Announced(cfg, tick);
            && d.current == cur
            && (err.None? <==> announced.Some?)
            && (announced.None? ==> d.action == Stay)
            && (announced.Some? ==>
                  var v := announced.value;
                  && d.target == v && Canonical(v)
                  && (d.action == Stay <==> !Before(cur, v))
                  && (d.action == BlockedMajor <==> Before(cur, v) && !MajorAllowed(cfg, cur, v))
                  && (d.action == BlockedWindow <==>
                        Before(cur, v) && MajorAllowed(cfg, cur, v) && !InWindow(cfg.window, tick.minutes))
                  && (d.action == Apply <==>
                        Before(cur, v) && MajorAllowed(cfg, cur, v) && InWindow(cfg.window, tick.minutes)))
  {
    RecordedIsCanonical(cfg, file);
    var announced := Announced(cfg, tick);
    if announced.Some? {
      ParsedIsCanonical(tick.fetch.value[cfg.channel]);
      CompareIsBefore(announced.value, Recorded(cfg, file));
      CompareIsBefore(Recorded(cfg, file), announced.value);
    }
    hide Recorded, Parsed, Compare, InWindow;
  }

  /** The errors and decisions of the check, stated by the manifest, the versions, the permission and the window. */
  lemma CheckExactly(cfg: Config, file: File, tick: Tick)
    ensures var (d, err) := CheckOnce(cfg, file, tick);
            && d.current == Recorded(cfg, file)
            && (err == Some(FetchFailed) <==> tick.fetch.None?)
            && (err == Some(ChannelMissing) <==> tick.fetch.Some? && cfg.channel !in tick.fetch.value)
            && (err == Some(BadVersion) <==>
                  && tick.fetch.Some? && cfg.channel in tick.fetch.value
                  && Parsed(tick.fetch.value[cfg.channel]).None?)
            && (err.Some? ==> d.action == Stay && err.value in {FetchFailed, ChannelMissing, BadVersion})
            && (err.None? ==>
                  && Parsed(tick.fetch.value[cfg.channel]) == Some(d.target)
                  && (d.action == Stay <==> !Before(d.current, d.target))
                  && (d.action == BlockedMajor <==>
                        Before(d.current, d.target) && d.target.major > d.current.major && !cfg.allowMajor)
                  && (d.action == BlockedWindow <==>
                        && Before(d.current, d.target) && (d.target.major == d.current.major || cfg.allowMajor)
                        && !InWindow(cfg.window, tick.minutes)))
  {
    DecisionExactly(cfg, file, tick);
    hide Recorded, Parsed, Compare, InWindow;
  }

  // ---- Waiting for health

  function Deadline(cfg: Config, tick: Tick): int {
    tick.healthStart + (if cfg.healthTimeout == 0 then DEFAULT_HEALTH_TIMEOUT else cfg.healthTimeout)
  }

  /** A probe that leaves the loop running. */
  predicate KeepsWaiting(p: Poll, deadline: int) {
    p.now < deadline && p.status != Some(200) && !p.cancelled
  }

  /** Some probe before the deadline answered 200, and all earlier ones kept the loop waiting. */
  ghost predicate BecameHealthy(cfg: Config, tick: Tick) {
    cfg.healthUrl == "" ||
    exists k :: 0 <= k < |tick.polls| && tick.polls[k].now < Deadline(cfg, tick) && tick.polls[k].status == Some(200)
                && forall j :: 0 <= j < k ==> KeepsWaiting(tick.polls[j], Deadline(cfg, tick))
  }

  /** The wait is ended by cancellation, before the deadline and before any answer of 200. */
  ghost predicate WaitCancelled(cfg: Config, tick: Tick) {
    cfg.healthUrl != "" &&
    exists k :: 0 <= k < |tick.polls| && tick.polls[k].now < Deadline(cfg, tick) && tick.polls[k].status != Some(200)
                && tick.polls[k].cancelled
                && forall j :: 0 <= j < k ==> KeepsWaiting(tick.polls[j], Deadline(cfg, tick))
  }

  /** Before probe `k`, at less than the timeout (three minutes if none is set), nothing has ended the wait. */
  ghost predicate StillWaiting(cfg: Config, tick: Tick, k: nat) {
    && k < |tick.polls|
    && var timeout := if cfg.healthTimeout == 0 then 180_000_000_000 else cfg.healthTimeout;
       && tick.polls[k].now < tick.healthStart + timeout
       && forall j :: 0 <= j < k ==>
                        && tick.polls[j].now < tick.healthStart + timeout
                        && tick.polls[j].status != Some(200) && !tick.polls[j].cancelled
  }

  lemma WaitExactly(cfg: Config, tick: Tick)
    ensures BecameHealthy(cfg, tick) <==>
              cfg.healthUrl == "" || exists k: nat :: StillWaiting(cfg, tick, k) && tick.polls[k].status == Some(200)
    ensures WaitCancelled(cfg, tick) <==>
              && cfg.healthUrl != ""
              && exists k: nat ::
                   StillWaiting(cfg, tick, k) && tick.polls[k].status != Some(200) && tick.polls[k].cancelled
  {
    assert forall k :: 0 <= k < |tick.polls| ==>
                         (StillWaiting(cfg, tick, k) <==>
                            && tick.polls[k].now < Deadline(cfg, tick)
                            && forall j :: 0 <= j < k ==> KeepsWaiting(tick.polls[j], Deadline(cfg, tick)));
  }

  /** The probing loop decides exactly that. */
  method Probe(cfg: Config, tick: Tick) returns (healthy: bool, cancelled: bool)
    ensures healthy <==> BecameHealthy(cfg, tick)
    ensures cancelled <==> WaitCancelled(cfg, tick)
    ensures healthy <==>
              cfg.healthUrl == "" || exists k: nat :: StillWaiting(cfg, tick, k) && tick.polls[k].status == Some(200)
    ensures cancelled <==>
              && cfg.healthUrl != ""
              && exists k: nat ::
                   StillWaiting(cfg, tick, k) && tick.polls[k].status != Some(200) && tick.polls[k].cancelled
    ensures !(healthy && cancelled)
  {
    WaitExactly(cfg, tick);
    if cfg.healthUrl == "" {
      return true, false;
    }
    var deadline := Deadline(cfg, tick);
    var i := 0;
    while i < |tick.polls| && tick.polls[i].now < deadline
      invariant 0 <= i <= |tick.polls|
      invariant forall j :: 0 <= j < i ==> KeepsWaiting(tick.polls[j], deadline)
    {
      if tick.polls[i].status == Some(200) {
        return true, false;
      }
      if tick.polls[i].cancelled {
        return false, true;
      }
      i := i + 1;
    }
    return false, false;
  }

  // ---- Applying

  datatype Outcome = Outcome(file: File, err: Option<Error>, events: seq<Event>)

  /** The context is cancelled when a rollback would start. */
  ghost predicate ContextDone(cfg: Config, tick: Tick) {
    tick.stopped || (tick.applyOk && WaitCancelled(cfg, tick))
  }

  function RollbackEvent(d: Decision, started: bool, ok: bool): Event {
    RollbackScript(Show(d.target), Show(d.current), started, started && ok)
  }

  ghost function RollbackEvents(cfg: Config, d: Decision, tick: Tick): seq<Event> {
    if cfg.rollbackCmd == [] then [] else [RollbackEvent(d, !ContextDone(cfg, tick), tick.rollbackOk)]
  }

  function HealthEvents(cfg: Config, healthy: bool): seq<Event> {
    if cfg.healthUrl == "" then [] else if healthy then [HealthConfirmed] else [HealthFailed]
  }

  ghost function ApplyOutcome(cfg: Config, file: File, d: Decision, tick: Tick): Outcome {
    var script := [ApplyScript(Show(d.target), Show(d.current), tick.applyOk)];
    var health := script + HealthEvents(cfg, BecameHealthy(cfg, tick));
    var text := Show(d.target) + "\n";
    if !tick.applyOk then Outcome(file, Some(ApplyFailed), script + RollbackEvents(cfg, d, tick))
    else if !BecameHealthy(cfg, tick) then Outcome(file, Some(Unhealthy), health + RollbackEvents(cfg, d, tick))
    else if cfg.versionFile == "" then Outcome(file, None, health)
    else
      Outcome(tick.left, if tick.writeOk then None else Some(WriteFailed), health + [WriteVersion(text, tick.writeOk)])
  }

  ghost function TickOutcome(cfg: Config, file: File, tick: Tick): Outcome {
    var (d, err) := CheckOnce(cfg, file, tick);
    if err.Some? then Outcome(file, err, [])
    else if d.action == Apply then
      var o := ApplyOutcome(cfg, file, d, tick);
      o.(events := [Decided(d, tick.minutes)] + o.events)
    else Outcome(file, None, [Decided(d, tick.minutes)])
  }

  /** The script or the health check of an apply fails. */
  ghost predicate FailsBeforeWrite(cfg: Config, tick: Tick) {
    !tick.applyOk || !BecameHealthy(cfg, tick)
  }

  /** The tick runs an update through script and health check. */
  ghost predicate Completes(cfg: Config, file: File, tick: Tick) {
    CheckOnce(cfg, file, tick).0.action == Apply && !FailsBeforeWrite(cfg, tick)
  }

  /** The tick runs an update and then writes the version file, with or without success. */
  ghost predicate Writes(cfg: Config, file: File, tick: Tick) {
    Completes(cfg, file, tick) && cfg.versionFile != ""
  }

  /** The write is reported to have failed. */
  ghost predicate LosesWrite(cfg: Config, file: File, tick: Tick) {
    Writes(cfg, file, tick) && !tick.writeOk
  }

  /** The tick applied an update and reported success. */
  ghost predicate Succeeds(cfg: Config, file: File, tick: Tick) {
    CheckOnce(cfg, file, tick).0.action == Apply && TickOutcome(cfg, file, tick).err.None?
  }

  ghost function FileAfter(cfg: Config, file: File, ticks: seq<Tick>): File
    decreases ticks
  {
    if ticks == [] then file else FileAfter(cfg, TickOutcome(cfg, file, ticks[0]).file, ticks[1..])
  }

  ghost function TraceOf(cfg: Config, file: File, ticks: seq<Tick>): seq<Event>
    decreases ticks
  {
    if ticks == [] then []
    else TickOutcome(cfg, file, ticks[0]).events + TraceOf(cfg, TickOutcome(cfg, file, ticks[0]).file, ticks[1..])
  }

  ghost function Successes(cfg: Config, file: File, ticks: seq<Tick>): nat
    decreases ticks
  {
    if ticks == [] then 0
    else (if Succeeds(cfg, file, ticks[0]) then 1 else 0)
         + Successes(cfg, TickOutcome(cfg, file, ticks[0]).file, ticks[1..])
  }

  /** How many updates were run through script and health check. */
  ghost function Completions(cfg: Config, file: File, ticks: seq<Tick>): nat
    decreases ticks
  {
    if ticks == [] then 0
    else (if Completes(cfg, file, ticks[0]) then 1 else 0)
         + Completions(cfg, TickOutcome(cfg, file, ticks[0]).file, ticks[1..])
  }

  ghost function LostWrites(cfg: Config, file: File, ticks: seq<Tick>): nat
    decreases ticks
  {
    if ticks == [] then 0
    else (if LosesWrite(cfg, file, ticks[0]) then 1 else 0)
         + LostWrites(cfg, TickOutcome(cfg, file, ticks[0]).file, ticks[1..])
  }

  lemma {:induction false} RunConcat(cfg: Config, file: File, a: seq<Tick>, b: seq<Tick>)
    ensures FileAfter(cfg, file, a + b) == FileAfter(cfg, FileAfter(cfg, file, a), b)
    ensures TraceOf(cfg, file, a + b) == TraceOf(cfg, file, a) + TraceOf(cfg, FileAfter(cfg, file, a), b)
    ensures Successes(cfg, file, a + b) == Successes(cfg, file, a) + Successes(cfg, FileAfter(cfg, file, a), b)
    decreases a
  {
    hide TickOutcome, Succeeds;
    if a == [] {
      assert a + b == b;
    } else {
      assert (a + b)[1..] == a[1..] + b;
      RunConcat(cfg, TickOutcome(cfg, file, a[0]).file, a[1..], b);
    }
  }

  lemma RunOneMore(cfg: Config, file: File, ticks: seq<Tick>, i: nat)
    requires i < |ticks|
    ensures var o := TickOutcome(cfg, FileAfter(cfg, file, ticks[..i]), ticks[i]);
            && FileAfter(cfg, file, ticks[..i + 1]) == o.file
            && TraceOf(cfg, file, ticks[..i + 1]) == TraceOf(cfg, file, ticks[..i]) + o.events
  {
    assert ticks[..i + 1] == ticks[..i] + [ticks[i]];
    RunConcat(cfg, file, ticks[..i], [ticks[i]]);
    assert [ticks[i]][1..] == [];
  }
}
