/** The firmware update task in common/ota/ota_update.c. */
module Ota {
  import opened Bytes
  import opened BitStrings
  import opened Backoff

  datatype OtaErr = OtaOk | OtaFail | OtaInProgress | OtaValidateFailed | OtaInvalidResponse

  datatype Image = Image(version: string, sha256: seq<byte>)

  /** The caller's judgement of an image, given the stored version. */
  type Validator = (Image, Option<string>) -> OtaErr

  /**
   * How the environment answers during one attempt. The transfer reports progress a number of times
   * before it ends.
   */
  datatype Answers = Answers(
    begin: OtaErr,
    descriptor: OtaErr,
    image: Image,
    progress: nat,
    transfer: OtaErr,
    complete: bool,
    finish: OtaErr,
    store: OtaErr,
    landed: bool)
  {
    /** Storing may report a failure after the new version has reached the flash. */
    predicate Persists() {
      store == OtaOk || landed
    }
  }

  datatype Event =
    | Begun(handle: nat)
    | Finished(handle: nat)
    | Aborted(handle: nat)
    | Stored(version: string)
    | Restarted
    | Waited(milliseconds: uint32)

  datatype Config = Config(
    validate: Option<Validator>,
    autoReboot: bool,
    maxRetries: byte,
    initialBackoff: uint32,
    maxBackoff: uint32)
  {
    function MaxAttempts(): (n: nat)
      ensures n > 0
    {
      if maxRetries != 0 then maxRetries else 5
    }

    function Initial(): (ms: uint32)
      ensures ms > 0
    {
      if initialBackoff != 0 then initialBackoff else 5000
    }

    function Ceiling(): (ms: uint32)
      ensures ms > 0
    {
      if maxBackoff != 0 then maxBackoff else 60000
    }

    /** Whether the image may be installed; without a validator every image may. */
    predicate Approves(image: Image, version: Option<string>) {
      validate.None? || validate.value(image, version) == OtaOk
    }
  }

  // ---------- One attempt ----------

  /** The descriptor was read and the image is welcome. */
  predicate Welcome(cfg: Config, version: Option<string>, a: Answers) {
    a.begin == OtaOk && a.descriptor == OtaOk && cfg.Approves(a.image, version)
  }

  /** The whole image arrived, so the handle is finished and not aborted. */
  predicate Arrives(cfg: Config, version: Option<string>, a: Answers) {
    Welcome(cfg, version, a) && a.transfer == OtaOk && a.complete
  }

  predicate Succeeds(cfg: Config, version: Option<string>, a: Answers) {
    Arrives(cfg, version, a) && a.finish == OtaOk
  }

  /** A rejected image and one whose final check fails are given up; other failures are tried again. */
  predicate Retries(cfg: Config, version: Option<string>, a: Answers) {
    && !Succeeds(cfg, version, a)
    && !(a.begin == OtaOk && a.descriptor == OtaOk && !cfg.Approves(a.image, version))
    && !(Arrives(cfg, version, a) && a.finish == OtaValidateFailed)
  }

  function AttemptLog(cfg: Config, version: Option<string>, a: Answers, handle: nat): seq<Event> {
    if a.begin != OtaOk then []
    else [Begun(handle), if Arrives(cfg, version, a) then Finished(handle) else Aborted(handle)]
  }

  // ---------- All attempts ----------

  /** The events of a successful attempt after its handle is closed. */
  function SuccessLog(cfg: Config, a: Answers): seq<Event> {
    (if a.Persists() then [Stored(a.image.version)] else []) + (if cfg.autoReboot then [Restarted] else [])
  }

  /** The wait after attempt k, counted from 0. */
  function WaitAfter(cfg: Config, k: nat): nat {
    if k == 0 then cfg.Initial() else Doubled(cfg.Initial(), cfg.Ceiling(), k)
  }

  /** What attempt k and the following ones do. */
  function LogFrom(cfg: Config, version: Option<string>, script: seq<Answers>, k: nat): seq<Event>
    requires |script| == cfg.MaxAttempts() && k < |script|
    decreases |script| - k
  {
    var a := script[k];
    AttemptLog(cfg, version, a, k) +
    if Succeeds(cfg, version, a) then SuccessLog(cfg, a)
    else if Retries(cfg, version, a) && k + 1 < |script| then
      [Waited(WaitFits(cfg, k))] + LogFrom(cfg, version, script, k + 1)
    else []
  }

  /** One step of the log. */
  lemma LogStep(cfg: Config, version: Option<string>, script: seq<Answers>, k: nat)
    requires |script| == cfg.MaxAttempts() && k < |script|
    ensures var a := script[k];
            var more := Retries(cfg, version, a) && k + 1 < |script|;
            && !(Succeeds(cfg, version, a) && Retries(cfg, version, a))
            && LogFrom(cfg, version, script, k) ==
               AttemptLog(cfg, version, a, k) + (
                 if Succeeds(cfg, version, a) then SuccessLog(cfg, a)
                 else if more then [Waited(WaitFits(cfg, k))] + LogFrom(cfg, version, script, k + 1)
                 else [])
  {
    hide Succeeds, AttemptLog, SuccessLog, Config.MaxAttempts, WaitAfter;
  }

  function WaitFits(cfg: Config, k: nat): (ms: uint32)
    ensures ms == WaitAfter(cfg, k) && ms > 0
  {
    WaitIsPositive(cfg, k);
    WaitAfter(cfg, k)
  }

  lemma WaitIsPositive(cfg: Config, k: nat)
    ensures 0 < WaitAfter(cfg, k)
  {
    assert cfg.Initial() * Pow2(k) > 0;
  }

  // ---------- What happens, in terms of the answers alone ----------

  /** The answers of one attempt in the order in which they are asked for; a missing validator agrees. */
  function Stages(cfg: Config, known: Option<string>, a: Answers): (stages: seq<OtaErr>)
    ensures |stages| == 6
  {
    [a.begin,
     a.descriptor,
     if cfg.validate.None? then OtaOk else cfg.validate.value(a.image, known),
     a.transfer,
     if a.complete then OtaOk else OtaInvalidResponse,
     a.finish]
  }

  /** How many stages pass before the first that does not. */
  function PassedOf(stages: seq<OtaErr>): (n: nat)
    ensures n <= |stages| && (n < |stages| ==> stages[n] != OtaOk)
    ensures forall i :: 0 <= i < n ==> stages[i] == OtaOk
  {
    if |stages| == 0 || stages[0] != OtaOk then 0 else 1 + PassedOf(stages[1..])
  }

  function Passed(cfg: Config, known: Option<string>, a: Answers): (n: nat)
    ensures n <= 6
  {
    PassedOf(Stages(cfg, known, a))
  }

  /** Given up are a success, a rejected image (stage 2) and one that fails its final check (stage 5). */
  predicate TriedAgain(cfg: Config, known: Option<string>, a: Answers) {
    && Passed(cfg, known, a) < 6 && Passed(cfg, known, a) != 2
    && !(Passed(cfg, known, a) == 5 && a.finish == OtaValidateFailed)
  }

  lemma AttemptMeans(cfg: Config, known: Option<string>, a: Answers)
    ensures Arrives(cfg, known, a) <==> Passed(cfg, known, a) >= 5
    ensures Succeeds(cfg, known, a) <==> Passed(cfg, known, a) == 6
    ensures Retries(cfg, known, a) <==> TriedAgain(cfg, known, a)
    ensures a.begin == OtaOk <==> Passed(cfg, known, a) >= 1
  {
    hide PassedOf;
    var stages := Stages(cfg, known, a);
    assert stages[0] == a.begin && stages[1] == a.descriptor && stages[3] == a.transfer && stages[5] == a.finish;
    assert stages[2] == OtaOk <==> cfg.Approves(a.image, known);
    assert stages[4] == OtaOk <==> a.complete;
    assert forall i :: 0 <= i < PassedOf(stages) ==> stages[i] == OtaOk;
  }

  /** The error of an attempt is that of the first stage that does not pass. */
  lemma ErrorMeans(cfg: Config, known: Option<string>, a: Answers)
    ensures var n := Passed(cfg, known, a);
            (if n < 6 then Stages(cfg, known, a)[n] else OtaOk) ==
              if a.begin != OtaOk then a.begin
              else if a.descriptor != OtaOk then a.descriptor
              else if !cfg.Approves(a.image, known) then cfg.validate.value(a.image, known)
              else if a.transfer != OtaOk then a.transfer
              else if !a.complete then OtaInvalidResponse
              else a.finish
  {
    hide PassedOf;
    var stages := Stages(cfg, known, a);
    assert stages[0] == a.begin && stages[1] == a.descriptor && stages[3] == a.transfer && stages[5] == a.finish;
    assert stages[2] == OtaOk <==> cfg.Approves(a.image, known);
    assert stages[4] == if a.complete then OtaOk else OtaInvalidResponse;
    assert forall i :: 0 <= i < PassedOf(stages) ==> stages[i] == OtaOk;
    assert PassedOf(stages) < 6 ==> stages[PassedOf(stages)] != OtaOk;
  }

  /** The waits between attempts: the first as configured, then twice the one before, up to the ceiling. */
  ghost predicate AreWaits(cfg: Config, waits: seq<nat>) {
    var first, ceiling: nat := if cfg.initialBackoff != 0 then cfg.initialBackoff else 5000,
                               if cfg.maxBackoff != 0 then cfg.maxBackoff else 60000;
    && (|waits| > 0 ==> waits[0] == first)
    && forall i :: 0 < i < |waits| ==>
         waits[i] == if 2 * waits[i - 1] < ceiling then 2 * waits[i - 1] else ceiling
  }

  /** Every attempt but the last of n is one that is tried again; that one is not, or none is left. */
  ghost predicate GoesOn(cfg: Config, known: Option<string>, script: seq<Answers>, n: nat)
    requires 0 < n <= |script|
  {
    && (forall i :: 0 <= i < n - 1 ==> TriedAgain(cfg, known, script[i]))
    && (n == |script| || !TriedAgain(cfg, known, script[n - 1]))
  }

  /** Each of n attempts that begins is finished if five stages pass, and else aborted. */
  ghost predicate HandlesEvents(cfg: Config, known: Option<string>, script: seq<Answers>, n: nat, events: seq<Event>)
    requires 0 < n <= |script|
  {
    forall h: nat ::
      && (Begun(h) in events <==> h < n && Passed(cfg, known, script[h]) >= 1)
      && (Finished(h) in events <==> h < n && Passed(cfg, known, script[h]) >= 5)
      && (Aborted(h) in events <==> h < n && 1 <= Passed(cfg, known, script[h]) < 5)
  }

  /** Whether the last attempt succeeds, and whether its version reaches the flash. */
  predicate Stores(cfg: Config, known: Option<string>, final: Answers) {
    Passed(cfg, known, final) == 6 && (final.store == OtaOk || final.landed)
  }

  ghost predicate EndEvents(cfg: Config, known: Option<string>, final: Answers, events: seq<Event>) {
    && (forall v :: Stored(v) in events <==> Stores(cfg, known, final) && v == final.image.version)
    && (Restarted in events <==> Passed(cfg, known, final) == 6 && cfg.autoReboot)
    && (Restarted in events ==> events[|events| - 1] == Restarted)
  }

  /** What a run of n attempts does to the outside and to the stored version. */
  ghost predicate Explains(cfg: Config, known: Option<string>, script: seq<Answers>, n: nat,
                           events: seq<Event>, before: Option<string>, after: Option<string>)
    requires 0 < n <= |script|
  {
    && GoesOn(cfg, known, script, n)
    && HandlesEvents(cfg, known, script, n, events)
    && EndEvents(cfg, known, script[n - 1], events)
    && |Waits(events)| == n - 1 && AreWaits(cfg, Waits(events))
    && after == if Stores(cfg, known, script[n - 1]) then Some(script[n - 1].image.version) else before
  }

  ghost predicate RunExplained(cfg: Config, known: Option<string>, script: seq<Answers>,
                               events: seq<Event>, before: Option<string>, after: Option<string>)
  {
    exists n :: 0 < n <= |script| && Explains(cfg, known, script, n, events, before, after)
  }

  class Updater {
    var log: seq<Event>
    /** The version kept in flash, if any. */
    var version: Option<string>

    method PerformUpdate(cfg: Config, known: Option<string>, a: Answers, handle: nat)
      returns (err: OtaErr, applied: Option<Image>, retry: bool)
      requires a.transfer != OtaInProgress
      modifies `log
      ensures log == old(log) + AttemptLog(cfg, known, a, handle)
      ensures err == OtaOk <==> Succeeds(cfg, known, a)
      ensures retry <==> Retries(cfg, known, a)
      ensures applied == if Succeeds(cfg, known, a) then Some(a.image) else None
      ensures var passed := Passed(cfg, known, a);
              && log == old(log) + (if passed == 0 then []
                                    else [Begun(handle), if passed < 5 then Aborted(handle) else Finished(handle)])
              && err == (if passed < 6 then Stages(cfg, known, a)[passed] else OtaOk)
              && applied == (if passed == 6 then Some(a.image) else None)
              && (retry <==> TriedAgain(cfg, known, a))
    {
      hide Passed, TriedAgain;
      AttemptMeans(cfg, known, a);
      ErrorMeans(cfg, known, a);
      applied, retry := None, true;
      err := a.begin;
      if err != OtaOk {
        return;
      }
      log := log + [Begun(handle)];
      err := a.descriptor;
      if err != OtaOk {
        log := log + [Aborted(handle)];
        return;
      }
      if cfg.validate.Some? {
        err := cfg.validate.value(a.image, known);
        if err != OtaOk {
          retry := false;
          log := log + [Aborted(handle)];
          return;
        }
      }
      var left := a.progress;
      err := OtaInProgress;
      while err == OtaInProgress
        invariant err == OtaInProgress || err == a.transfer
        decreases if err == OtaInProgress then left + 1 else 0
      {
        if left > 0 {
          left := left - 1;
        } else {
          err := a.transfer;
        }
      }
      if err != OtaOk {
        log := log + [Aborted(handle)];
        return;
      }
      if !a.complete {
        log := log + [Aborted(handle)];
        return OtaInvalidResponse, applied, retry;
      }
      err := a.finish;
      log := log + [Finished(handle)];
      if err != OtaOk {
        retry := err != OtaValidateFailed;
        return;
      }
      return OtaOk, Some(a.image), false;
    }

    /** Loads the stored version and makes the attempts. */
    method Task(cfg: Config, loads: bool, script: seq<Answers>)
      requires |script| == if cfg.maxRetries != 0 then cfg.maxRetries else 5
      requires forall i :: 0 <= i < |script| ==> script[i].transfer != OtaInProgress
      modifies this
      ensures var known := if loads then old(version) else None;
              && old(log) <= log
              && RunExplained(cfg, known, script, log[|old(log)|..], old(version), version)
    {
      hide RunExplained, LogFrom, VersionFrom;
      var known := if loads then version else None;
      TaskExplained(cfg, known, script, version);
      assert (log + LogFrom(cfg, known, script, 0))[|log|..] == LogFrom(cfg, known, script, 0);
      MakeAttempts(cfg, known, script);
    }

    /** Tries until one attempt succeeds, is given up or is the last. */
    method MakeAttempts(cfg: Config, known: Option<string>, script: seq<Answers>)
      requires |script| == cfg.MaxAttempts() && forall i :: 0 <= i < |script| ==> script[i].transfer != OtaInProgress
      modifies this
      ensures log == old(log) + LogFrom(cfg, known, script, 0)
      ensures version == VersionFrom(cfg, known, script, 0, old(version))
    {
      hide Succeeds, Retries, AttemptLog, WaitAfter, LogFrom, Config.MaxAttempts;
      var backoff, ceiling := cfg.Initial(), cfg.Ceiling();
      FirstWait(cfg);
      var attempt := 0;
      while attempt < |script|
        invariant 0 <= attempt < |script|
        invariant version == old(version)
        invariant backoff == WaitAfter(cfg, attempt)
        invariant log + LogFrom(cfg, known, script, attempt) == old(log) + LogFrom(cfg, known, script, 0)
        invariant VersionFrom(cfg, known, script, attempt, version) == VersionFrom(cfg, known, script, 0, version)
        decreases |script| - attempt
      {
        LogStep(cfg, known, script, attempt);
        var err, applied, retry := PerformUpdate(cfg, known, script[attempt], attempt);
        Exclusive(cfg, known, script[attempt]);
        if err == OtaOk {
          if script[attempt].Persists() {
            version := Some(applied.value.version);
            log := log + [Stored(applied.value.version)];
          }
          if cfg.autoReboot {
            log := log + [Restarted];
          }
          return;
        }
        if !retry || attempt + 1 == |script| {
          return;
        }
        if backoff > 0 {
          log := log + [Waited(backoff)];
        }
        NextWait(cfg, attempt);
        var next: uint64 := backoff * 2;
        backoff := if next > ceiling || next == 0 then ceiling else next;
        attempt := attempt + 1;
      }
    }
  }

  /** The version in flash after attempt k and the following ones. */
  function VersionFrom(cfg: Config, known: Option<string>, script: seq<Answers>, k: nat,
                       version: Option<string>): Option<string>
    requires |script| == cfg.MaxAttempts() && k < |script|
    decreases |script| - k
  {
    var a := script[k];
    if Succeeds(cfg, known, a) then (if a.Persists() then Some(a.image.version) else version)
    else if Retries(cfg, known, a) && k + 1 < |script| then VersionFrom(cfg, known, script, k + 1, version)
    else version
  }

  lemma FirstWait(cfg: Config)
    ensures WaitAfter(cfg, 0) == cfg.Initial()
  {
  }

  lemma NextWait(cfg: Config, k: nat)
    ensures WaitAfter(cfg, k) > 0
    ensures WaitAfter(cfg, k + 1) == Min(cfg.Ceiling(), 2 * WaitAfter(cfg, k))
  {
    WaitIsPositive(cfg, k);
    DoublingStep(cfg.Initial(), cfg.Ceiling(), k);
    if k == 0 {
      assert Pow2(1) == 2;
    }
  }

  lemma Exclusive(cfg: Config, known: Option<string>, a: Answers)
    ensures !(Succeeds(cfg, known, a) && Retries(cfg, known, a))
  {
  }

  // ---------- What every run keeps ----------

  /** The last attempt that is made, from attempt k on. */
  function LastAttempt(cfg: Config, known: Option<string>, script: seq<Answers>, k: nat): (last: nat)
    requires |script| == cfg.MaxAttempts() && k < |script|
    ensures k <= last < |script|
    decreases |script| - k
  {
    if Retries(cfg, known, script[k]) && k + 1 < |script| then LastAttempt(cfg, known, script, k + 1) else k
  }

  /** It is the first one that is not tried again, or the last one allowed. */
  lemma {:induction false} LastAttemptIsFirstFinal(cfg: Config, known: Option<string>, script: seq<Answers>, k: nat)
    requires |script| == cfg.MaxAttempts() && k < |script|
    ensures var last := LastAttempt(cfg, known, script, k);
            && (forall i :: k <= i < last ==> Retries(cfg, known, script[i]))
            && (last + 1 == |script| || !Retries(cfg, known, script[last]))
    decreases |script| - k
  {
    hide Retries;
    if Retries(cfg, known, script[k]) && k + 1 < |script| {
      LastAttemptIsFirstFinal(cfg, known, script, k + 1);
    }
  }

  /** The stored version changes only when the last attempt succeeds, and then to its image's version. */
  lemma {:induction false} VersionChangesExactlyWhen(cfg: Config, known: Option<string>, script: seq<Answers>,
                                                     k: nat, version: Option<string>)
    requires |script| == cfg.MaxAttempts() && k < |script|
    ensures var a := script[LastAttempt(cfg, known, script, k)];
            VersionFrom(cfg, known, script, k, version)
            == if Succeeds(cfg, known, a) && a.Persists() then Some(a.image.version) else version
    decreases |script| - k
  {
    hide Retries, Succeeds;
    Exclusive(cfg, known, script[k]);
    if Retries(cfg, known, script[k]) && k + 1 < |script| {
      VersionChangesExactlyWhen(cfg, known, script, k + 1, version);
    }
  }

  // ---------- Handles ----------

  /** At most one handle is open; anything else is misuse. */
  datatype Status = Idle | Open(handle: nat) | Misused

  function Next(s: Status, e: Event): Status {
    match e
    case Begun(h) => if s == Idle then Open(h) else Misused
    case Finished(h) => if s == Open(h) then Idle else Misused
    case Aborted(h) => if s == Open(h) then Idle else Misused
    case _ => if s == Idle then Idle else Misused
  }

  function StatusAfter(s: Status, log: seq<Event>): Status
    decreases |log|
  {
    if |log| == 0 then s else StatusAfter(Next(s, log[0]), log[1..])
  }

  lemma {:induction false} StatusAppend(s: Status, a: seq<Event>, b: seq<Event>)
    ensures StatusAfter(s, a + b) == StatusAfter(StatusAfter(s, a), b)
    decreases |a|
  {
    if |a| == 0 {
      assert a + b == b;
    } else {
      assert (a + b)[1..] == a[1..] + b;
      StatusAppend(Next(s, a[0]), a[1..], b);
    }
  }

  lemma StatusAfterTwo(s: Status, a: Event, b: Event)
    ensures StatusAfter(s, [a, b]) == Next(Next(s, a), b)
  {
    assert [a, b][1..] == [b];
    assert StatusAfter(Next(s, a), [b]) == StatusAfter(Next(Next(s, a), b), []);
  }

  lemma AttemptClosesHandle(cfg: Config, known: Option<string>, a: Answers, handle: nat)
    ensures StatusAfter(Idle, AttemptLog(cfg, known, a, handle)) == Idle
  {
    hide Arrives;
    StatusAfterTwo(Idle, Begun(handle), if Arrives(cfg, known, a) then Finished(handle) else Aborted(handle));
  }

  lemma SuccessKeepsIdle(cfg: Config, a: Answers)
    ensures StatusAfter(Idle, SuccessLog(cfg, a)) == Idle
  {
    StatusAfterTwo(Idle, Stored(a.image.version), Restarted);
    assert [Stored(a.image.version)] + [Restarted] == [Stored(a.image.version), Restarted];
    assert StatusAfter(Idle, [Stored(a.image.version)]) == StatusAfter(Idle, []);
    assert StatusAfter(Idle, [Restarted]) == StatusAfter(Idle, []);
  }

  /** Each handle that is begun is closed once, before anything else happens; nothing else is closed. */
  lemma {:induction false} HandlesAreClosed(cfg: Config, known: Option<string>, script: seq<Answers>, k: nat)
    requires |script| == cfg.MaxAttempts() && k < |script|
    ensures StatusAfter(Idle, LogFrom(cfg, known, script, k)) == Idle
    decreases |script| - k
  {
    hide Retries, Succeeds, AttemptLog, SuccessLog, LogFrom, Config.MaxAttempts;
    var a := script[k];
    var front := AttemptLog(cfg, known, a, k);
    LogStep(cfg, known, script, k);
    AttemptClosesHandle(cfg, known, a, k);
    if Succeeds(cfg, known, a) {
      SuccessKeepsIdle(cfg, a);
      StatusAppend(Idle, front, SuccessLog(cfg, a));
    } else if Retries(cfg, known, a) && k + 1 < |script| {
      var wait, rest := [Waited(WaitFits(cfg, k))], LogFrom(cfg, known, script, k + 1);
      HandlesAreClosed(cfg, known, script, k + 1);
      assert StatusAfter(Idle, wait) == Idle;
      StatusAppend(Idle, wait, rest);
      StatusAppend(Idle, front, wait + rest);
    } else {
      StatusAppend(Idle, front, []);
    }
  }

  /** How often a handle is begun, and how often it is finished or aborted. */
  function Begins(log: seq<Event>, h: nat): nat {
    multiset(log)[Begun(h)]
  }

  function Closes(log: seq<Event>, h: nat): nat {
    multiset(log)[Finished(h)] + multiset(log)[Aborted(h)]
  }

  lemma CountsAppend(a: seq<Event>, b: seq<Event>, h: nat)
    ensures Begins(a + b, h) == Begins(a, h) + Begins(b, h)
    ensures Closes(a + b, h) == Closes(a, h) + Closes(b, h)
  {
  }

  lemma AttemptCounts(cfg: Config, known: Option<string>, a: Answers, k: nat, h: nat)
    ensures Begins(AttemptLog(cfg, known, a, k), h) == if h == k && a.begin == OtaOk then 1 else 0
    ensures Closes(AttemptLog(cfg, known, a, k), h) == Begins(AttemptLog(cfg, known, a, k), h)
  {
    hide Arrives;
    if a.begin == OtaOk {
      var close := if Arrives(cfg, known, a) then Finished(k) else Aborted(k);
      assert AttemptLog(cfg, known, a, k) == [Begun(k)] + [close];
    }
  }

  lemma SuccessCounts(cfg: Config, a: Answers, h: nat)
    ensures Begins(SuccessLog(cfg, a), h) == 0 && Closes(SuccessLog(cfg, a), h) == 0
  {
    assert forall e :: e in SuccessLog(cfg, a) ==> e.Stored? || e.Restarted?;
  }

  lemma WaitCounts(ms: uint32, h: nat)
    ensures Begins([Waited(ms)], h) == 0 && Closes([Waited(ms)], h) == 0
  {
  }

  /** Handle h is begun by attempt h and no other, if that attempt is made and its start works. */
  lemma {:induction false} EachHandleOnce(cfg: Config, known: Option<string>, script: seq<Answers>, k: nat, h: nat)
    requires |script| == cfg.MaxAttempts() && k < |script|
    ensures var log, last := LogFrom(cfg, known, script, k), LastAttempt(cfg, known, script, k);
            && Begins(log, h) == (if k <= h <= last && script[h].begin == OtaOk then 1 else 0)
            && Closes(log, h) == Begins(log, h)
    decreases |script| - k
  {
    hide Retries, Succeeds, AttemptLog, SuccessLog, LogFrom, Config.MaxAttempts, Begins, Closes, WaitFits;
    var a := script[k];
    var front := AttemptLog(cfg, known, a, k);
    LogStep(cfg, known, script, k);
    AttemptCounts(cfg, known, a, k, h);
    if Succeeds(cfg, known, a) {
      SuccessCounts(cfg, a, h);
      CountsAppend(front, SuccessLog(cfg, a), h);
    } else if Retries(cfg, known, a) && k + 1 < |script| {
      var wait, rest := [Waited(WaitFits(cfg, k))], LogFrom(cfg, known, script, k + 1);
      EachHandleOnce(cfg, known, script, k + 1, h);
      WaitCounts(WaitFits(cfg, k), h);
      CountsAppend(wait, rest, h);
      CountsAppend(front, wait + rest, h);
    } else {
      assert LogFrom(cfg, known, script, k) == front;
    }
  }

  // ---------- Waits ----------

  /** The waits in a log, in order. */
  function Waits(log: seq<Event>): seq<nat> {
    if |log| == 0 then [] else WaitOf(log[0]) + Waits(log[1..])
  }

  function WaitOf(e: Event): seq<nat> {
    if e.Waited? then [e.milliseconds] else []
  }

  lemma {:induction false} WaitsAppend(a: seq<Event>, b: seq<Event>)
    ensures Waits(a + b) == Waits(a) + Waits(b)
    decreases |a|
  {
    if |a| == 0 {
      assert a + b == b;
    } else {
      assert (a + b)[0] == a[0] && (a + b)[1..] == a[1..] + b;
      WaitsAppend(a[1..], b);
      hide WaitOf;
      assert WaitOf(a[0]) + (Waits(a[1..]) + Waits(b)) == (WaitOf(a[0]) + Waits(a[1..])) + Waits(b);
    }
  }

  lemma {:induction false} NoWaits(log: seq<Event>)
    requires forall i :: 0 <= i < |log| ==> !log[i].Waited?
    ensures Waits(log) == []
    decreases |log|
  {
    if |log| > 0 {
      NoWaits(log[1..]);
    }
  }

  lemma AttemptHasNoWait(cfg: Config, known: Option<string>, a: Answers, k: nat)
    ensures Waits(AttemptLog(cfg, known, a, k)) == []
  {
    NoWaits(AttemptLog(cfg, known, a, k));
  }

  lemma SuccessHasNoWait(cfg: Config, a: Answers)
    ensures Waits(SuccessLog(cfg, a)) == []
  {
    NoWaits(SuccessLog(cfg, a));
  }

  /** One wait between two attempts: first the initial one, then its doublings up to the ceiling. */
  lemma {:induction false} WaitsDouble(cfg: Config, known: Option<string>, script: seq<Answers>, k: nat)
    requires |script| == cfg.MaxAttempts() && k < |script|
    ensures var waits := Waits(LogFrom(cfg, known, script, k));
            && |waits| == LastAttempt(cfg, known, script, k) - k < cfg.MaxAttempts()
            && forall i :: 0 <= i < |waits| ==> waits[i] == WaitAfter(cfg, k + i)
    decreases |script| - k
  {
    hide Retries, Succeeds, WaitAfter, AttemptLog, SuccessLog, LogFrom, Config.MaxAttempts, Waits;
    LogStep(cfg, known, script, k);
    AttemptHasNoWait(cfg, known, script[k], k);
    SuccessHasNoWait(cfg, script[k]);
    var a := script[k];
    var front := AttemptLog(cfg, known, a, k);
    if Succeeds(cfg, known, a) {
      WaitsAppend(front, SuccessLog(cfg, a));
    } else if Retries(cfg, known, a) && k + 1 < |script| {
      var wait, rest := Waited(WaitFits(cfg, k)), LogFrom(cfg, known, script, k + 1);
      WaitsDouble(cfg, known, script, k + 1);
      WaitsAppend(front, [wait] + rest);
      WaitFirst(wait, rest);
      assert Waits(LogFrom(cfg, known, script, k)) == [WaitAfter(cfg, k)] + Waits(rest);
      forall i | 0 < i <= |Waits(rest)|
        ensures Waits(LogFrom(cfg, known, script, k))[i] == WaitAfter(cfg, k + i)
      {
        assert Waits(rest)[i - 1] == WaitAfter(cfg, k + 1 + (i - 1));
      }
    } else {
      assert LogFrom(cfg, known, script, k) == front;
    }
  }

  // ---------- The run in terms of the answers ----------

  /** Which events a run from attempt k on consists of. */
  lemma {:induction false} EventsFrom(cfg: Config, known: Option<string>, script: seq<Answers>, k: nat, e: Event)
    requires |script| == cfg.MaxAttempts() && k < |script| && !e.Waited?
    ensures var last := LastAttempt(cfg, known, script, k);
            e in LogFrom(cfg, known, script, k) <==>
              || (exists h :: k <= h <= last && e in AttemptLog(cfg, known, script[h], h))
              || (Succeeds(cfg, known, script[last]) && e in SuccessLog(cfg, script[last]))
    decreases |script| - k
  {
    hide Retries, Succeeds, AttemptLog, SuccessLog, LogFrom, Config.MaxAttempts, WaitFits;
    LogStep(cfg, known, script, k);
    var a := script[k];
    var last := LastAttempt(cfg, known, script, k);
    if Retries(cfg, known, a) && k + 1 < |script| {
      EventsFrom(cfg, known, script, k + 1, e);
      assert e in LogFrom(cfg, known, script, k)
        <==> e in AttemptLog(cfg, known, a, k) || e in LogFrom(cfg, known, script, k + 1);
    } else {
      assert last == k;
      Exclusive(cfg, known, a);
    }
  }

  /** The restart is the last event. */
  lemma {:induction false} RestartIsLast(cfg: Config, known: Option<string>, script: seq<Answers>, k: nat)
    requires |script| == cfg.MaxAttempts() && k < |script|
    ensures var log, last := LogFrom(cfg, known, script, k), script[LastAttempt(cfg, known, script, k)];
            Succeeds(cfg, known, last) && cfg.autoReboot ==> |log| > 0 && log[|log| - 1] == Restarted
    decreases |script| - k
  {
    hide Retries, Succeeds, AttemptLog, LogFrom, Config.MaxAttempts, WaitFits;
    LogStep(cfg, known, script, k);
    Exclusive(cfg, known, script[k]);
    if Retries(cfg, known, script[k]) && k + 1 < |script| {
      RestartIsLast(cfg, known, script, k + 1);
    }
  }

  lemma WaitsMean(cfg: Config, waits: seq<nat>)
    requires forall i :: 0 <= i < |waits| ==> waits[i] == WaitAfter(cfg, i)
    ensures AreWaits(cfg, waits)
  {
    hide WaitAfter;
    FirstWait(cfg);
    forall i | 0 < i < |waits|
      ensures waits[i] == Min(cfg.Ceiling(), 2 * waits[i - 1])
    {
      NextWait(cfg, i - 1);
    }
  }

  lemma AttemptEvents(cfg: Config, known: Option<string>, a: Answers, k: nat, e: Event)
    ensures e in AttemptLog(cfg, known, a, k) <==>
      || (e == Begun(k) && Passed(cfg, known, a) >= 1)
      || (e == Finished(k) && Passed(cfg, known, a) >= 5)
      || (e == Aborted(k) && 1 <= Passed(cfg, known, a) < 5)
  {
    hide Arrives, Passed;
    AttemptMeans(cfg, known, a);
  }

  lemma HandlesExplained(cfg: Config, known: Option<string>, script: seq<Answers>)
    requires |script| == cfg.MaxAttempts()
    ensures HandlesEvents(cfg, known, script, LastAttempt(cfg, known, script, 0) + 1, LogFrom(cfg, known, script, 0))
  {
    hide Retries, Succeeds, AttemptLog, LogFrom, Config.MaxAttempts, Passed;
    var last := LastAttempt(cfg, known, script, 0);
    forall e: Event | e.Begun? || e.Finished? || e.Aborted?
      ensures e in LogFrom(cfg, known, script, 0) <==>
        exists h :: 0 <= h <= last && e in AttemptLog(cfg, known, script[h], h)
    {
      EventsFrom(cfg, known, script, 0, e);
    }
    forall e, h | 0 <= h <= last
      ensures e in AttemptLog(cfg, known, script[h], h) <==>
        || (e == Begun(h) && Passed(cfg, known, script[h]) >= 1)
        || (e == Finished(h) && Passed(cfg, known, script[h]) >= 5)
        || (e == Aborted(h) && 1 <= Passed(cfg, known, script[h]) < 5)
    {
      AttemptEvents(cfg, known, script[h], h, e);
    }
  }

  lemma EndExplained(cfg: Config, known: Option<string>, script: seq<Answers>)
    requires |script| == cfg.MaxAttempts()
    ensures EndEvents(cfg, known, script[LastAttempt(cfg, known, script, 0)], LogFrom(cfg, known, script, 0))
  {
    hide Retries, Succeeds, AttemptLog, LogFrom, Config.MaxAttempts, Passed;
    var last := script[LastAttempt(cfg, known, script, 0)];
    AttemptMeans(cfg, known, last);
    RestartIsLast(cfg, known, script, 0);
    forall e: Event | e.Stored? || e.Restarted?
      ensures e in LogFrom(cfg, known, script, 0) <==> Succeeds(cfg, known, last) && e in SuccessLog(cfg, last)
    {
      EventsFrom(cfg, known, script, 0, e);
      forall a, h
        ensures e !in AttemptLog(cfg, known, a, h)
      {
        AttemptEvents(cfg, known, a, h, e);
      }
    }
  }

  /** Every run of updates is explained by the answers to its attempts. */
  lemma TaskExplained(cfg: Config, known: Option<string>, script: seq<Answers>, before: Option<string>)
    requires |script| == cfg.MaxAttempts()
    ensures RunExplained(cfg, known, script, LogFrom(cfg, known, script, 0), before,
                         VersionFrom(cfg, known, script, 0, before))
  {
    hide Retries, Succeeds, LogFrom, VersionFrom, Config.MaxAttempts, TriedAgain, Passed, WaitAfter, AreWaits, Waits;
    hide HandlesEvents, EndEvents;
    forall i | 0 <= i < |script|
      ensures Retries(cfg, known, script[i]) <==> TriedAgain(cfg, known, script[i])
      ensures Succeeds(cfg, known, script[i]) <==> Passed(cfg, known, script[i]) == 6
    {
      AttemptMeans(cfg, known, script[i]);
    }
    LastAttemptIsFirstFinal(cfg, known, script, 0);
    VersionChangesExactlyWhen(cfg, known, script, 0, before);
    HandlesExplained(cfg, known, script);
    EndExplained(cfg, known, script);
    WaitsDouble(cfg, known, script, 0);
    WaitsMean(cfg, Waits(LogFrom(cfg, known, script, 0)));
    assert Explains(cfg, known, script, LastAttempt(cfg, known, script, 0) + 1, LogFrom(cfg, known, script, 0), before,
                    VersionFrom(cfg, known, script, 0, before));
  }

  /** Without a complete image nothing is finished and the stored version stays. */
  lemma NothingCompleteNothingStored(cfg: Config, known: Option<string>, script: seq<Answers>,
                                     events: seq<Event>, before: Option<string>, after: Option<string>)
    requires RunExplained(cfg, known, script, events, before, after)
    requires forall i :: 0 <= i < |script| ==> !script[i].complete
    ensures after == before && forall h: nat :: Finished(h) !in events
  {
    forall i | 0 <= i < |script|
      ensures Passed(cfg, known, script[i]) <= 4
    {
      assert Stages(cfg, known, script[i])[4] != OtaOk;
    }
  }

  lemma WaitFirst(wait: Event, rest: seq<Event>)
    requires wait.Waited?
    ensures Waits([wait] + rest) == [wait.milliseconds] + Waits(rest)
  {
    assert ([wait] + rest)[1..] == rest;
  }
}
