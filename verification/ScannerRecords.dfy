/**
 The stored record of one scanner address (setup/opt/AdminAntizapret/utils/scanner_firewall_store.py): a sliding window
 of attempts, strikes that escalate, and a grace period after an unban. Clocks are whole seconds.
 */
module ScannerRecords {
  import opened Options

  datatype BanEvent = BanEvent(at: int, seconds: int, strike: nat, longTerm: bool, firewall: bool)
  datatype Record = Record(
    strikes: nat, banUntil: int, longTerm: bool, recent: seq<int>, since: Option<int>, graceUntil: int, applied: bool,
    events: seq<BanEvent>)
  datatype Settings = Settings(strikesForYear: nat, yearBanSeconds: nat, unbanGraceSeconds: nat)

  const NEW_RECORD := Record(0, 0, false, [], None, 0, false, [])
  const KEPT_EVENTS := 50

  /** What can happen to one address; applied is whether the firewall took the ban. */
  datatype Event =
    | Attempt(now: int, window: nat)
    | Ban(now: int, shortSeconds: int, applied: bool)
    | Unban(now: int, graceSeconds: Option<int>, clearStrikes: bool)
    | Release(now: int)
    | Check(now: int)
    | Clear(now: int)

  function Max(a: int, b: int): int { if a < b then b else a }

  function Recent(attempts: seq<int>, cutoff: int): seq<int> {
    if attempts == [] then []
    else
      var t := attempts[|attempts| - 1];
      Recent(attempts[..|attempts| - 1], cutoff) + if t >= cutoff then [t] else []
  }

  function LastEvents(events: seq<BanEvent>): seq<BanEvent> {
    if |events| <= KEPT_EVENTS then events else events[|events| - KEPT_EVENTS..]
  }

  function BanSeconds(strikes: nat, shortSeconds: int, cfg: Settings): int {
    if strikes >= cfg.strikesForYear then cfg.yearBanSeconds else Max(60, shortSeconds)
  }

  function Banned(r: Record, e: Event, cfg: Settings): Record
    requires e.Ban?
  {
    var strikes, longTerm := r.strikes + 1, r.strikes + 1 >= cfg.strikesForYear;
    var seconds := BanSeconds(strikes, e.shortSeconds, cfg);
    Record(strikes, e.now + seconds, longTerm, [], None, r.graceUntil, e.applied,
           LastEvents(r.events + [BanEvent(e.now, seconds, strikes, longTerm, e.applied)]))
  }

  function Step(r: Record, e: Event, cfg: Settings): Record {
    match e
    case Attempt(now, window) => r.(recent := Recent(r.recent, now - window) + [now])
    case Ban(now, _, _) => if r.graceUntil > now then r else Banned(r, e, cfg)
    case Unban(now, graceSeconds, clearStrikes) =>
      var grace := if graceSeconds.Some? then graceSeconds.value else cfg.unbanGraceSeconds;
      var q := r.(banUntil := 0, longTerm := false, recent := [], since := None, graceUntil := now + Max(60, grace),
        applied := false);
      if clearStrikes then q.(strikes := 0, events := []) else q
    case Release(_) => r.(banUntil := 0, longTerm := false, recent := [], since := None, applied := false)
    case Check(now) => if 0 < r.banUntil <= now then r.(banUntil := 0, applied := false) else r
    case Clear(_) => NEW_RECORD
  }

  function After(events: seq<Event>, cfg: Settings): Record {
    if events == [] then NEW_RECORD else Step(After(events[..|events| - 1], cfg), events[|events| - 1], cfg)
  }

  ghost predicate ClockAdvances(events: seq<Event>) {
    && (forall i :: 0 <= i < |events| ==> events[i].now >= 0)
    && forall i, j :: 0 <= i < j < |events| ==> events[i].now <= events[j].now
  }

  /******* The sliding window *******/

  /** Does this event ban, rather than being refused by the grace period? */
  predicate TakesEffect(r: Record, e: Event) {
    e.Ban? && r.graceUntil <= e.now
  }

  /** One attempt, with the window it was counted in. */
  datatype Try = Try(now: int, window: nat)

  function Cutoff(t: Try): int { t.now - t.window }

  /** The attempts since the list was last emptied, with nothing pruned. */
  function Logged(r: Record, log: seq<Try>, e: Event): seq<Try> {
    if e.Attempt? then log + [Try(e.now, e.window)]
    else if e.Unban? || e.Release? || e.Clear? || TakesEffect(r, e) then []
    else log
  }

  function Tries(events: seq<Event>, cfg: Settings): seq<Try> {
    if events == [] then []
    else
      var init := events[..|events| - 1];
      Logged(After(init, cfg), Tries(init, cfg), events[|events| - 1])
  }

  function Times(log: seq<Try>): (times: seq<int>)
    ensures |times| == |log| && forall i :: 0 <= i < |log| ==> times[i] == log[i].now
  {
    seq(|log|, i requires 0 <= i < |log| => log[i].now)
  }

  function FullLog(events: seq<Event>, cfg: Settings): seq<int> { Times(Tries(events, cfg)) }

  /** An attempt at or after this cutoff had already left the window of a later attempt. */
  ghost predicate Forgets(log: seq<Try>, cutoff: int) {
    exists i, j :: 0 <= i < j < |log| && cutoff <= log[i].now < Cutoff(log[j])
  }

  /** What is left of a log when every attempt prunes the list and appends itself. */
  function Kept(log: seq<Try>): seq<int> {
    if log == [] then []
    else
      var last := log[|log| - 1];
      Recent(Kept(log[..|log| - 1]), Cutoff(last)) + [last.now]
  }

  lemma RecentOneMore(attempts: seq<int>, t: int, cutoff: int)
    ensures Recent(attempts + [t], cutoff) == Recent(attempts, cutoff) + if t >= cutoff then [t] else []
  {
    assert (attempts + [t])[..|attempts|] == attempts;
  }

  lemma {:induction false} RecentTwice(attempts: seq<int>, a: int, b: int)
    ensures Recent(Recent(attempts, a), b) == Recent(attempts, Max(a, b))
  {
    if attempts != [] {
      var init, t := attempts[..|attempts| - 1], attempts[|attempts| - 1];
      RecentTwice(init, a, b);
      RecentOneMore(Recent(init, a), t, b);
      assert t < a ==> Recent(attempts, a) == Recent(init, a);
    }
  }

  lemma {:induction false} RecentMembers(attempts: seq<int>, cutoff: int)
    ensures forall t :: t in Recent(attempts, cutoff) <==> t in attempts && t >= cutoff
  {
    if attempts != [] {
      assert attempts == attempts[..|attempts| - 1] + [attempts[|attempts| - 1]];
      RecentMembers(attempts[..|attempts| - 1], cutoff);
    }
  }

  /** Pruning keeps a whole list, or makes it shorter. */
  lemma {:induction false} RecentShorter(attempts: seq<int>, cutoff: int)
    ensures |Recent(attempts, cutoff)| <= |attempts|
    ensures |Recent(attempts, cutoff)| == |attempts| ==> Recent(attempts, cutoff) == attempts
    ensures |Recent(attempts, cutoff)| == |attempts| <==> forall t :: t in attempts ==> t >= cutoff
  {
    if attempts != [] {
      var init := attempts[..|attempts| - 1];
      assert attempts == init + [attempts[|attempts| - 1]];
      assert attempts[|attempts| - 1] in attempts && forall t :: t in init ==> t in attempts;
      RecentShorter(init, cutoff);
    }
  }

  lemma StepEmpties(r: Record, e: Event, cfg: Settings)
    requires !e.Attempt?
    ensures Step(r, e, cfg).recent == if e.Unban? || e.Release? || e.Clear? || TakesEffect(r, e) then [] else r.recent
  {
  }

  lemma StepKept(r: Record, log: seq<Try>, e: Event, cfg: Settings)
    requires r.recent == Kept(log)
    ensures Step(r, e, cfg).recent == Kept(Logged(r, log, e))
  {
    if e.Attempt? {
      KeptOneMore(log, Try(e.now, e.window));
    } else {
      StepEmpties(r, e, cfg);
    }
  }

  /** The stored list is the log pruned by every later attempt. */
  lemma {:induction false} StoredIsKept(events: seq<Event>, cfg: Settings)
    ensures After(events, cfg).recent == Kept(Tries(events, cfg))
  {
    if events != [] {
      var init := events[..|events| - 1];
      StoredIsKept(init, cfg);
      StepKept(After(init, cfg), Tries(init, cfg), events[|events| - 1], cfg);
    }
  }

  lemma KeptOneMore(log: seq<Try>, t: Try)
    ensures Kept(log + [t]) == Recent(Kept(log), Cutoff(t)) + [t.now]
    ensures Times(log + [t]) == Times(log) + [t.now]
  {
    assert (log + [t])[..|log|] == log;
  }

  lemma ForgetsOneMore(log: seq<Try>, t: Try, cutoff: int)
    ensures Forgets(log + [t], cutoff) <==>
      Forgets(log, cutoff) || exists i :: 0 <= i < |log| && cutoff <= log[i].now < Cutoff(t)
  {
    var more := log + [t];
    assert forall i :: 0 <= i < |log| ==> more[i] == log[i];
    assert more[|log|] == t;
    if Forgets(log, cutoff) {
      var i, j :| 0 <= i < j < |log| && cutoff <= log[i].now < Cutoff(log[j]);
      assert cutoff <= more[i].now < Cutoff(more[j]);
    }
    if i :| 0 <= i < |log| && cutoff <= log[i].now < Cutoff(t) {
      assert cutoff <= more[i].now < Cutoff(more[|log|]);
    }
  }

  /** Above a cutoff the pruned list is the whole log, or it has lost something, as the log forgets. */
  lemma {:induction false} KeptExact(log: seq<Try>, cutoff: int)
    ensures !Forgets(log, cutoff) ==> Recent(Kept(log), cutoff) == Recent(Times(log), cutoff)
    ensures Forgets(log, cutoff) ==> |Recent(Kept(log), cutoff)| < |Recent(Times(log), cutoff)|
  {
    if log == [] {
      assert Times(log) == [];
    } else {
      var init, t := log[..|log| - 1], log[|log| - 1];
      assert log == init + [t];
      KeptExact(init, cutoff);
      KeptOneMore(init, t);
      ForgetsOneMore(init, t, cutoff);
      RecentOneMore(Recent(Kept(init), Cutoff(t)), t.now, cutoff);
      RecentOneMore(Times(init), t.now, cutoff);
      PrunedTwice(Kept(init), Times(init), Cutoff(t), cutoff);
      TimesMembers(init, Cutoff(t), cutoff);
    }
  }

  /** Pruning first by another cutoff loses exactly the entries between the two. */
  lemma PrunedTwice(kept: seq<int>, times: seq<int>, pruned: int, cutoff: int)
    ensures |Recent(Recent(kept, pruned), cutoff)| <= |Recent(kept, cutoff)|
    ensures Recent(kept, cutoff) == Recent(times, cutoff) ==>
      if exists t :: t in times && cutoff <= t < pruned
      then |Recent(Recent(kept, pruned), cutoff)| < |Recent(times, cutoff)|
      else Recent(Recent(kept, pruned), cutoff) == Recent(times, cutoff)
  {
    RecentTwice(kept, pruned, cutoff);
    RecentTwice(kept, cutoff, pruned);
    RecentShorter(Recent(kept, cutoff), pruned);
    RecentMembers(times, cutoff);
  }

  lemma TimesMembers(log: seq<Try>, pruned: int, cutoff: int)
    ensures (exists t :: t in Times(log) && cutoff <= t < pruned) <==>
      exists i :: 0 <= i < |log| && cutoff <= log[i].now < pruned
  {
    if i :| 0 <= i < |log| && cutoff <= log[i].now < pruned {
      assert Times(log)[i] in Times(log);
    }
  }

  lemma OneMore(events: seq<Event>, e: Event, cfg: Settings)
    ensures After(events + [e], cfg) == Step(After(events, cfg), e, cfg)
    ensures Tries(events + [e], cfg) == Logged(After(events, cfg), Tries(events, cfg), e)
  {
    assert (events + [e])[..|events|] == events;
  }

  /** The answer to an attempt, and the number of attempts of the full log in its window. */
  function AnswerOf(r: Record, now: int, window: nat, cfg: Settings): nat {
    |Step(r, Attempt(now, window), cfg).recent|
  }

  function OwedOf(times: seq<int>, now: int, window: nat): nat { |Recent(times + [now], now - window)| }

  lemma RecordAnswer(r: Record, log: seq<Try>, now: int, window: nat, cfg: Settings)
    requires r.recent == Kept(log)
    ensures AnswerOf(r, now, window, cfg) <= OwedOf(Times(log), now, window)
    ensures AnswerOf(r, now, window, cfg) == OwedOf(Times(log), now, window) <==> !Forgets(log, now - window)
  {
    KeptExact(log, now - window);
    RecentOneMore(Times(log), now, now - window);
  }

  function Answered(events: seq<Event>, now: int, window: nat, cfg: Settings): nat {
    AnswerOf(After(events, cfg), now, window, cfg)
  }

  function Owed(events: seq<Event>, now: int, window: nat, cfg: Settings): nat {
    OwedOf(FullLog(events, cfg), now, window)
  }

  /**
   Whatever the windows and the clock did, an attempt is answered with the number of attempts in its window exactly when
   none of these had left the window of an attempt after it; otherwise the answer is too low.
   */
  lemma AttemptCountIff(events: seq<Event>, now: int, window: nat, cfg: Settings)
    ensures Answered(events, now, window, cfg) <= Owed(events, now, window, cfg)
    ensures Answered(events, now, window, cfg) == Owed(events, now, window, cfg) <==>
      !Forgets(Tries(events, cfg), now - window)
  {
    StoredIsKept(events, cfg);
    RecordAnswer(After(events, cfg), Tries(events, cfg), now, window, cfg);
  }

  /** No attempt of these events was counted from a later time on than this. */
  ghost predicate CutoffsUpTo(events: seq<Event>, cutoff: int) {
    forall i :: 0 <= i < |events| && events[i].Attempt? ==> events[i].now - events[i].window <= cutoff
  }

  lemma {:induction false} TriesUpTo(events: seq<Event>, cutoff: int, cfg: Settings)
    requires CutoffsUpTo(events, cutoff)
    ensures forall t :: t in Tries(events, cfg) ==> Cutoff(t) <= cutoff
  {
    if events != [] {
      var init := events[..|events| - 1];
      assert forall i :: 0 <= i < |init| ==> init[i] == events[i];
      TriesUpTo(init, cutoff, cfg);
    }
  }

  /** The pruned list loses nothing that a cutoff at or after every attempt's would still count. */
  lemma PrunedIsFull(events: seq<Event>, cutoff: int, cfg: Settings)
    requires CutoffsUpTo(events, cutoff)
    ensures Recent(After(events, cfg).recent, cutoff) == Recent(FullLog(events, cfg), cutoff)
  {
    var log := Tries(events, cfg);
    TriesUpTo(events, cutoff, cfg);
    StoredIsKept(events, cfg);
    assert forall j :: 0 <= j < |log| ==> log[j] in log;
    KeptExact(log, cutoff);
  }

  ghost predicate WindowNeverGrows(events: seq<Event>) {
    forall i, j :: 0 <= i < j < |events| && events[i].Attempt? && events[j].Attempt? ==>
      events[j].window <= events[i].window
  }

  /** Under an advancing clock every attempt is answered exactly as long as the window does not grow. */
  lemma AttemptCountExact(events: seq<Event>, now: int, window: nat, cfg: Settings)
    requires ClockAdvances(events + [Attempt(now, window)]) && WindowNeverGrows(events + [Attempt(now, window)])
    ensures Answered(events, now, window, cfg) == Owed(events, now, window, cfg)
  {
    var all, log := events + [Attempt(now, window)], Tries(events, cfg);
    assert all[|events|] == Attempt(now, window);
    forall i | 0 <= i < |events| && events[i].Attempt? ensures events[i].now - events[i].window <= now - window {
      assert all[i] == events[i];
    }
    TriesUpTo(events, now - window, cfg);
    assert forall j :: 0 <= j < |log| ==> log[j] in log;
    AttemptCountIff(events, now, window, cfg);
  }

  /** With a window that grows, the pruned list can miss an attempt that the full log still has. */
  lemma GrowingWindowMisses(cfg: Settings)
    ensures
      var events := [Attempt(0, 1)] + [Attempt(5, 1)];
      ClockAdvances(events + [Attempt(6, 10)]) && Answered(events, 6, 10, cfg) < Owed(events, 6, 10, cfg)
  {
    var a, b := Attempt(0, 1), Attempt(5, 1);
    OneMore([], a, cfg);
    assert [] + [a] == [a];
    OneMore([a], b, cfg);
    var log := Tries([a] + [b], cfg);
    assert log == [Try(0, 1), Try(5, 1)];
    assert -4 <= log[0].now < Cutoff(log[1]);
    AttemptCountIff([a] + [b], 6, 10, cfg);
  }

  /******* Strikes *******/

  /** Bans that took effect since the last unban that clears strikes, or the last clear. */
  function BansSinceCleared(events: seq<Event>, cfg: Settings): nat {
    if events == [] then 0
    else
      var init, e := events[..|events| - 1], events[|events| - 1];
      if e.Clear? || (e.Unban? && e.clearStrikes) then 0
      else BansSinceCleared(init, cfg) + if TakesEffect(After(init, cfg), e) then 1 else 0
  }

  lemma {:induction false} StrikesExact(events: seq<Event>, cfg: Settings)
    ensures After(events, cfg).strikes == BansSinceCleared(events, cfg)
  {
    if events != [] {
      StrikesExact(events[..|events| - 1], cfg);
    }
  }

  /** The new event is the last, and of the old ones only the first of fifty goes. */
  ghost predicate Remembers(old': seq<BanEvent>, events: seq<BanEvent>, e: BanEvent) {
    events == (if |old'| < 50 then old' else old'[|old'| - 49..]) + [e]
  }

  lemma EventKept(old': seq<BanEvent>, e: BanEvent)
    requires |old'| <= 50
    ensures Remembers(old', LastEvents(old' + [e]), e)
  {
    var all := old' + [e];
    assert |old'| == 50 ==> all[1..] == old'[1..] + [e];
  }

  /** How long a ban lasts. */
  ghost predicate Lasts(seconds: int, strikes: nat, shortSeconds: int, cfg: Settings) {
    seconds == if strikes >= cfg.strikesForYear then cfg.yearBanSeconds as int
               else if shortSeconds < 60 then 60 else shortSeconds
  }

  ghost predicate Escalated(before: Record, r: Record, now: int, shortSeconds: int, applied: bool, cfg: Settings) {
    && r.strikes == before.strikes + 1 && r.longTerm == (r.strikes >= cfg.strikesForYear)
    && Lasts(r.banUntil - now, r.strikes, shortSeconds, cfg)
    && r.recent == [] && r.since == None && r.applied == applied && r.graceUntil == before.graceUntil
    && Remembers(before.events, r.events, BanEvent(now, r.banUntil - now, r.strikes, r.longTerm, applied))
  }

  lemma StepEscalates(before: Record, now: int, shortSeconds: int, applied: bool, cfg: Settings)
    requires before.graceUntil <= now && |before.events| <= 50
    ensures Escalated(before, Step(before, Ban(now, shortSeconds, applied), cfg), now, shortSeconds, applied, cfg)
  {
    var r := Step(before, Ban(now, shortSeconds, applied), cfg);
    var e := BanEvent(now, r.banUntil - now, r.strikes, r.longTerm, applied);
    EventKept(before.events, e);
    assert r.events == LastEvents(before.events + [e]);
  }

  /**
   A ban that takes effect counts one strike more than there were bans since the last clearing. It lasts the year term
   exactly from the configured number of strikes on, and otherwise as long as asked for, but at least a minute; it
   empties the window and is the last of at most 50 events.
   */
  lemma BanEscalates(events: seq<Event>, now: int, shortSeconds: int, applied: bool, cfg: Settings)
    requires After(events, cfg).graceUntil <= now
    ensures
      var before, r := After(events, cfg), After(events + [Ban(now, shortSeconds, applied)], cfg);
      before.strikes == BansSinceCleared(events, cfg) && Escalated(before, r, now, shortSeconds, applied, cfg)
  {
    StrikesExact(events, cfg);
    EventsBounded(events, cfg);
    OneMore(events, Ban(now, shortSeconds, applied), cfg);
    StepEscalates(After(events, cfg), now, shortSeconds, applied, cfg);
  }

  lemma {:induction false} EventsBounded(events: seq<Event>, cfg: Settings)
    ensures |After(events, cfg).events| <= 50
  {
    if events != [] {
      EventsBounded(events[..|events| - 1], cfg);
    }
  }

  /**
   An unban or a release ends the ban and empties the window; only an unban may take the strikes and starts a grace.
   */
  lemma EndedBan(events: seq<Event>, e: Event, cfg: Settings)
    requires e.Unban? || e.Release?
    ensures
      var before, r := After(events, cfg), After(events + [e], cfg);
      && r.banUntil == 0 && !r.longTerm && r.recent == [] && r.since == None && !r.applied
      && (e.Release? ==> r.graceUntil == before.graceUntil)
      && (e.Unban? && e.clearStrikes ==> r.strikes == 0 && r.events == [])
      && (e.Release? || !e.clearStrikes ==> r.strikes == before.strikes && r.events == before.events)
  {
    OneMore(events, e, cfg);
  }

  /** A check leaves an active ban alone and marks an expired one as over; an attempt changes nothing but the window. */
  ghost predicate OnlyWindow(before: Record, r: Record, e: Event)
    requires e.Check? || e.Attempt?
  {
    match e
    case Check(now) =>
      if 0 < before.banUntil <= now then r == before.(banUntil := 0, applied := false) else r == before
    case Attempt(now, window) =>
      && r == before.(recent := r.recent) && r.recent != [] && r.recent[|r.recent| - 1] == now
      && forall t :: t in r.recent && t != now ==> now - window <= t
  }

  lemma StepOnlyWindow(before: Record, e: Event, cfg: Settings)
    requires e.Check? || e.Attempt?
    ensures OnlyWindow(before, Step(before, e, cfg), e)
  {
    if e.Attempt? {
      RecentMembers(before.recent, e.now - e.window);
    }
  }

  lemma CheckedOrTried(events: seq<Event>, e: Event, cfg: Settings)
    requires e.Check? || e.Attempt?
    ensures OnlyWindow(After(events, cfg), After(events + [e], cfg), e)
  {
    OneMore(events, e, cfg);
    StepOnlyWindow(After(events, cfg), e, cfg);
  }

  /******* Ban and grace *******/

  /** Under a clock that advances, no address is ever both actively banned and in its grace period. */
  lemma {:induction false} NeverBannedInGrace(events: seq<Event>, cfg: Settings, now: int)
    requires ClockAdvances(events) && now >= 0
    requires events != [] ==> events[|events| - 1].now <= now
    ensures var r := After(events, cfg); !(r.banUntil > now && r.graceUntil > now)
    ensures var r := After(events, cfg); r.banUntil <= 0 || r.graceUntil <= now
  {
    if events != [] {
      var init, e := events[..|events| - 1], events[|events| - 1];
      assert forall i :: 0 <= i < |init| ==> init[i] == events[i];
      NeverBannedInGrace(init, cfg, e.now);
    }
  }

  ghost predicate KeepsGrace(e: Event) { !e.Unban? && !e.Clear? }

  function RunFrom(r: Record, events: seq<Event>, cfg: Settings): Record {
    if events == [] then r else Step(RunFrom(r, events[..|events| - 1], cfg), events[|events| - 1], cfg)
  }

  lemma {:induction false} GraceLasts(r: Record, later: seq<Event>, cfg: Settings)
    requires forall i :: 0 <= i < |later| ==> KeepsGrace(later[i])
    ensures RunFrom(r, later, cfg).graceUntil == r.graceUntil
  {
    if later != [] {
      GraceLasts(r, later[..|later| - 1], cfg);
      assert KeepsGrace(later[|later| - 1]);
    }
  }

  lemma {:induction false} RunsCompose(events: seq<Event>, later: seq<Event>, cfg: Settings)
    ensures After(events + later, cfg) == RunFrom(After(events, cfg), later, cfg)
  {
    if later == [] {
      assert events + later == events;
    } else {
      assert (events + later)[..|events + later| - 1] == events + later[..|later| - 1];
      RunsCompose(events, later[..|later| - 1], cfg);
    }
  }

  /**
   An unban grants grace: for the seconds asked for, or else configured, and at least a minute. Through any calls but
   another unban or a clearing, a ban asked for earlier than its end changes nothing, and one from its end on takes
   effect.
   */
  lemma GraceIff(
    events: seq<Event>, now: int, graceSeconds: Option<int>, clearStrikes: bool, later: seq<Event>,
    t: int, shortSeconds: int, applied: bool, cfg: Settings
  )
    requires forall i :: 0 <= i < |later| ==> KeepsGrace(later[i])
    ensures
      var asked: int := if graceSeconds.Some? then graceSeconds.value else cfg.unbanGraceSeconds;
      var end := now + if asked < 60 then 60 else asked;
      var r := After(events + [Unban(now, graceSeconds, clearStrikes)] + later, cfg);
      var q := After(events + [Unban(now, graceSeconds, clearStrikes)] + later + [Ban(t, shortSeconds, applied)], cfg);
      && r.graceUntil == end
      && (t < end ==> q == r)
      && (t >= end ==> q.strikes == r.strikes + 1 && q.recent == [] && q.applied == applied)
  {
    var unbanned := events + [Unban(now, graceSeconds, clearStrikes)];
    RunsCompose(events, [Unban(now, graceSeconds, clearStrikes)], cfg);
    OneMore(events, Unban(now, graceSeconds, clearStrikes), cfg);
    RunsCompose(unbanned, later, cfg);
    GraceLasts(After(unbanned, cfg), later, cfg);
    OneMore(unbanned + later, Ban(t, shortSeconds, applied), cfg);
  }
}
