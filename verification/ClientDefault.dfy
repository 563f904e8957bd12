/**
 The client called DEFAULT: a valid client name (firewall6-lists.py, validate_client_name) whose files hold the routes
 that every static client copies, and that managed_client_names skips. What a prefix recorded there does to the others.
 */
module ClientDefault {
  import opened Options
  import opened ClientText
  import opened ClientPrefixes

  /******* Runs *******/

  ghost predicate SparesDefault(steps: seq<Step>) {
    forall i :: 0 <= i < |steps| ==> !Names(steps[i].op, DEFAULT)
  }

  /** Every run that does not treat DEFAULT as a client keeps the clients' prefixes apart. */
  ghost predicate RunsKeepApart(s: State) {
    forall steps :: SparesDefault(steps) ==> ClientsApart(Run(s, steps))
  }

  function Deletion(name: string): Step { Step(DeleteConfig(name), Env(true, false), n => true) }

  function Without(s: State, names: set<string>): State { State(s.ccd - names, s.ccd2 - names) }

  /** The clients of a set, deleted one by one. */
  lemma {:induction false} AllDeleted(s: State, names: set<string>) returns (steps: seq<Step>)
    requires forall name :: name in names ==> ValidName(name) && name != DEFAULT
    ensures SparesDefault(steps) && Run(s, steps) == Without(s, names)
  {
    steps := [];
    if names == {} {
      assert s.ccd - {} == s.ccd && s.ccd2 - {} == s.ccd2;
    } else {
      var name :| name in names;
      var init := AllDeleted(s, names - {name});
      steps := init + [Deletion(name)];
      assert steps[..|steps| - 1] == init;
      assert s.ccd - (names - {name}) - {name} == s.ccd - names;
      assert s.ccd2 - (names - {name}) - {name} == s.ccd2 - names;
    }
  }

  /** Nobody is managed, the two clients used below have no files, and DEFAULT is there. */
  ghost predicate Cleared(s: State) {
    && ManagedNames(s) == {} && DEFAULT in s.ccd
    && "a" !in s.ccd && "a" !in s.ccd2 && "c" !in s.ccd && "c" !in s.ccd2
  }

  lemma SameManaged(s: State, s': State, name: string)
    requires FileOf(s'.ccd, name) == FileOf(s.ccd, name) && FileOf(s'.ccd2, name) == FileOf(s.ccd2, name)
    ensures name in ManagedNames(s') <==> name in ManagedNames(s)
  {
  }

  lemma DeletedIsCleared(s: State)
    requires DEFAULT in s.ccd
    ensures Cleared(Without(s, ManagedNames(s) + {"a", "c"}))
  {
    var names := ManagedNames(s) + {"a", "c"};
    var s' := Without(s, names);
    forall name ensures name !in ManagedNames(s') {
      if name !in names {
        SameManaged(s, s', name);
      }
    }
  }

  // Client c takes p while routed by BGP, which copies nothing; then client a takes q and copies the DEFAULT lines.
  function Marked(s: State): State { s.(ccd := s.ccd["c" := MARK]) }
  function Taken(s: State, p: Prefix): State {
    State(s.ccd["c" := MARK + [PrefixTag(Some(p))]], s.ccd2["c" := [PrefixTag(Some(p))]])
  }
  function Works(op: Op): Step { Step(op, Env(true, false), n => true) }

  const MARK: seq<Line> := [ModeTag(true)]

  lemma MarkRead()
    ensures RouteModeFromText(MARK) == Some(Bgp) && PrefixFromText([]) == Some(None) &&
      Strip(MARK) == Some([]) == Strip([])
  {
    TagsOfOne(ModeTag(true));
    assert MARK[..0] == [];
  }

  lemma TagRead(p: Prefix)
    ensures PrefixFromText(MARK + [PrefixTag(Some(p))]) == Some(Some(p)) == PrefixFromText([PrefixTag(Some(p))])
  {
    TagsOfOne(ModeTag(true));
    TagsOfOne(PrefixTag(Some(p)));
    TagsSplit(MARK, [PrefixTag(Some(p))]);
  }

  lemma MarkRendered(defaults: seq<Line>)
    ensures Render([], None, Some(defaults), false, Bgp) == Some(MARK) && Render([], None, None, false, Bgp) == Some([])
  {
    MarkRead();
    assert RoutesSection([], None, Some(defaults), Bgp) == MARK && PrefixSection(None, false) == [];
    assert [] + MARK + [] == MARK && [] + [] + [] == RoutesSection([], None, None, Bgp);
  }

  lemma TagRendered(p: Prefix, defaults: seq<Line>)
    ensures Render(MARK, Some(p), Some(defaults), false, Bgp) == Some(MARK + [PrefixTag(Some(p))])
    ensures Render([], Some(p), None, false, Bgp) == Some([PrefixTag(Some(p))])
  {
    MarkRead();
    assert PrefixSection(Some(p), false) == [PrefixTag(Some(p))];
    assert [] + MARK == MARK && [] + [] + [PrefixTag(Some(p))] == [PrefixTag(Some(p))];
  }

  lemma NamesAreValid()
    ensures ValidName("a") && ValidName("c") && ValidName(DEFAULT)
  {
  }

  lemma MarkedByMode(s: State)
    requires Cleared(s)
    ensures Apply(s, SetMode("c", Bgp), Env(true, false), n => true) == Marked(s)
  {
    NamesAreValid();
    MarkRead();
    MarkRendered(s.ccd[DEFAULT]);
    assert ReadPrefix(s, "c") == Some(None);
    assert s.ccd2 - {"c"} == s.ccd2;
  }

  lemma ManagedOnlyC(s: State, s': State)
    requires Cleared(s)
    requires forall name :: name != "c" ==>
      FileOf(s'.ccd, name) == FileOf(s.ccd, name) && FileOf(s'.ccd2, name) == FileOf(s.ccd2, name)
    ensures ManagedNames(s') <= {"c"}
  {
    forall name | name != "c" ensures name !in ManagedNames(s') {
      SameManaged(s, s', name);
    }
  }

  lemma MarkedAccepts(s: State, p: Prefix)
    requires Cleared(s) && IsClientPrefix(p)
    ensures SetAccepted(Marked(s), "c", Some(p)) && RouteModeFromText(FileOf(Marked(s).ccd, "c")) == Some(Bgp)
  {
    NamesAreValid();
    MarkRead();
    ManagedOnlyC(s, Marked(s));
  }

  lemma MarkedWritten(s: State, p: Prefix)
    requires Cleared(s)
    ensures WriteClient(Marked(s), "c", Some(p), false, Bgp, true, true).0 == Taken(s, p)
  {
    var t := Marked(s);
    TagRendered(p, s.ccd[DEFAULT]);
    assert FileOf(t.ccd, "c") == MARK && FileOf(t.ccd2, "c") == [] && t.ccd[DEFAULT] == s.ccd[DEFAULT];
    assert t.ccd["c" := MARK + [PrefixTag(Some(p))]] == Taken(s, p).ccd;
  }

  lemma TakenBySet(s: State, p: Prefix)
    requires Cleared(s) && IsClientPrefix(p)
    ensures Apply(Marked(s), SetPrefix("c", Some(p)), Env(true, false), n => true) == Taken(s, p)
  {
    MarkedAccepts(s, p);
    MarkedWritten(s, p);
  }

  lemma AloneIsUnique(t: State, p: Prefix, q: Prefix)
    requires ManagedNames(t) <= {"c"} && ReadPrefix(t, "c") == Some(Some(p)) && !Overlaps(q, p)
    ensures Unique(t, "a", q)
  {
    NamesAreValid();
  }

  lemma AcceptedForA(s: State, p: Prefix, q: Prefix)
    requires Cleared(s) && IsClientPrefix(q) && !Overlaps(q, p)
    ensures SetAccepted(Taken(s, p), "a", Some(q)) && RouteModeFromText(FileOf(Taken(s, p).ccd, "a")) == Some(Static)
    ensures Recorded(Taken(s, p), "c") == {p}
  {
    TagRead(p);
    MarkRead();
    assert ReadPrefix(Taken(s, p), "c") == Some(Some(p));
    ReadIsRecorded(Taken(s, p), "c");
    ManagedOnlyC(s, Taken(s, p));
    AloneIsUnique(Taken(s, p), p, q);
    NamesAreValid();
  }

  /** The next client copies what DEFAULT records and so records c's prefix too. */
  lemma CopiedToA(s: State, p: Prefix, q: Prefix)
    requires Cleared(s) && p in ValuesIn(s.ccd[DEFAULT])
    requires IsClientPrefix(q) && !Overlaps(q, p)
    ensures !ClientsApart(Apply(Taken(s, p), SetPrefix("a", Some(q)), Env(true, false), n => true))
  {
    AcceptedForA(s, p, q);
    WrittenForA(Taken(s, p), p, q);
  }

  lemma WrittenForA(t: State, p: Prefix, q: Prefix)
    requires DEFAULT in t.ccd && p in ValuesIn(t.ccd[DEFAULT])
    requires "a" !in t.ccd && "a" !in t.ccd2 && Recorded(t, "c") == {p}
    ensures !ClientsApart(WriteClient(t, "a", Some(q), false, Static, true, true).0)
  {
    var s' := WriteClient(t, "a", Some(q), false, Static, true, true).0;
    var a := Render([], Some(q), Some(t.ccd[DEFAULT]), false, Static).value;
    CopyRecords(t.ccd[DEFAULT], p, q);
    PutExact(t.ccd, "a", a);
    assert FileOf(s'.ccd, "a") == a && FileOf(s'.ccd, "c") == FileOf(t.ccd, "c");
    assert FileOf(s'.ccd2, "c") == FileOf(t.ccd2, "c");
    SharedNotApart(s', "a", "c", p);
  }

  lemma CopyRecords(defaults: seq<Line>, p: Prefix, q: Prefix)
    requires p in ValuesIn(defaults)
    ensures Render([], Some(q), Some(defaults), false, Static).Some?
    ensures Render([], Some(q), Some(defaults), false, Static).value != []
    ensures p in ValuesIn(Render([], Some(q), Some(defaults), false, Static).value)
  {
    assert Strip([]) == Some([]);
    var out := Render([], Some(q), Some(defaults), false, Static).value;
    TagInLines(defaults, Some(p));
    TrimExact(defaults);
    assert PrefixTag(Some(p)) in RoutesSection([], Some(q), Some(defaults), Static);
    assert PrefixTag(Some(p)) in out;
    TagInLines(out, Some(p));
    assert Some(p) in PrefixTags(out);
  }

  /******* Two prefixes that do not overlap *******/

  lemma {:induction false} Pow2Adds(m: nat, n: nat)
    ensures Pow2(m + n) == Pow2(m) * Pow2(n)
  {
    if m > 0 {
      Pow2Adds(m - 1, n);
    }
  }

  lemma Pow2Of16()
    ensures Pow2(16) == 0x1_0000
  {
    assert Pow2(8) == 256;
    Pow2Adds(8, 8);
  }

  lemma Pow2Of80()
    ensures Pow2(64) == 0x1_0000_0000_0000_0000 && Pow2(80) == 0x1_0000_0000_0000_0000_0000
  {
    Pow2Of16();
    Pow2Adds(16, 16);
    Pow2Adds(32, 32);
    Pow2Adds(64, 16);
  }

  const LOW := Prefix(GLOBAL_FIRST, 64)
  const HIGH := Prefix(0x3000_0000_0000_0000_0000_0000_0000_0000, 64)

  lemma LowAndHigh()
    ensures IsClientPrefix(LOW) && IsClientPrefix(HIGH) && !Overlaps(LOW, HIGH) && !Overlaps(HIGH, LOW)
  {
    Pow2Of80();
  }

  lemma {:induction false} Pow2Grows(m: nat, n: nat)
    requires m <= n
    ensures Pow2(m) <= Pow2(n)
  {
    if m < n {
      Pow2Grows(m, n - 1);
    }
  }

  lemma SizeBound(p: Prefix)
    requires IsClientPrefix(p)
    ensures Size(p) <= 0x1_0000_0000_0000_0000_0000
  {
    Pow2Of80();
    Pow2Grows(128 - p.length, 80);
  }

  /** No client prefix is so large that it leaves none beside it. */
  lemma RoomBeside(p: Prefix) returns (q: Prefix)
    requires IsClientPrefix(p)
    ensures IsClientPrefix(q) && !Overlaps(q, p)
  {
    LowAndHigh();
    Pow2Of80();
    SizeBound(p);
    q := if Overlaps(LOW, p) then HIGH else LOW;
  }

  /******* When runs keep clients apart *******/

  lemma RunOneMore(s: State, steps: seq<Step>, last: Step)
    ensures Run(s, steps + [last]) == Apply(Run(s, steps), last.op, last.env, last.works)
  {
    assert (steps + [last])[..|steps|] == steps;
  }

  lemma RunThree(s: State, a: Step, b: Step, c: Step)
    ensures
      Run(s, [a] + [b] + [c]) ==
      Apply(Apply(Apply(s, a.op, a.env, a.works), b.op, b.env, b.works), c.op, c.env, c.works)
  {
    RunOneMore(s, [], a);
    assert [] + [a] == [a];
    RunOneMore(s, [a], b);
    RunOneMore(s, [a] + [b], c);
  }

  function Copying(p: Prefix, q: Prefix): seq<Step> {
    [Works(SetMode("c", Bgp))] + [Works(SetPrefix("c", Some(p)))] + [Works(SetPrefix("a", Some(q)))]
  }

  lemma CopyingRun(s: State, p: Prefix, q: Prefix)
    requires Cleared(s) && IsClientPrefix(p)
    ensures Run(s, Copying(p, q)) == Apply(Taken(s, p), SetPrefix("a", Some(q)), Env(true, false), n => true)
  {
    var a, b, c := Works(SetMode("c", Bgp)), Works(SetPrefix("c", Some(p))), Works(SetPrefix("a", Some(q)));
    RunThree(s, a, b, c);
    MarkedByMode(s);
    assert Apply(s, a.op, a.env, a.works) == Marked(s);
    TakenBySet(s, p);
    assert Apply(Marked(s), b.op, b.env, b.works) == Taken(s, p);
  }

  lemma CopyingOverlaps(s: State, p: Prefix, q: Prefix)
    requires Cleared(s) && p in ValuesIn(s.ccd[DEFAULT])
    requires IsClientPrefix(p) && IsClientPrefix(q) && !Overlaps(q, p)
    ensures SparesDefault(Copying(p, q)) && !ClientsApart(Run(s, Copying(p, q)))
  {
    CopyingRun(s, p, q);
    CopiedToA(s, p, q);
  }

  lemma {:induction false} RunsCompose(s: State, first: seq<Step>, then': seq<Step>)
    ensures Run(s, first + then') == Run(Run(s, first), then')
  {
    if then' == [] {
      assert first + then' == first;
    } else {
      var init := then'[..|then'| - 1];
      assert (first + then')[..|first + then'| - 1] == first + init;
      RunsCompose(s, first, init);
    }
  }

  /**
   Once DEFAULT records a prefix, some run gives it to two clients: everybody is deleted, and two new clients are
   added.
   */
  lemma RecordedIsCopied(s: State, p: Prefix) returns (steps: seq<Step>)
    requires NamesValid(s) && p in ValuesIn(FileOf(s.ccd, DEFAULT)) && IsClientPrefix(p)
    ensures SparesDefault(steps) && !ClientsApart(Run(s, steps))
  {
    NamesAreValid();
    var names := ManagedNames(s) + {"a", "c"};
    var deletions := AllDeleted(s, names);
    var q := RoomBeside(p);
    DeletedIsCleared(s);
    CopyingOverlaps(Without(s, names), p, q);
    RunsCompose(s, deletions, Copying(p, q));
    steps := deletions + Copying(p, q);
  }

  /** The prefixes the files record are client prefixes, as every tag with a value is. */
  ghost predicate Parsed(s: State) { forall name, p :: p in Recorded(s, name) ==> IsClientPrefix(p) }

  /**
   Runs that leave DEFAULT alone, whatever writes fail, keep clients' prefixes apart exactly when the DEFAULT file that
   clients copy records no prefix. A managed file without a valid name would make every set fail.
   */
  lemma RunKeepsApartIff(s: State)
    requires ClientsApart(s) && NamesValid(s) && Parsed(s)
    ensures RunsKeepApart(s) <==> DefaultClean(s)
  {
    if DefaultClean(s) {
      forall steps | SparesDefault(steps) ensures ClientsApart(Run(s, steps)) {
        RunKeepsApart(s, steps);
      }
    } else {
      var p :| p in ValuesIn(FileOf(s.ccd, DEFAULT));
      assert p in Recorded(s, DEFAULT);
      var steps := RecordedIsCopied(s, p);
    }
  }

  // A client called DEFAULT: the old files go, the route block is written again, and the prefix is set.
  function Seeding(p: Prefix): seq<Step> {
    [Works(DeleteConfig(DEFAULT))] + [Works(RewriteDefault([], false, None))] + [Works(SetPrefix(DEFAULT, Some(p)))]
  }

  lemma SeedStart(s: State)
    ensures
      var cleared := Apply(s, DeleteConfig(DEFAULT), Env(true, false), n => true);
      Apply(cleared, RewriteDefault([], false, None), Env(true, false), n => true) ==
        State(s.ccd[DEFAULT := []], s.ccd2 - {DEFAULT})
  {
    NamesAreValid();
    assert Outside([]) == Some([]);
    assert (s.ccd - {DEFAULT})[DEFAULT := []] == s.ccd[DEFAULT := []];
  }

  lemma SeedSet(s: State, p: Prefix)
    requires ManagedNames(s) == {} && IsClientPrefix(p)
    requires DEFAULT in s.ccd && s.ccd[DEFAULT] == [] && DEFAULT !in s.ccd2
    ensures
      var s' := Apply(s, SetPrefix(DEFAULT, Some(p)), Env(true, false), n => true);
      ManagedNames(s') == {} && p in ValuesIn(FileOf(s'.ccd, DEFAULT))
  {
    NamesAreValid();
    var s' := Apply(s, SetPrefix(DEFAULT, Some(p)), Env(true, false), n => true);
    assert Strip([]) == Some([]);
    assert SetAccepted(s, DEFAULT, Some(p));
    RenderedValues([], Some(p), Some([]), false, Static);
    forall name ensures name !in ManagedNames(s') {
      if name != DEFAULT {
        SameManaged(s, s', name);
      }
    }
  }

  lemma SeedingRecords(s: State, p: Prefix)
    requires ManagedNames(s) == {} && IsClientPrefix(p)
    ensures ManagedNames(Run(s, Seeding(p))) == {} && p in ValuesIn(FileOf(Run(s, Seeding(p)).ccd, DEFAULT))
  {
    RunThree(s, Works(DeleteConfig(DEFAULT)), Works(RewriteDefault([], false, None)),
      Works(SetPrefix(DEFAULT, Some(p))));
    SeedStart(s);
    var t := State(s.ccd[DEFAULT := []], s.ccd2 - {DEFAULT});
    forall name ensures name !in ManagedNames(t) {
      if name != DEFAULT {
        SameManaged(s, t, name);
      }
    }
    SeedSet(t, p);
  }

  /**
   With DEFAULT admitted as a client no state is safe: some run of accepted operations ends with one prefix in two
   clients.
   */
  lemma DefaultAsClientBreaks(s: State)
    requires NamesValid(s)
    ensures exists steps :: !ClientsApart(Run(s, steps))
  {
    var deletions := AllDeleted(s, ManagedNames(s));
    var s1 := Without(s, ManagedNames(s));
    forall name ensures name !in ManagedNames(s1) {
      if name !in ManagedNames(s) {
        SameManaged(s, s1, name);
      }
    }
    LowAndHigh();
    SeedingRecords(s1, LOW);
    var copying := RecordedIsCopied(Run(s1, Seeding(LOW)), LOW);
    RunsCompose(s, deletions, Seeding(LOW));
    RunsCompose(s, deletions + Seeding(LOW), copying);
    assert !ClientsApart(Run(s, deletions + Seeding(LOW) + copying));
  }

  /******* One set *******/

  /** Every accepted set for this name, with writes that work, leaves no overlap anywhere. */
  ghost predicate SetSafe(s: State, name: string, env: Env) {
    forall p :: SetAccepted(s, name, Some(p)) ==> AllApart(Apply(s, SetPrefix(name, Some(p)), env, n => true))
  }

  /** All other clients can be read and hold nothing but acceptable prefixes. */
  ghost predicate Tidy(s: State) {
    && NamesValid(s) && Parsed(s)
    && (forall name :: name in ManagedNames(s) ==> ReadPrefix(s, name).Some?)
  }

  predicate CanHold(lines: seq<Line>) { Strip(lines).Some? && !HasIRoute(Strip(lines).value) }

  /** The client's own files admit a set: it depends on nothing outside them. */
  predicate Settable(s: State, name: string) {
    && ValidName(name) && DEFAULT in s.ccd
    && RouteModeFromText(FileOf(s.ccd, name)).Some? && CanHold(FileOf(s.ccd, name)) && CanHold(FileOf(s.ccd2, name))
  }

  /**
   DEFAULT is a valid client name that the uniqueness test skips. A set for a client is safe for every prefix exactly
   when the client is DEFAULT itself, the DEFAULT files record no prefix, or the client's own files refuse every set.
   */
  lemma SetSafeIff(s: State, name: string, env: Env)
    requires Tidy(s) && AllApart(s)
    ensures SetSafe(s, name, env) <==> name == DEFAULT || Recorded(s, DEFAULT) == {} || !Settable(s, name)
  {
    if name == DEFAULT || Recorded(s, DEFAULT) == {} || !Settable(s, name) {
      SafeSet(s, name, env);
    } else {
      var q :| q in Recorded(s, DEFAULT);
      UnsafeSet(s, name, q, env);
    }
  }

  lemma SafeSet(s: State, name: string, env: Env)
    requires AllApart(s) && (name == DEFAULT || Recorded(s, DEFAULT) == {} || !Settable(s, name))
    ensures SetSafe(s, name, env)
  {
    forall p | SetAccepted(s, name, Some(p)) ensures AllApart(Apply(s, SetPrefix(name, Some(p)), env, n => true)) {
      if Settable(s, name) {
        SetStaysApart(s, name, p, env);
      } else {
        SetChangesNothing(s, name, p, env);
      }
    }
  }

  lemma SetChangesNothing(s: State, name: string, p: Prefix, env: Env)
    requires !Settable(s, name)
    ensures Apply(s, SetPrefix(name, Some(p)), env, n => true) == s
  {
  }

  lemma UnsafeSet(s: State, name: string, q: Prefix, env: Env)
    requires Tidy(s) && AllApart(s) && q in Recorded(s, DEFAULT) && name != DEFAULT && Settable(s, name)
    ensures !SetSafe(s, name, env)
  {
    DefaultPrefixAccepted(s, name, q);
    var mode := EffectiveMode(RouteModeFromText(FileOf(s.ccd, name)).value, env);
    SecondOwner(s, name, q, env.ipv6, mode);
    assert Apply(s, SetPrefix(name, Some(q)), env, n => true) ==
      WriteClient(s, name, Some(q), env.ipv6, mode, true, true).0;
  }

  /** One client records at most p more, the others what they did. */
  ghost predicate Gains(s: State, s': State, name: string, p: Prefix) {
    && Recorded(s', name) <= Recorded(s, name) + {p}
    && forall other :: other != name ==> Recorded(s', other) == Recorded(s, other)
  }

  lemma PutGains(s: State, name: string, a: seq<Line>, b: seq<Line>, p: Prefix)
    requires ValuesIn(a) <= Recorded(s, name) + {p} && ValuesIn(b) <= {p}
    ensures Gains(s, State(Put(s.ccd, name, a), Put(s.ccd2, name, b)), name, p)
  {
    PutExact(s.ccd, name, a);
    PutExact(s.ccd2, name, b);
  }

  lemma RendersGain(
    s: State, name: string, p: Prefix, ipv6: bool, mode: RouteMode, a: Option<seq<Line>>, b: Option<seq<Line>>
  )
    requires DEFAULT in s.ccd && (name == DEFAULT || DefaultClean(s))
    requires a == Render(FileOf(s.ccd, name), Some(p), Some(s.ccd[DEFAULT]), ipv6, mode)
    requires b == Render(FileOf(s.ccd2, name), Some(p), None, ipv6, mode)
    requires a.Some? && b.Some?
    ensures Gains(s, State(Put(s.ccd, name, a.value), Put(s.ccd2, name, b.value)), name, p)
  {
    RenderedValues(FileOf(s.ccd, name), Some(p), Some(s.ccd[DEFAULT]), ipv6, mode);
    RenderedValues(FileOf(s.ccd2, name), Some(p), None, ipv6, mode);
    PutGains(s, name, a.value, b.value, p);
  }

  /** A write for one client records only its prefix on top of what is copied. */
  lemma WriteGains(s: State, name: string, p: Prefix, ipv6: bool, mode: RouteMode)
    requires name == DEFAULT || DefaultClean(s)
    ensures Gains(s, WriteClient(s, name, Some(p), ipv6, mode, true, true).0, name, p)
  {
    if DEFAULT in s.ccd {
      var a := Render(FileOf(s.ccd, name), Some(p), Some(s.ccd[DEFAULT]), ipv6, mode);
      var b := Render(FileOf(s.ccd2, name), Some(p), None, ipv6, mode);
      if a.Some? && b.Some? {
        RendersGain(s, name, p, ipv6, mode, a, b);
      }
    }
  }

  lemma SetStaysApart(s: State, name: string, p: Prefix, env: Env)
    requires AllApart(s) && SetAccepted(s, name, Some(p)) && (name == DEFAULT || Recorded(s, DEFAULT) == {})
    ensures AllApart(Apply(s, SetPrefix(name, Some(p)), env, n => true))
  {
    var mode := EffectiveMode(RouteModeFromText(FileOf(s.ccd, name)).value, env);
    WriteGains(s, name, p, env.ipv6, mode);
    forall other | other != name ensures Apart({p}, Recorded(s, other)) {
      if other != DEFAULT {
        UniqueIsApart(s, name, p, other);
      }
    }
    GainStaysApart(s, WriteClient(s, name, Some(p), env.ipv6, mode, true, true).0, name, p);
  }

  lemma GainStaysApart(s: State, s': State, name: string, p: Prefix)
    requires AllApart(s) && Recorded(s', name) <= Recorded(s, name) + {p}
    requires forall other :: other != name ==>
      Recorded(s', other) == Recorded(s, other) && Apart({p}, Recorded(s, other))
    ensures AllApart(s')
  {
    forall a, b | a != b ensures Apart(Recorded(s', a), Recorded(s', b)) {
      assert Apart(Recorded(s, a), Recorded(s, b));
      if a == name {
        ApartWithOneMore(Recorded(s', a), Recorded(s, a), p, Recorded(s, b));
      } else if b == name {
        ApartWithOneMore(Recorded(s', b), Recorded(s, b), p, Recorded(s, a));
        ApartSymmetric(Recorded(s', b), Recorded(s, a));
      }
    }
  }

  lemma ApartWithOneMore(more: set<Prefix>, ps: set<Prefix>, p: Prefix, qs: set<Prefix>)
    requires more <= ps + {p} && (Apart(ps, qs) || Apart(qs, ps)) && Apart({p}, qs)
    ensures Apart(more, qs)
  {
    if Apart(qs, ps) {
      ApartSymmetric(qs, ps);
    }
  }

  lemma ApartSymmetric(ps: set<Prefix>, qs: set<Prefix>)
    requires Apart(ps, qs)
    ensures Apart(qs, ps)
  {
    forall q, p | q in qs && p in ps ensures !Overlaps(q, p) {
      assert !Overlaps(p, q);
    }
  }

  /** A prefix recorded for two names. */
  lemma SharedNotApart(s: State, a: string, b: string, p: Prefix)
    requires a != b && p in Recorded(s, a) && p in Recorded(s, b)
    ensures !AllApart(s)
    ensures a != DEFAULT && b != DEFAULT ==> !ClientsApart(s)
  {
    assert Overlaps(p, p);
    assert !Apart(Recorded(s, a), Recorded(s, b));
  }

  lemma DefaultPrefixAccepted(s: State, name: string, q: Prefix)
    requires Tidy(s) && AllApart(s) && q in Recorded(s, DEFAULT) && Settable(s, name)
    ensures SetAccepted(s, name, Some(q))
  {
    forall other | other in ManagedNames(s) && other != name ensures !Clashes(s, other, q) {
      ReadIsRecorded(s, other);
      assert Apart(Recorded(s, DEFAULT), Recorded(s, other));
    }
  }

  lemma SecondOwner(s: State, name: string, q: Prefix, ipv6: bool, mode: RouteMode)
    requires q in Recorded(s, DEFAULT) && name != DEFAULT && Settable(s, name)
    ensures !AllApart(WriteClient(s, name, Some(q), ipv6, mode, true, true).0)
  {
    var s' := WriteClient(s, name, Some(q), ipv6, mode, true, true).0;
    var a := Render(FileOf(s.ccd, name), Some(q), Some(s.ccd[DEFAULT]), ipv6, mode).value;
    RenderedValues(FileOf(s.ccd, name), Some(q), Some(s.ccd[DEFAULT]), ipv6, mode);
    PutExact(s.ccd, name, a);
    SharedNotApart(s', name, DEFAULT, q);
  }

  function OnlyDefault(p: Prefix): State { State(map[DEFAULT := [PrefixTag(Some(p))]], map[]) }

  lemma OnlyDefaultRecords(p: Prefix)
    ensures forall name :: Recorded(OnlyDefault(p), name) == if name == DEFAULT then {p} else {}
    ensures ManagedNames(OnlyDefault(p)) == {}
  {
    var s := OnlyDefault(p);
    TagRead(p);
    ReadOneFile([PrefixTag(Some(p))]);
    forall name ensures Recorded(s, name) == if name == DEFAULT then {p} else {} {
      assert FileOf(s.ccd, name) == if name == DEFAULT then [PrefixTag(Some(p))] else [];
      assert FileOf(s.ccd2, name) == [];
    }
  }

  /** A tidy state with an acceptable prefix recorded for DEFAULT: client "a" may take the same prefix. */
  lemma DefaultPrefixTaken(env: Env)
    ensures Tidy(OnlyDefault(LOW)) && AllApart(OnlyDefault(LOW)) && !SetSafe(OnlyDefault(LOW), "a", env)
  {
    var s := OnlyDefault(LOW);
    LowAndHigh();
    OnlyDefaultRecords(LOW);
    assert Settable(s, "a") by {
      NamesAreValid();
      assert Strip([]) == Some([]);
    }
    SetSafeIff(s, "a", env);
  }
}
