/**
 Routed prefixes of OpenVPN clients over whole runs of set, clear, delete, mode change and sync
 (firewall6-lists.py), where any file write may fail. The two directories are maps from file names to lines.
 */
module ClientPrefixes {
  import opened Options
  import opened ClientText

  type Files = map<string, seq<Line>>
  datatype State = State(ccd: Files, ccd2: Files)
  datatype Env = Env(bgp: bool, ipv6: bool)

  const DEFAULT := "DEFAULT"
  // 2000::/3, the global unicast range.
  const GLOBAL_FIRST := 0x2000_0000_0000_0000_0000_0000_0000_0000
  const GLOBAL_END := 0x4000_0000_0000_0000_0000_0000_0000_0000

  function Pow2(n: nat): (r: nat)
    ensures r >= 1
  {
    if n == 0 then 1 else 2 * Pow2(n - 1)
  }

  function Size(p: Prefix): (r: nat)
    ensures r >= 1
  {
    Pow2(if p.length <= 128 then 128 - p.length else 0)
  }

  predicate IsClientPrefix(p: Prefix) {
    && 48 <= p.length <= 64
    && p.base % Size(p) == 0
    && GLOBAL_FIRST <= p.base && p.base + Size(p) <= GLOBAL_END
  }

  predicate Overlaps(p: Prefix, q: Prefix) {
    p.base < q.base + Size(q) && q.base < p.base + Size(p)
  }

  predicate NameChar(c: char) { 'a' <= c <= 'z' || 'A' <= c <= 'Z' || '0' <= c <= '9' || c == '_' || c == '-' }

  predicate ValidName(name: string) {
    1 <= |name| <= 32 && forall c :: c in name ==> NameChar(c)
  }

  function FileOf(files: Files, name: string): seq<Line> { if name in files then files[name] else [] }

  /******* Reading *******/

  function ReadPrefix(s: State, name: string): Option<Option<Prefix>> {
    match (PrefixFromText(FileOf(s.ccd, name)), PrefixFromText(FileOf(s.ccd2, name)))
    case (None, _) => None
    case (_, None) => None
    case (Some(a), Some(b)) =>
      if a.None? then Some(b) else if b.None? || a == b then Some(a) else None
  }

  predicate Mentions(lines: seq<Line>) {
    exists line :: line in lines &&
      (line.PrefixTag? || line.ModeTag? || line.DefaultBegin? || (line.Text? && line.mentionsTag))
  }

  predicate IsManaged(s: State, name: string) {
    name != DEFAULT && (Mentions(FileOf(s.ccd, name)) || Mentions(FileOf(s.ccd2, name)))
  }

  function ManagedNames(s: State): set<string> {
    set name | name in s.ccd.Keys + s.ccd2.Keys && IsManaged(s, name)
  }

  /** managed_client_names raises when a managed file has no valid client name. */
  predicate NamesValid(s: State) {
    forall name :: name in ManagedNames(s) ==> ValidName(name)
  }

  predicate Clashes(s: State, other: string, prefix: Prefix) {
    match ReadPrefix(s, other)
    case None => true
    case Some(v) => v.Some? && Overlaps(prefix, v.value)
  }

  /** validate_unique_client_prefix: every other managed client can be read and does not overlap. */
  predicate Unique(s: State, name: string, prefix: Prefix) {
    NamesValid(s) && forall other :: other in ManagedNames(s) && other != name ==> !Clashes(s, other, prefix)
  }

  /******* Writing *******/

  function Put(files: Files, name: string, lines: seq<Line>): Files {
    if lines == [] then files - {name} else files[name := lines]
  }

  /** write_client_config: both texts are rendered before the first is written; returns whether both were. */
  function WriteClient(
    s: State, name: string, prefix: Option<Prefix>, ipv6: bool, mode: RouteMode, first: bool, second: bool
  ): (State, bool) {
    if DEFAULT !in s.ccd then (s, false)
    else
      var a := Render(FileOf(s.ccd, name), prefix, Some(s.ccd[DEFAULT]), ipv6, mode);
      var b := Render(FileOf(s.ccd2, name), prefix, None, ipv6, mode);
      if a.None? || b.None? || !first then (s, false)
      else
        var s' := s.(ccd := Put(s.ccd, name, a.value));
        if !second then (s', false) else (s'.(ccd2 := Put(s.ccd2, name, b.value)), true)
  }

  datatype Op =
    | SetPrefix(name: string, value: Option<Prefix>)
    | ClearPrefix(name: string)
    | DeleteConfig(name: string)
    | SetMode(name: string, mode: RouteMode)
    | Sync(order: seq<string>)
    | RewriteDefault(networks: seq<Prefix>, enabled: bool, fake: Option<Prefix>)

  /** The configured mode counts only while BGP is enabled. */
  function EffectiveMode(mode: RouteMode, env: Env): RouteMode { if env.bgp then mode else Static }

  predicate SetAccepted(s: State, name: string, value: Option<Prefix>) {
    && ValidName(name) && value.Some? && IsClientPrefix(value.value)
    && Unique(s, name, value.value)
    && RouteModeFromText(FileOf(s.ccd, name)).Some?
  }

  predicate PrefixChecked(s: State, name: string) {
    var read := ReadPrefix(s, name);
    read.Some? && (read.value.Some? ==> Unique(s, name, read.value.value))
  }

  predicate SyncAccepted(s: State) {
    NamesValid(s) && forall name :: name in ManagedNames(s) ==> PrefixChecked(s, name)
  }

  predicate OrdersManaged(s: State, order: seq<string>) {
    forall name :: name in order ==> name in ManagedNames(s)
  }

  /** One client of a sync, with the prefix read before the first write. */
  function SyncOne(start: State, before: State, name: string, env: Env, first: bool, second: bool): (State, bool) {
    var mode := if env.bgp then RouteModeFromText(FileOf(before.ccd, name)) else Some(Static);
    if mode.None? || ReadPrefix(start, name).None? then (before, false)
    else WriteClient(before, name, ReadPrefix(start, name).value, env.ipv6, mode.value, first, second)
  }

  type Writes = (State, nat) -> (State, bool)

  /** The k-th client of a sync. */
  function SyncStep(start: State, order: seq<string>, env: Env, works: nat -> bool): Writes {
    (s: State, k: nat) =>
      if k < |order| then SyncOne(start, s, order[k], env, works(2 * k), works(2 * k + 1)) else (s, false)
  }

  /** The first k writes, up to the first that fails. */
  function UntilFailure(start: State, k: nat, step: Writes): (State, bool) {
    if k == 0 then (start, true)
    else
      var (before, ok) := UntilFailure(start, k - 1, step);
      if !ok then (before, false) else step(before, k - 1)
  }

  function SyncFrom(start: State, order: seq<string>, env: Env, works: nat -> bool): (State, bool) {
    UntilFailure(start, |order|, SyncStep(start, order, env, works))
  }

  function Apply(s: State, op: Op, env: Env, works: nat -> bool): State {
    match op
    case SetPrefix(name, value) =>
      if !SetAccepted(s, name, value) then s
      else
        var mode := EffectiveMode(RouteModeFromText(FileOf(s.ccd, name)).value, env);
        WriteClient(s, name, value, env.ipv6, mode, works(0), works(1)).0
    case ClearPrefix(name) =>
      var mode := RouteModeFromText(FileOf(s.ccd, name));
      if !ValidName(name) || mode.None? then s
      else WriteClient(s, name, None, env.ipv6, EffectiveMode(mode.value, env), works(0), works(1)).0
    case DeleteConfig(name) =>
      if !ValidName(name) || !works(0) then s
      else if !works(1) then s.(ccd := s.ccd - {name})
      else State(s.ccd - {name}, s.ccd2 - {name})
    case SetMode(name, mode) =>
      if !ValidName(name) || (mode == Bgp && !env.bgp) || ReadPrefix(s, name).None? then s
      else WriteClient(s, name, ReadPrefix(s, name).value, env.ipv6, mode, works(0), works(1)).0
    case Sync(order) =>
      if !SyncAccepted(s) || !OrdersManaged(s, order) then s
      else SyncFrom(s, order, env, works).0
    case RewriteDefault(networks, enabled, fake) =>
      match RewriteRoutes(FileOf(s.ccd, DEFAULT), networks, enabled, fake)
      case None => s
      case Some(lines) => if works(0) then s.(ccd := s.ccd[DEFAULT := lines]) else s
  }

  /******* What is recorded *******/

  function ValuesIn(lines: seq<Line>): set<Prefix> {
    set v | v in PrefixTags(lines) && v.Some? :: v.value
  }

  /** Every prefix a client's files record, consistent or not. */
  function Recorded(s: State, name: string): set<Prefix> {
    ValuesIn(FileOf(s.ccd, name)) + ValuesIn(FileOf(s.ccd2, name))
  }

  ghost predicate Apart(ps: set<Prefix>, qs: set<Prefix>) {
    forall p, q :: p in ps && q in qs ==> !Overlaps(p, q)
  }

  /** The prefixes of different clients never overlap; the DEFAULT file is no client. */
  ghost predicate ClientsApart(s: State) {
    forall a, b :: a != b && a != DEFAULT && b != DEFAULT ==> Apart(Recorded(s, a), Recorded(s, b))
  }

  ghost predicate AllApart(s: State) {
    forall a, b :: a != b ==> Apart(Recorded(s, a), Recorded(s, b))
  }

  ghost predicate DefaultClean(s: State) {
    ValuesIn(FileOf(s.ccd, DEFAULT)) == {}
  }

  lemma {:induction false} TagInLines(lines: seq<Line>, v: Option<Prefix>)
    ensures v in PrefixTags(lines) <==> PrefixTag(v) in lines
  {
    if lines != [] {
      assert lines == lines[..|lines| - 1] + [lines[|lines| - 1]];
      TagInLines(lines[..|lines| - 1], v);
    }
  }

  lemma ValuesGrow(lines: seq<Line>, more: seq<Line>)
    requires forall line :: line in lines ==> line in more || !line.PrefixTag?
    ensures ValuesIn(lines) <= ValuesIn(more)
  {
    forall p | p in ValuesIn(lines) ensures p in ValuesIn(more) {
      TagInLines(lines, Some(p));
      TagInLines(more, Some(p));
      assert Some(p) in PrefixTags(more);
    }
  }

  /** A readable client records at most the one prefix that is read. */
  lemma ReadIsRecorded(s: State, name: string)
    requires ReadPrefix(s, name).Some?
    ensures Recorded(s, name) == match ReadPrefix(s, name).value case None => {} case Some(p) => {p}
  {
    ReadOneFile(FileOf(s.ccd, name));
    ReadOneFile(FileOf(s.ccd2, name));
  }

  lemma ReadOneFile(lines: seq<Line>)
    requires PrefixFromText(lines).Some?
    ensures ValuesIn(lines) == match PrefixFromText(lines).value case None => {} case Some(p) => {p}
  {
    var tags := PrefixTags(lines);
    if tags != [] {
      assert tags[0] in tags;
    }
  }

  /** A client with a recorded prefix is managed, so the uniqueness test sees it. */
  lemma RecordedIsManaged(s: State, name: string)
    requires name != DEFAULT && Recorded(s, name) != {}
    ensures name in ManagedNames(s)
  {
    var p :| p in Recorded(s, name);
    if p in ValuesIn(FileOf(s.ccd, name)) {
      TagInLines(FileOf(s.ccd, name), Some(p));
      assert Some(p) in PrefixTags(FileOf(s.ccd, name));
      assert PrefixTag(Some(p)) in FileOf(s.ccd, name);
    } else {
      TagInLines(FileOf(s.ccd2, name), Some(p));
      assert Some(p) in PrefixTags(FileOf(s.ccd2, name));
      assert PrefixTag(Some(p)) in FileOf(s.ccd2, name);
    }
  }

  lemma SectionValues(retained: seq<Line>, prefix: Option<Prefix>, defaults: Option<seq<Line>>, mode: RouteMode)
    ensures ValuesIn(RoutesSection(retained, prefix, defaults, mode)) <=
      if defaults.Some? then ValuesIn(defaults.value) else {}
  {
    if defaults.Some? {
      TrimExact(defaults.value);
      assert forall line :: line in TrimBlank(defaults.value) ==> line in defaults.value;
      ValuesGrow(RoutesSection(retained, prefix, defaults, mode), defaults.value);
    }
  }

  lemma ValuesOfTags(lines: seq<Line>, more: seq<Line>, prefix: Option<Prefix>)
    requires PrefixTags(lines) == PrefixTags(more) + OwnTags(prefix)
    ensures ValuesIn(lines) == ValuesIn(more) + if prefix.Some? then {prefix.value} else {}
  {
    var tags := PrefixTags(lines);
    assert forall v :: v in tags <==> v in PrefixTags(more) || (prefix.Some? && v == prefix);
    forall p ensures p in ValuesIn(lines) <==> Some(p) in tags {
    }
    forall p ensures p in ValuesIn(more) <==> Some(p) in PrefixTags(more) {
    }
  }

  lemma RenderedValues(
    original: seq<Line>, prefix: Option<Prefix>, defaults: Option<seq<Line>>, ipv6: bool, mode: RouteMode
  )
    requires Render(original, prefix, defaults, ipv6, mode).Some?
    ensures
      var out := Render(original, prefix, defaults, ipv6, mode).value;
      var own: set<Prefix> := if prefix.Some? then {prefix.value} else {};
      own <= ValuesIn(out) <= own + if defaults.Some? then ValuesIn(defaults.value) else {}
  {
    RenderedTags(original, prefix, defaults, ipv6, mode);
    var section := RoutesSection(Strip(original).value, prefix, defaults, mode);
    SectionValues(Strip(original).value, prefix, defaults, mode);
    ValuesOfTags(Render(original, prefix, defaults, ipv6, mode).value, section, prefix);
  }

  /** One client's records grow by at most the given prefixes, the others' stay, and DEFAULT stays clean. */
  ghost predicate Wrote(s: State, s': State, name: string, gain: set<Prefix>) {
    && DefaultClean(s')
    && Recorded(s', name) <= Recorded(s, name) + gain
    && forall other :: other != name ==> Recorded(s', other) == Recorded(s, other)
  }

  lemma PutsWrote(s: State, name: string, a: seq<Line>, b: seq<Line>, second: bool, gain: set<Prefix>)
    requires name != DEFAULT && DefaultClean(s) && ValuesIn(a) <= gain && ValuesIn(b) <= gain
    ensures Wrote(s, State(Put(s.ccd, name, a), if second then Put(s.ccd2, name, b) else s.ccd2), name, gain)
  {
    PutExact(s.ccd, name, a);
    PutExact(s.ccd2, name, b);
  }

  /**
   Whatever fails, a write records for its client only what was there or what it brings, and leaves the others alone.
   */
  lemma WriteRecords(
    s: State, name: string, prefix: Option<Prefix>, ipv6: bool, mode: RouteMode, first: bool, second: bool
  )
    requires name != DEFAULT && DefaultClean(s)
    ensures
      Wrote(s, WriteClient(s, name, prefix, ipv6, mode, first, second).0, name,
            if prefix.Some? then {prefix.value} else {})
  {
    if DEFAULT in s.ccd {
      var a := Render(FileOf(s.ccd, name), prefix, Some(s.ccd[DEFAULT]), ipv6, mode);
      var b := Render(FileOf(s.ccd2, name), prefix, None, ipv6, mode);
      if a.Some? && b.Some? {
        RenderedValues(FileOf(s.ccd, name), prefix, Some(s.ccd[DEFAULT]), ipv6, mode);
        RenderedValues(FileOf(s.ccd2, name), prefix, None, ipv6, mode);
        PutsWrote(s, name, a.value, b.value, second, if prefix.Some? then {prefix.value} else {});
      }
    }
  }

  lemma PutExact(files: Files, name: string, lines: seq<Line>)
    ensures FileOf(Put(files, name, lines), name) == lines
    ensures forall other :: other != name ==> FileOf(Put(files, name, lines), other) == FileOf(files, other)
  {
  }

  ghost predicate Good(s: State) { ClientsApart(s) && DefaultClean(s) }

  /** A step that shrinks or keeps every client's recorded set, except one that gains a prefix apart from all others. */
  lemma GainKeepsApart(s: State, s': State, name: string, gain: set<Prefix>)
    requires ClientsApart(s) && name != DEFAULT
    requires Recorded(s', name) <= Recorded(s, name) + gain
    requires forall other :: other != name ==> Recorded(s', other) <= Recorded(s, other)
    requires forall other :: other != name && other != DEFAULT ==> Apart(gain, Recorded(s, other))
    ensures ClientsApart(s')
  {
    forall a, b | a != b && a != DEFAULT && b != DEFAULT ensures Apart(Recorded(s', a), Recorded(s', b)) {
      forall p, q | p in Recorded(s', a) && q in Recorded(s', b) ensures !Overlaps(p, q) {
        assert Apart(Recorded(s, a), Recorded(s, b));
        if a == name && p in gain {
          assert Apart(gain, Recorded(s, b));
        } else if b == name && q in gain {
          assert Apart(gain, Recorded(s, a));
          assert !Overlaps(q, p);
        }
      }
    }
  }

  lemma UniqueIsApart(s: State, name: string, prefix: Prefix, other: string)
    requires Unique(s, name, prefix) && other != name && other != DEFAULT
    ensures Apart({prefix}, Recorded(s, other))
  {
    if Recorded(s, other) != {} {
      RecordedIsManaged(s, other);
      assert !Clashes(s, other, prefix);
      ReadIsRecorded(s, other);
    }
  }

  /** Two states in which no client records more than in the first. */
  ghost predicate RecordsNoMore(s: State, s': State) {
    forall name :: Recorded(s', name) <= Recorded(s, name)
  }

  lemma RewriteRecordsNoMore(start: State, s: State, name: string, env: Env, mode: RouteMode, first: bool, second: bool)
    requires DefaultClean(s) && name != DEFAULT && ReadPrefix(start, name).Some?
    requires RecordsNoMore(start, s)
    ensures
      var s' := WriteClient(s, name, ReadPrefix(start, name).value, env.ipv6, mode, first, second).0;
      DefaultClean(s') && RecordsNoMore(start, s')
  {
    ReadIsRecorded(start, name);
    WriteRecords(s, name, ReadPrefix(start, name).value, env.ipv6, mode, first, second);
  }

  lemma SyncOneRecords(start: State, before: State, name: string, env: Env, first: bool, second: bool)
    requires SyncKeeps(start, before) && name != DEFAULT
    ensures SyncKeeps(start, SyncOne(start, before, name, env, first, second).0)
  {
    var mode := if env.bgp then RouteModeFromText(FileOf(before.ccd, name)) else Some(Static);
    if mode.Some? && ReadPrefix(start, name).Some? {
      RewriteRecordsNoMore(start, before, name, env, mode.value, first, second);
    }
  }

  /** What a sync keeps, from the state whose prefixes it read. */
  ghost predicate SyncKeeps(start: State, s: State) {
    DefaultClean(s) && RecordsNoMore(start, s)
  }

  lemma SyncStepRecords(start: State, before: State, order: seq<string>, k: nat, env: Env, works: nat -> bool)
    requires SyncKeeps(start, before) && DEFAULT !in order
    ensures SyncKeeps(start, SyncStep(start, order, env, works)(before, k).0)
  {
    if k < |order| {
      SyncOneRecords(start, before, order[k], env, works(2 * k), works(2 * k + 1));
    }
  }

  lemma {:induction false} SyncRecords(start: State, order: seq<string>, k: nat, env: Env, works: nat -> bool)
    requires SyncKeeps(start, start) && DEFAULT !in order
    ensures SyncKeeps(start, UntilFailure(start, k, SyncStep(start, order, env, works)).0)
  {
    if k > 0 {
      SyncRecords(start, order, k - 1, env, works);
      SyncStepRecords(start, UntilFailure(start, k - 1, SyncStep(start, order, env, works)).0, order, k - 1, env,
        works);
    }
  }

  ghost predicate Names(op: Op, name: string) {
    (op.SetPrefix? || op.ClearPrefix? || op.DeleteConfig? || op.SetMode?) && op.name == name
  }

  lemma NoMoreKeepsGood(s: State, s': State)
    requires Good(s) && DefaultClean(s') && RecordsNoMore(s, s')
    ensures Good(s')
  {
    GainKeepsApart(s, s', "", {});
  }

  lemma SetKeepsGood(s: State, name: string, p: Prefix, ipv6: bool, mode: RouteMode, first: bool, second: bool)
    requires Good(s) && name != DEFAULT && Unique(s, name, p)
    ensures Good(WriteClient(s, name, Some(p), ipv6, mode, first, second).0)
  {
    WriteRecords(s, name, Some(p), ipv6, mode, first, second);
    forall other | other != name && other != DEFAULT ensures Apart({p}, Recorded(s, other)) {
      UniqueIsApart(s, name, p, other);
    }
    GainKeepsApart(s, WriteClient(s, name, Some(p), ipv6, mode, first, second).0, name, {p});
  }

  lemma ClearKeepsGood(s: State, name: string, ipv6: bool, mode: RouteMode, first: bool, second: bool)
    requires Good(s) && name != DEFAULT
    ensures Good(WriteClient(s, name, None, ipv6, mode, first, second).0)
  {
    WriteRecords(s, name, None, ipv6, mode, first, second);
    NoMoreKeepsGood(s, WriteClient(s, name, None, ipv6, mode, first, second).0);
  }

  lemma DeleteKeepsGood(s: State, name: string, second: bool)
    requires Good(s) && name != DEFAULT
    ensures Good(State(s.ccd - {name}, if second then s.ccd2 - {name} else s.ccd2))
  {
    NoMoreKeepsGood(s, State(s.ccd - {name}, if second then s.ccd2 - {name} else s.ccd2));
  }

  lemma SetModeKeepsGood(s: State, name: string, env: Env, mode: RouteMode, first: bool, second: bool)
    requires Good(s) && name != DEFAULT && ReadPrefix(s, name).Some?
    ensures Good(WriteClient(s, name, ReadPrefix(s, name).value, env.ipv6, mode, first, second).0)
  {
    RewriteRecordsNoMore(s, s, name, env, mode, first, second);
    NoMoreKeepsGood(s, WriteClient(s, name, ReadPrefix(s, name).value, env.ipv6, mode, first, second).0);
  }

  lemma SyncKeepsGood(s: State, order: seq<string>, env: Env, works: nat -> bool)
    requires Good(s) && OrdersManaged(s, order)
    ensures Good(SyncFrom(s, order, env, works).0)
  {
    SyncRecords(s, order, |order|, env, works);
    NoMoreKeepsGood(s, SyncFrom(s, order, env, works).0);
  }

  lemma RewriteDefaultKeepsGood(s: State, networks: seq<Prefix>, enabled: bool, fake: Option<Prefix>)
    requires Good(s) && RewriteRoutes(FileOf(s.ccd, DEFAULT), networks, enabled, fake).Some?
    ensures Good(s.(ccd := s.ccd[DEFAULT := RewriteRoutes(FileOf(s.ccd, DEFAULT), networks, enabled, fake).value]))
  {
    DefaultRewriteIsClean(s, networks, enabled, fake);
    var lines := RewriteRoutes(FileOf(s.ccd, DEFAULT), networks, enabled, fake).value;
    NoMoreKeepsGood(s, s.(ccd := s.ccd[DEFAULT := lines]));
  }

  lemma SetStepKeepsGood(s: State, name: string, value: Option<Prefix>, env: Env, works: nat -> bool)
    requires Good(s) && name != DEFAULT
    ensures Good(Apply(s, SetPrefix(name, value), env, works))
  {
    if SetAccepted(s, name, value) {
      var mode := EffectiveMode(RouteModeFromText(FileOf(s.ccd, name)).value, env);
      SetKeepsGood(s, name, value.value, env.ipv6, mode, works(0), works(1));
    }
  }

  lemma ClearStepKeepsGood(s: State, name: string, env: Env, works: nat -> bool)
    requires Good(s) && name != DEFAULT
    ensures Good(Apply(s, ClearPrefix(name), env, works))
  {
    var mode := RouteModeFromText(FileOf(s.ccd, name));
    if mode.Some? {
      ClearKeepsGood(s, name, env.ipv6, EffectiveMode(mode.value, env), works(0), works(1));
    }
  }

  lemma SetModeStepKeepsGood(s: State, name: string, mode: RouteMode, env: Env, works: nat -> bool)
    requires Good(s) && name != DEFAULT
    ensures Good(Apply(s, SetMode(name, mode), env, works))
  {
    if ReadPrefix(s, name).Some? {
      SetModeKeepsGood(s, name, env, mode, works(0), works(1));
    }
  }

  lemma SyncStepKeepsGood(s: State, order: seq<string>, env: Env, works: nat -> bool)
    requires Good(s)
    ensures Good(Apply(s, Sync(order), env, works))
  {
    if SyncAccepted(s) && OrdersManaged(s, order) {
      SyncKeepsGood(s, order, env, works);
      assert Apply(s, Sync(order), env, works) == SyncFrom(s, order, env, works).0;
    }
  }

  /** Any one operation keeps clients' prefixes apart, whatever write fails. */
  lemma StepKeepsGood(s: State, op: Op, env: Env, works: nat -> bool)
    requires Good(s) && !Names(op, DEFAULT)
    ensures Good(Apply(s, op, env, works))
  {
    match op {
      case SetPrefix(name, value) => SetStepKeepsGood(s, name, value, env, works);
      case ClearPrefix(name) => ClearStepKeepsGood(s, name, env, works);
      case DeleteConfig(name) => DeleteKeepsGood(s, name, works(1));
      case SetMode(name, mode) => SetModeStepKeepsGood(s, name, mode, env, works);
      case Sync(order) => SyncStepKeepsGood(s, order, env, works);
      case RewriteDefault(networks, enabled, fake) =>
        if RewriteRoutes(FileOf(s.ccd, DEFAULT), networks, enabled, fake).Some? {
          RewriteDefaultKeepsGood(s, networks, enabled, fake);
        }
    }
  }

  lemma DefaultRewriteIsClean(s: State, networks: seq<Prefix>, enabled: bool, fake: Option<Prefix>)
    requires DefaultClean(s) && RewriteRoutes(FileOf(s.ccd, DEFAULT), networks, enabled, fake).Some?
    ensures ValuesIn(RewriteRoutes(FileOf(s.ccd, DEFAULT), networks, enabled, fake).value) == {}
  {
    var lines := FileOf(s.ccd, DEFAULT);
    var out := RewriteRoutes(lines, networks, enabled, fake).value;
    RetainedFromLines(lines);
    ValuesGrow(out, lines);
  }

  lemma {:induction false} RetainedFromLines(lines: seq<Line>)
    ensures forall line :: line in ScanAll(lines).retained ==> line in lines
  {
    if lines != [] {
      assert lines == lines[..|lines| - 1] + [lines[|lines| - 1]];
      RetainedFromLines(lines[..|lines| - 1]);
    }
  }

  datatype Step = Step(op: Op, env: Env, works: nat -> bool)

  function Run(s: State, steps: seq<Step>): State {
    if steps == [] then s
    else
      var last := steps[|steps| - 1];
      Apply(Run(s, steps[..|steps| - 1]), last.op, last.env, last.works)
  }

  /** Over any run that does not treat DEFAULT as a client, whatever writes fail, clients' prefixes never overlap. */
  lemma {:induction false} RunKeepsApart(s: State, steps: seq<Step>)
    requires Good(s)
    requires forall i :: 0 <= i < |steps| ==> !Names(steps[i].op, DEFAULT)
    ensures Good(Run(s, steps))
  {
    if steps != [] {
      RunKeepsApart(s, steps[..|steps| - 1]);
      var last := steps[|steps| - 1];
      StepKeepsGood(Run(s, steps[..|steps| - 1]), last.op, last.env, last.works);
    }
  }

  /******* Reading back after a set *******/

  /**
   A set whose writes both work is read back, the prefix by every reader and the mode as it was rendered, exactly unless
   the client is static and the DEFAULT text it copies carries tags.
   */
  lemma SetReadsBackIff(s: State, name: string, p: Prefix, env: Env, works: nat -> bool)
    requires SetAccepted(s, name, Some(p)) && works(0) && works(1)
    requires
      var mode := EffectiveMode(RouteModeFromText(FileOf(s.ccd, name)).value, env);
      WriteClient(s, name, Some(p), env.ipv6, mode, true, true).1
    ensures
      var s' := Apply(s, SetPrefix(name, Some(p)), env, works);
      var mode := EffectiveMode(RouteModeFromText(FileOf(s.ccd, name)).value, env);
      ReadPrefix(s', name) == Some(Some(p)) && RouteModeFromText(FileOf(s'.ccd, name)) == Some(mode) <==>
      mode == Bgp || NoTags(s.ccd[DEFAULT])
  {
    var mode := EffectiveMode(RouteModeFromText(FileOf(s.ccd, name)).value, env);
    WrittenReadsBackIff(s, name, p, env.ipv6, mode);
  }

  lemma WrittenReadsBackIff(s: State, name: string, p: Prefix, ipv6: bool, mode: RouteMode)
    requires WriteClient(s, name, Some(p), ipv6, mode, true, true).1
    ensures
      var s' := WriteClient(s, name, Some(p), ipv6, mode, true, true).0;
      ReadPrefix(s', name) == Some(Some(p)) && RouteModeFromText(FileOf(s'.ccd, name)) == Some(mode) <==>
      mode == Bgp || NoTags(s.ccd[DEFAULT])
  {
    var a := Render(FileOf(s.ccd, name), Some(p), Some(s.ccd[DEFAULT]), ipv6, mode);
    var b := Render(FileOf(s.ccd2, name), Some(p), None, ipv6, mode);
    RenderedReadsBackIff(FileOf(s.ccd, name), Some(p), Some(s.ccd[DEFAULT]), ipv6, mode);
    RenderedReadsBackIff(FileOf(s.ccd2, name), Some(p), None, ipv6, mode);
    PutExact(s.ccd, name, a.value);
    PutExact(s.ccd2, name, b.value);
    BothRead(State(Put(s.ccd, name, a.value), Put(s.ccd2, name, b.value)), name, a.value, b.value, p);
  }

  lemma BothRead(s: State, name: string, a: seq<Line>, b: seq<Line>, p: Prefix)
    requires FileOf(s.ccd, name) == a && FileOf(s.ccd2, name) == b
    requires PrefixFromText(a) != Some(None) && PrefixFromText(b) == Some(Some(p))
    ensures ReadPrefix(s, name) == Some(Some(p)) <==> PrefixFromText(a) == Some(Some(p))
  {
  }
}
