/**
 OpenVPN access policy (setup/opt/AdminAntizapret/core/services/openvpn_access_policy.py): manual permanent, manual
 temporary and traffic-limit blocks are merged into one ban file, and the ban file is imported back at start.
 */
module AccessPolicy {
  import opened Options

  datatype Reason = ManualTemp | ManualPermanent | TrafficLimit

  /** One policy row; an empty updatedBy stands for the missing actor. */
  datatype Row = Row(
    temp: bool, perm: bool, reason: Option<Reason>, startedAt: Option<int>, days: Option<int>, until: Option<int>,
    limit: Option<nat>, period: Option<int>, updatedBy: string)

  const NEW_ROW := Row(false, false, None, None, None, None, None, None, "")
  const DAY := 86400

  /** Has this client used up this limit over this period? The counting itself is outside the model. */
  type Usage = (string, nat, Option<int>) -> bool

  /**
   What a synchronisation reads: the clock, the usage before a row's cleanup, and the usage again for its effective
   state.
   */
  datatype Reading = Reading(now: int, usage: Usage, stateUsage: Usage)

  datatype Policy = Policy(rows: map<string, Row>, banned: set<string>)

  predicate Exceeded(name: string, row: Row, usage: Usage) {
    row.limit.Some? && usage(name, row.limit.value, row.period)
  }

  function RowAt(rows: map<string, Row>, name: string): Row {
    if name in rows then rows[name] else NEW_ROW
  }

  /******* The effective state *******/

  predicate TempBlocked(row: Row, now: int) {
    row.temp && row.until.Some? && row.until.value > now
  }

  predicate Blocked(name: string, row: Row, usage: Usage, now: int) {
    row.perm || TempBlocked(row, now) || Exceeded(name, row, usage)
  }

  function EffectiveReason(name: string, row: Row, usage: Usage, now: int): Option<Reason> {
    if row.perm then Some(ManualPermanent)
    else if TempBlocked(row, now) then Some(ManualTemp)
    else if Exceeded(name, row, usage) then Some(TrafficLimit)
    else None
  }

  /******* One synchronisation *******/

  function CleanExpired(row: Row, now: int): Row {
    if row.temp && row.until.Some? && row.until.value <= now
    then row.(temp := false, reason := None, startedAt := None, days := None, until := None)
    else row
  }

  function Undated(row: Row): Row { row.(startedAt := None, days := None, until := None) }

  function CleanTraffic(row: Row, exceeded: bool, limitChanged: bool): Row {
    if exceeded then
      if row.perm && !row.temp && row.updatedBy == "" then Undated(row).(perm := false) else row
    else
      var r := if row.reason == Some(TrafficLimit) then Undated(row) else row;
      if limitChanged && r.perm && !r.temp then Undated(r).(perm := false) else r
  }

  function Cleaned(name: string, row: Row, at: Reading, limitChanged: bool): Row {
    var r := CleanExpired(row, at.now);
    CleanTraffic(r, Exceeded(name, r, at.usage), limitChanged)
  }

  function SyncRow(name: string, row: Row, at: Reading, limitChanged: bool): Row {
    var r := Cleaned(name, row, at, limitChanged);
    r.(reason := EffectiveReason(name, r, at.stateUsage, at.now))
  }

  predicate BlockedBySync(name: string, row: Row, at: Reading, limitChanged: bool) {
    Blocked(name, Cleaned(name, row, at, limitChanged), at.stateUsage, at.now)
  }

  function Sync(p: Policy, at: Reading, limitChanged: set<string>): Policy {
    Policy(
      map n | n in p.rows :: SyncRow(n, p.rows[n], at, n in limitChanged),
      set n | n in p.rows && BlockedBySync(n, p.rows[n], at, n in limitChanged))
  }

  /******* Operations *******/

  datatype Op =
    | SetTemp(name: string, blockDays: int, actor: string)
    | SetPermanent(name: string, actor: string)
    | SetLimit(name: string, bytes: int, limitPeriod: Option<int>, actor: string)
    | ClearLimit(name: string, actor: string)
    | ClearBlock(name: string, actor: string)
    | ReconcileAll

  /** The clock and the usage when the operation reads them, and what its synchronisation reads. */
  datatype Moment = Moment(now: int, usage: Usage, sync: Reading)

  predicate Accepts(p: Policy, op: Op, m: Moment) {
    match op
    case SetTemp(name, blockDays, _) => blockDays >= 1 && name != ""
    case SetPermanent(name, _) => name != ""
    case SetLimit(name, bytes, limitPeriod, _) =>
      bytes >= 1 && name != "" && (limitPeriod.Some? ==> limitPeriod.value in {1, 7, 30})
    case ClearLimit(name, _) => name != ""
    case ClearBlock(name, _) => name != "" && !Exceeded(name, RowAt(p.rows, name), m.usage)
    case ReconcileAll => true
  }

  /** The row a setter stores before it synchronises. */
  function Edited(row: Row, op: Op, now: int): Row {
    match op
    case SetTemp(_, blockDays, actor) =>
      row.(temp := true, perm := false, reason := Some(ManualTemp), startedAt := Some(now), days := Some(blockDays),
           until := Some(now + blockDays * DAY), updatedBy := actor)
    case SetPermanent(_, actor) =>
      row.(temp := false, perm := true, reason := Some(ManualPermanent), startedAt := Some(now), days := None,
           until := None, updatedBy := actor)
    case SetLimit(_, bytes, limitPeriod, actor) =>
      row.(limit := Some(if bytes < 0 then 0 else bytes), period := limitPeriod, updatedBy := actor)
    case ClearLimit(_, actor) => row.(limit := None, period := None, updatedBy := actor)
    case ClearBlock(_, actor) =>
      row.(temp := false, perm := false, reason := None, startedAt := None, days := None, until := None,
        updatedBy := actor)
    case ReconcileAll => row
  }

  /** The import of one ban file entry: what reconcile_all takes for an old manual block. */
  predicate Promotes(name: string, row: Row, usage: Usage) {
    && !Exceeded(name, row, usage)
    && row.reason != Some(TrafficLimit)
    && row.limit.None?
    && !row.temp && !row.perm
  }

  function Promoted(row: Row, now: int): Row {
    row.(perm := true, reason := Some(ManualPermanent), startedAt := Some(now), days := None, until := None)
  }

  function Imported(name: string, row: Row, usage: Usage, now: int): Row {
    if Promotes(name, row, usage) then Promoted(row, now) else row
  }

  function Import(p: Policy, usage: Usage, now: int): map<string, Row> {
    map n | n in p.rows.Keys + (p.banned - {""}) ::
      if n in p.banned && n != "" then Imported(n, RowAt(p.rows, n), usage, now) else RowAt(p.rows, n)
  }

  /** One operation run to completion; a rejected one leaves everything as it was. */
  function Apply(p: Policy, op: Op, m: Moment): Policy {
    if !Accepts(p, op, m) then p
    else if op.ReconcileAll? then Sync(p.(rows := Import(p, m.usage, m.now)), m.sync, {})
    else
      Sync(p.(rows := p.rows[op.name := Edited(RowAt(p.rows, op.name), op, m.now)]), m.sync,
           if op.SetLimit? || op.ClearLimit? then {op.name} else {})
  }

  function Run(p: Policy, ops: seq<(Op, Moment)>): Policy {
    if ops == [] then p
    else Apply(Run(p, ops[..|ops| - 1]), ops[|ops| - 1].0, ops[|ops| - 1].1)
  }

  /******* The ban file *******/

  /**
   After every completed operation the ban file is exactly the clients that are blocked, manually or for their limit.
   */
  lemma CompletedFileExact(p: Policy, op: Op, m: Moment, n: string)
    requires Accepts(p, op, m)
    ensures
      var q := Apply(p, op, m);
      n in q.banned <==>
        && n in q.rows
        && var row := q.rows[n];
           || row.perm
           || (row.temp && row.until.Some? && m.sync.now < row.until.value)
           || (row.limit.Some? && m.sync.stateUsage(n, row.limit.value, row.period))
  {
  }

  /** A row blocked for its limit has no dates, unless the first count, too, finds the limit used up. */
  predicate Settled(name: string, row: Row, at: Reading) {
    row.reason == Some(TrafficLimit) && !Exceeded(name, row, at.usage) ==> row == Undated(row)
  }

  lemma SyncRowTwiceIff(name: string, row: Row, at: Reading, limitChanged: bool)
    ensures
      var once := SyncRow(name, row, at, limitChanged);
      && (SyncRow(name, once, at, false) == once <==> Settled(name, once, at))
      && (BlockedBySync(name, once, at, false) <==> BlockedBySync(name, row, at, limitChanged))
  {
  }

  /**
   A second synchronisation that reads the same again never changes the file, and nothing at all exactly when every row
   is settled.
   */
  lemma SyncTwiceIff(p: Policy, at: Reading, limitChanged: set<string>)
    ensures
      var once := Sync(p, at, limitChanged);
      && Sync(once, at, {}).banned == once.banned
      && (Sync(once, at, {}) == once <==> forall n :: n in once.rows ==> Settled(n, once.rows[n], at))
  {
    var once := Sync(p, at, limitChanged);
    forall n | n in p.rows
      ensures SyncRow(n, once.rows[n], at, false) == once.rows[n] <==> Settled(n, once.rows[n], at)
      ensures BlockedBySync(n, once.rows[n], at, false) <==> n in once.banned
    {
      SyncRowTwiceIff(n, p.rows[n], at, n in limitChanged);
    }
    assert Sync(once, at, {}).banned == once.banned;
    if Sync(once, at, {}) == once {
      forall n | n in once.rows ensures Settled(n, once.rows[n], at) {
        assert Sync(once, at, {}).rows[n] == SyncRow(n, once.rows[n], at, false);
      }
    } else {
      assert Sync(once, at, {}).rows != once.rows;
    }
  }

  /** When both counts of the consumed bytes agree, every row is settled and nothing changes. */
  lemma SyncTwice(p: Policy, at: Reading, limitChanged: set<string>)
    requires forall n, limit, period :: at.usage(n, limit, period) == at.stateUsage(n, limit, period)
    ensures
      var once := Sync(p, at, limitChanged);
      Sync(once, at, {}) == once
  {
    var once := Sync(p, at, limitChanged);
    SyncTwiceIff(p, at, limitChanged);
    forall n | n in once.rows ensures Settled(n, once.rows[n], at) {
      var row := once.rows[n];
      assert row.limit.Some? ==>
        at.usage(n, row.limit.value, row.period) == at.stateUsage(n, row.limit.value, row.period);
    }
  }

  /** When a limit is used up between the two counts, a second synchronisation can still change a row. */
  lemma UnsteadySyncTwice(never: Usage, exceeded: Usage)
    requires forall n, limit, period :: exceeded(n, limit, period) && !never(n, limit, period)
    ensures
      var p := Policy(map["c" := NEW_ROW.(startedAt := Some(0), limit := Some(1))], {});
      var at := Reading(0, never, exceeded);
      var once := Sync(p, at, {});
      once.rows["c"].startedAt == Some(0) && Sync(once, at, {}).rows["c"].startedAt == None
  {
  }

  /******* What a completed operation leaves in the rows *******/

  /** A synchronisation never touches a limit, its period or the actor. */
  predicate SameTerms(row: Row, row': Row) {
    row'.limit == row.limit && row'.period == row.period && row'.updatedBy == row.updatedBy
  }

  predicate NoDates(row: Row) { row.startedAt == None && row.days == None && row.until == None }

  /** The reason is the manual block's, or else the limit's; the dates go with the block they belonged to. */
  lemma SyncRowExact(name: string, row: Row, at: Reading, limitChanged: bool)
    ensures
      var out := SyncRow(name, row, at, limitChanged);
      var used := row.limit.Some? && at.stateUsage(name, row.limit.value, row.period);
      var usedBefore := row.limit.Some? && at.usage(name, row.limit.value, row.period);
      var expired := row.temp && row.until.Some? && row.until.value <= at.now;
      && SameTerms(row, out)
      && (out.temp <==> row.temp && !expired)
      && (out.perm ==> out.reason == Some(ManualPermanent))
      && (!out.perm && out.temp && out.until.Some? ==> out.reason == Some(ManualTemp))
      && (!out.perm && !out.temp ==> out.reason == if used then Some(TrafficLimit) else None)
      && (expired || (row.perm && !out.perm) || (row.reason == Some(TrafficLimit) && !usedBefore) ==> NoDates(out))
      && (!expired && (row.perm ==> out.perm) && (row.reason == Some(TrafficLimit) ==> usedBefore) ==>
            out.startedAt == row.startedAt && out.days == row.days && out.until == row.until)
  {
  }

  /** The row a completed operation leaves for its own client. */
  lemma SettersStore(p: Policy, op: Op, m: Moment)
    requires Accepts(p, op, m) && !op.ReconcileAll?
    ensures op.name in Apply(p, op, m).rows
    ensures
      var row, before, banned := Apply(p, op, m).rows[op.name], RowAt(p.rows, op.name),
        op.name in Apply(p, op, m).banned;
      var used := row.limit.Some? && m.sync.stateUsage(op.name, row.limit.value, row.period);
      && row.updatedBy == op.actor
      && (op.SetLimit? ==> row.limit == Some(op.bytes) && row.period == op.limitPeriod)
      && (op.ClearLimit? ==> row.limit == None && row.period == None)
      && (!op.SetLimit? && !op.ClearLimit? ==> row.limit == before.limit && row.period == before.period)
      && (op.SetTemp? && m.sync.now < m.now + 86400 * op.blockDays ==>
            && row.temp && !row.perm && row.startedAt == Some(m.now) && row.days == Some(op.blockDays)
            && row.until == Some(m.now + 86400 * op.blockDays))
      && (op.SetPermanent? && row.perm ==>
            !row.temp && row.startedAt == Some(m.now) && row.days == None && row.until == None)
      && (op.ClearBlock? ==> !row.temp && !row.perm && NoDates(row) && (banned <==> used))
  {
    var row := Edited(RowAt(p.rows, op.name), op, m.now);
    SyncRowExact(op.name, row, m.sync, op.SetLimit? || op.ClearLimit?);
    CompletedFileExact(p, op, m, op.name);
  }

  /** Every other client keeps its row, but for what the synchronisation does to it; nobody appears and nobody goes. */
  lemma OthersOnlySynced(p: Policy, op: Op, m: Moment, n: string)
    requires Accepts(p, op, m) && !op.ReconcileAll? && n != op.name
    ensures n in Apply(p, op, m).rows <==> n in p.rows
    ensures n in p.rows ==> Apply(p, op, m).rows[n] == SyncRow(n, p.rows[n], m.sync, false)
  {
  }

  /** A block made permanent by the import is dated from it. */
  lemma PromotedRow(p: Policy, m: Moment, n: string)
    requires n in Apply(p, ReconcileAll, m).rows && Apply(p, ReconcileAll, m).rows[n].perm && !RowAt(p.rows, n).perm
    ensures
      var row := Apply(p, ReconcileAll, m).rows[n];
      && row.reason == Some(ManualPermanent) && row.startedAt == Some(m.now) && row.days == None && row.until == None
      && SameTerms(RowAt(p.rows, n), row)
  {
    PromotedIff(p, m, n);
    SyncRowExact(n, Import(p, m.usage, m.now)[n], m.sync, false);
  }

  /******* No promotion *******/

  /** Every entry of the ban file is explained by its row: a manual block, or a reason that names the traffic limit. */
  ghost predicate Explained(p: Policy) {
    forall n :: n in p.banned ==>
      n in p.rows && (p.rows[n].perm || p.rows[n].temp || p.rows[n].reason == Some(TrafficLimit))
  }

  lemma SyncExplains(p: Policy, at: Reading, limitChanged: set<string>)
    ensures Explained(Sync(p, at, limitChanged))
  {
  }

  /**
   reconcile_all makes a block permanent exactly when the ban file has the client, nothing in its row explains the entry
   and it has no limit; the synchronisation that follows takes nothing of this back and adds nothing.
   */
  lemma PromotedIff(p: Policy, m: Moment, n: string)
    ensures
      var rows := Apply(p, ReconcileAll, m).rows;
      n in rows && rows[n].perm && !RowAt(p.rows, n).perm <==>
        && n in p.banned && n != ""
        && var row := RowAt(p.rows, n);
           row.limit.None? && !row.temp && !row.perm && row.reason != Some(TrafficLimit)
  {
    var imported := Import(p, m.usage, m.now);
    if n in imported {
      SyncKeepsPromoted(n, imported[n], m.sync);
    }
  }

  lemma SyncKeepsPromoted(n: string, row: Row, at: Reading)
    ensures SyncRow(n, row, at, false).perm ==> row.perm
    ensures row.perm && row.limit.None? ==> SyncRow(n, row, at, false).perm
  {
  }

  lemma ImportOfExplained(p: Policy, usage: Usage, now: int)
    requires Explained(p)
    ensures Import(p, usage, now) == p.rows
  {
  }

  lemma {:induction false} RunExplained(ops: seq<(Op, Moment)>)
    ensures Explained(Run(Policy(map[], {}), ops))
  {
    if ops != [] {
      var init, last := ops[..|ops| - 1], ops[|ops| - 1];
      RunExplained(init);
      ApplyExplains(Run(Policy(map[], {}), init), last.0, last.1);
    }
  }

  /**
   If only completed operations wrote the file, reconcile_all imports nothing: it is a plain synchronisation,
   so no temporary or traffic-limit block ever becomes permanent.
   */
  lemma RunNeverPromotes(ops: seq<(Op, Moment)>, m: Moment)
    ensures
      var p := Run(Policy(map[], {}), ops);
      var p' := Apply(p, ReconcileAll, m);
      && p' == Sync(p, m.sync, {})
      && forall n :: n in p'.rows && p'.rows[n].perm ==> n in p.rows && p.rows[n].perm
  {
    var p := Run(Policy(map[], {}), ops);
    RunExplained(ops);
    ImportOfExplained(p, m.usage, m.now);
    assert p.(rows := p.rows) == p;
    SyncAddsNoPermanent(p, m.sync);
  }

  lemma SyncAddsNoPermanent(p: Policy, at: Reading)
    ensures
      var p' := Sync(p, at, {});
      forall n :: n in p'.rows && p'.rows[n].perm ==> n in p.rows && p.rows[n].perm
  {
  }

  lemma ApplyExplains(p: Policy, op: Op, m: Moment)
    requires Explained(p)
    ensures Explained(Apply(p, op, m))
  {
    if Accepts(p, op, m) {
      if op.ReconcileAll? {
        SyncExplains(p.(rows := Import(p, m.usage, m.now)), m.sync, {});
      } else {
        SyncExplains(p.(rows := p.rows[op.name := Edited(RowAt(p.rows, op.name), op, m.now)]), m.sync,
          if op.SetLimit? || op.ClearLimit? then {op.name} else {});
      }
    }
  }

  /**
   Why completion matters: a synchronisation that commits an expired block but dies before writing the file leaves an
   entry the next reconcile_all takes for a permanent block.
   */
  lemma CrashPromotes(never: Usage)
    requires forall n, limit, period :: !never(n, limit, period)
    ensures
      var start := Apply(Policy(map[], {}), SetTemp("c", 1, "admin"), Moment(0, never, Reading(0, never, never)));
      var crashed := Policy(Sync(start, Reading(DAY, never, never), {}).rows, start.banned);
      && !start.rows["c"].perm && "c" !in Sync(start, Reading(DAY, never, never), {}).banned
      && Apply(crashed, ReconcileAll, Moment(DAY, never, Reading(DAY, never, never))).rows["c"].perm
  {
    var start := Apply(Policy(map[], {}), SetTemp("c", 1, "admin"), Moment(0, never, Reading(0, never, never)));
    assert start.rows["c"] == Row(true, false, Some(ManualTemp), Some(0), Some(1), Some(DAY), None, None, "admin");
    var synced := Sync(start, Reading(DAY, never, never), {});
    assert synced.rows["c"] == NEW_ROW.(updatedBy := "admin");
    var crashed := Policy(synced.rows, start.banned);
    assert "c" in start.banned;
    assert Import(crashed, never, DAY)["c"].perm;
  }

  /******* How long a manual block holds *******/

  predicate ChangesLimit(op: Op, name: string) { (op.SetLimit? || op.ClearLimit?) && op.name == name }

  predicate EndsPermanent(op: Op, name: string) { (op.SetTemp? || op.ClearBlock?) && op.name == name }

  /** The row as the operation stores it; an import does not touch a permanent block. */
  function Stored(op: Op, name: string, row: Row, now: int): Row {
    if !op.ReconcileAll? && op.name == name then Edited(row, op, now) else row
  }

  /** A row without a temporary block whose limit is used up and that names no actor, or whose limit was changed. */
  predicate LiftedBySync(name: string, row: Row, at: Reading, limitChanged: bool) {
    && !CleanExpired(row, at.now).temp
    && if Exceeded(name, row, at.usage) then row.updatedBy == "" else limitChanged
  }

  /**
   A completed operation ends a client's permanent block exactly when it sets a temporary one or clears it, or its
   synchronisation lifts it: for a used up limit under no actor's name, or for a changed limit that is not used up.
   */
  lemma PermanentLiftedIff(p: Policy, op: Op, m: Moment, name: string)
    requires Accepts(p, op, m) && name in p.rows && p.rows[name].perm
    ensures name in Apply(p, op, m).rows
    ensures !Apply(p, op, m).rows[name].perm <==>
      || EndsPermanent(op, name)
      || LiftedBySync(name, Stored(op, name, p.rows[name], m.now), m.sync, ChangesLimit(op, name))
  {
    var row := Stored(op, name, p.rows[name], m.now);
    SyncLiftsIff(name, row, m.sync, ChangesLimit(op, name));
    if op.ReconcileAll? {
      assert Import(p, m.usage, m.now)[name] == row;
    }
  }

  lemma SyncLiftsIff(name: string, row: Row, at: Reading, limitChanged: bool)
    ensures SyncRow(name, row, at, limitChanged).perm <==> row.perm && !LiftedBySync(name, row, at, limitChanged)
  {
  }

  ghost predicate Leaves(op: Op, name: string) {
    op.ReconcileAll? || op.name != name
  }

  ghost predicate HeldTemp(p: Policy, name: string, until: int) {
    && name in p.rows
    && p.rows[name].temp && !p.rows[name].perm
    && p.rows[name].until == Some(until)
    && p.rows[name].reason == Some(ManualTemp)
  }

  lemma SyncHoldsTemp(p: Policy, at: Reading, limitChanged: set<string>, name: string, until: int)
    requires HeldTemp(p, name, until) && at.now < until
    ensures HeldTemp(Sync(p, at, limitChanged), name, until) && name in Sync(p, at, limitChanged).banned
  {
  }

  lemma ApplyHoldsTemp(p: Policy, op: Op, m: Moment, name: string, until: int)
    requires HeldTemp(p, name, until) && name in p.banned && Leaves(op, name) && m.sync.now < until
    ensures HeldTemp(Apply(p, op, m), name, until) && name in Apply(p, op, m).banned
  {
    if Accepts(p, op, m) {
      assert RowAt(p.rows, name) == p.rows[name];
      if op.ReconcileAll? {
        SyncHoldsTemp(p.(rows := Import(p, m.usage, m.now)), m.sync, {}, name, until);
      } else {
        var q := p.(rows := p.rows[op.name := Edited(RowAt(p.rows, op.name), op, m.now)]);
        SyncHoldsTemp(q, m.sync, if op.SetLimit? || op.ClearLimit? then {op.name} else {}, name, until);
      }
    }
  }

  /**
   A temporary block holds, and stays temporary, through any run that leaves its client alone, until its time comes.
   */
  lemma {:induction false} TempBlockHolds(p: Policy, ops: seq<(Op, Moment)>, name: string, until: int)
    requires HeldTemp(p, name, until) && name in p.banned
    requires forall i :: 0 <= i < |ops| ==> Leaves(ops[i].0, name) && ops[i].1.sync.now < until
    ensures HeldTemp(Run(p, ops), name, until) && name in Run(p, ops).banned
  {
    if ops != [] {
      var init, last := ops[..|ops| - 1], ops[|ops| - 1];
      TempBlockHolds(p, init, name, until);
      assert Leaves(last.0, name) && last.1.sync.now < until;
      ApplyHoldsTemp(Run(p, init), last.0, last.1, name, until);
    }
  }

  /** An accepted temporary block is in force until its days are over, whatever stood in the row before. */
  lemma SetTempHolds(p: Policy, name: string, blockDays: int, actor: string, m: Moment)
    requires Accepts(p, SetTemp(name, blockDays, actor), m) && m.sync.now < m.now + 86400 * blockDays
    ensures
      var q := Apply(p, SetTemp(name, blockDays, actor), m);
      HeldTemp(q, name, m.now + 86400 * blockDays) && name in q.banned
  {
    var row := Edited(RowAt(p.rows, name), SetTemp(name, blockDays, actor), m.now);
    SyncHoldsTemp(p.(rows := p.rows[name := row]), m.sync, {}, name, m.now + 86400 * blockDays);
  }

  ghost predicate HeldPerm(p: Policy, name: string) {
    && name in p.rows && name in p.banned
    && p.rows[name].perm && !p.rows[name].temp && p.rows[name].updatedBy != ""
  }

  lemma SyncHoldsPerm(p: Policy, at: Reading, limitChanged: set<string>, name: string)
    requires name in p.rows && name !in limitChanged
    requires p.rows[name].perm && !p.rows[name].temp && p.rows[name].updatedBy != ""
    ensures HeldPerm(Sync(p, at, limitChanged), name)
  {
  }

  lemma ApplyHoldsPerm(p: Policy, op: Op, m: Moment, name: string)
    requires HeldPerm(p, name) && Leaves(op, name)
    ensures HeldPerm(Apply(p, op, m), name)
  {
    if Accepts(p, op, m) {
      if op.ReconcileAll? {
        var q := p.(rows := Import(p, m.usage, m.now));
        assert RowAt(p.rows, name) == p.rows[name];
        SyncHoldsPerm(q, m.sync, {}, name);
      } else {
        var q := p.(rows := p.rows[op.name := Edited(RowAt(p.rows, op.name), op, m.now)]);
        SyncHoldsPerm(q, m.sync, if op.SetLimit? || op.ClearLimit? then {op.name} else {}, name);
      }
    }
  }

  /** A permanent block by a named actor is in force at once, whatever stood in the row before. */
  lemma SetPermanentHolds(p: Policy, name: string, actor: string, m: Moment)
    requires Accepts(p, SetPermanent(name, actor), m) && actor != ""
    ensures HeldPerm(Apply(p, SetPermanent(name, actor), m), name)
  {
    var row := Edited(RowAt(p.rows, name), SetPermanent(name, actor), m.now);
    SyncHoldsPerm(p.(rows := p.rows[name := row]), m.sync, {}, name);
  }

  /** A permanent block set by a named actor holds through any run that leaves its client alone. */
  lemma {:induction false} PermanentBlockHolds(p: Policy, ops: seq<(Op, Moment)>, name: string)
    requires HeldPerm(p, name)
    requires forall i :: 0 <= i < |ops| ==> Leaves(ops[i].0, name)
    ensures HeldPerm(Run(p, ops), name)
  {
    if ops != [] {
      var init, last := ops[..|ops| - 1], ops[|ops| - 1];
      PermanentBlockHolds(p, init, name);
      assert Leaves(last.0, name);
      ApplyHoldsPerm(Run(p, init), last.0, last.1, name);
    }
  }
}
