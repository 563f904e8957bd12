/** The service object of openvpn_access_policy.py: rows of the database session, committed rows, and the ban file. */
module AccessPolicyService {
  import opened Options
  import opened AccessPolicy

  class OpenVpnAccessPolicyService {
    // The rows as the session sees them; what of them has been committed; the ban file.
    var rows: map<string, Row>
    var committed: map<string, Row>
    var banned: set<string>

    ghost predicate Valid()
      reads this
    {
      committed == rows
    }

    ghost function View(): Policy
      reads this
    {
      Policy(rows, banned)
    }

    constructor ()
      ensures Valid() && View() == Policy(map[], {})
    {
      rows, committed, banned := map[], map[], {};
    }

    /** One row of _sync_banlist_from_policy: the two cleanups, the effective state, and whether anything changed. */
    method SyncOne(name: string, at: Reading, limitChanged: bool) returns (changed: bool, blocked: bool)
      requires name in rows
      modifies this`rows
      ensures rows == old(rows)[name := SyncRow(name, old(rows)[name], at, limitChanged)]
      ensures blocked == BlockedBySync(name, old(rows)[name], at, limitChanged)
      // A change that is not reported would never be committed.
      ensures !changed ==> rows == old(rows)
    {
      changed := false;
      var row := rows[name];
      if row.temp && row.until.Some? && row.until.value <= at.now {
        row := row.(temp := false, reason := None, startedAt := None, days := None, until := None);
        changed := true;
      }
      if Exceeded(name, row, at.usage) {
        if row.perm && !row.temp && row.updatedBy == "" {
          row := row.(perm := false, startedAt := None, days := None, until := None);
          changed := true;
        }
      } else {
        if row.reason == Some(TrafficLimit) {
          row := row.(startedAt := None, days := None, until := None);
          changed := true;
        }
        if limitChanged && row.perm && !row.temp {
          row := row.(perm := false, startedAt := None, days := None, until := None);
          changed := true;
        }
      }
      var reason := EffectiveReason(name, row, at.stateUsage, at.now);
      if row.reason != reason {
        row := row.(reason := reason);
        changed := true;
      }
      blocked := Blocked(name, row, at.stateUsage, at.now);
      rows := rows[name := row];
    }

    method SyncBanlistFromPolicy(at: Reading, limitChanged: set<string>)
      requires Valid()
      modifies this
      ensures Valid()
      ensures View() == Sync(old(View()), at, limitChanged)
    {
      var changed, blockedClients := false, {};
      var left := rows.Keys;
      while left != {}
        invariant left <= rows.Keys == old(rows).Keys
        invariant forall n :: n in rows ==>
          rows[n] == if n in left then old(rows)[n] else SyncRow(n, old(rows)[n], at, n in limitChanged)
        invariant forall n :: n in blockedClients <==>
          n in rows && n !in left && BlockedBySync(n, old(rows)[n], at, n in limitChanged)
        invariant !changed ==> rows == committed
      {
        var n :| n in left;
        left := left - {n};
        var rowChanged, blocked := SyncOne(n, at, n in limitChanged);
        changed := changed || rowChanged;
        if blocked {
          blockedClients := blockedClients + {n};
        }
      }
      if changed {
        committed := rows;
      }
      banned := blockedClients;
      assert rows == Sync(old(View()), at, limitChanged).rows;
    }

    /** The common end of the setters: the row is stored and committed, then everything is synchronised. */
    method StoreAndReconcile(op: Op, row: Row, m: Moment, limitChanged: set<string>)
      requires Valid() && !op.ReconcileAll? && Accepts(View(), op, m)
      requires row == Edited(RowAt(rows, op.name), op, m.now)
      requires limitChanged == if op.SetLimit? || op.ClearLimit? then {op.name} else {}
      modifies this
      ensures Valid()
      ensures View() == Apply(old(View()), op, m)
    {
      rows := rows[op.name := row];
      committed := rows;
      SyncBanlistFromPolicy(m.sync, limitChanged);
    }

    method SetTempBlockDays(name: string, blockDays: int, actor: string, m: Moment) returns (accepted: bool)
      requires Valid()
      modifies this
      ensures Valid()
      ensures accepted == Accepts(old(View()), SetTemp(name, blockDays, actor), m) == (blockDays >= 1 && name != "")
      ensures View() == Apply(old(View()), SetTemp(name, blockDays, actor), m)
    {
      if blockDays < 1 || name == "" {
        return false;
      }
      var row := RowAt(rows, name);
      row := row.(temp := true, perm := false, reason := Some(ManualTemp), startedAt := Some(m.now),
        days := Some(blockDays),
                  until := Some(m.now + blockDays * DAY), updatedBy := actor);
      StoreAndReconcile(SetTemp(name, blockDays, actor), row, m, {});
      return true;
    }

    method SetPermanentBlock(name: string, actor: string, m: Moment) returns (accepted: bool)
      requires Valid()
      modifies this
      ensures Valid()
      ensures accepted == Accepts(old(View()), SetPermanent(name, actor), m) == (name != "")
      ensures View() == Apply(old(View()), SetPermanent(name, actor), m)
    {
      if name == "" {
        return false;
      }
      var row := RowAt(rows, name);
      row := row.(temp := false, perm := true, reason := Some(ManualPermanent), startedAt := Some(m.now), days := None,
                  until := None, updatedBy := actor);
      StoreAndReconcile(SetPermanent(name, actor), row, m, {});
      return true;
    }

    /**
     A bad period is found after the limit was assigned to the session's row; nothing of it is committed or written.
     */
    method SetTrafficLimitBytes(name: string, bytes: int, limitPeriod: Option<int>, actor: string, m: Moment)
      returns (accepted: bool)
      requires Valid()
      modifies this
      ensures accepted == Accepts(old(View()), SetLimit(name, bytes, limitPeriod, actor), m)
      ensures accepted == (bytes >= 1 && name != "" && (limitPeriod.Some? ==> limitPeriod.value in {1, 7, 30}))
      ensures accepted ==> Valid() && View() == Apply(old(View()), SetLimit(name, bytes, limitPeriod, actor), m)
      ensures !accepted ==> committed == old(committed) && banned == old(banned)
      ensures !accepted && (bytes < 1 || name == "") ==> rows == old(rows)
      ensures !accepted && bytes >= 1 && name != "" ==>
        rows == old(rows)[name := RowAt(old(rows), name).(limit := Some(bytes))]
    {
      if bytes < 1 || name == "" {
        return false;
      }
      var row := RowAt(rows, name).(limit := Some(bytes));
      if limitPeriod.Some? && limitPeriod.value !in {1, 7, 30} {
        rows := rows[name := row];
        return false;
      }
      row := row.(period := limitPeriod, updatedBy := actor);
      StoreAndReconcile(SetLimit(name, bytes, limitPeriod, actor), row, m, {name});
      return true;
    }

    method ClearTrafficLimit(name: string, actor: string, m: Moment) returns (accepted: bool)
      requires Valid()
      modifies this
      ensures Valid()
      ensures accepted == Accepts(old(View()), ClearLimit(name, actor), m) == (name != "")
      ensures View() == Apply(old(View()), ClearLimit(name, actor), m)
    {
      if name == "" {
        return false;
      }
      var row := RowAt(rows, name).(limit := None, period := None, updatedBy := actor);
      StoreAndReconcile(ClearLimit(name, actor), row, m, {name});
      return true;
    }

    method ClearClientBlock(name: string, actor: string, m: Moment) returns (accepted: bool)
      requires Valid()
      modifies this
      ensures Valid()
      ensures accepted == Accepts(old(View()), ClearBlock(name, actor), m)
      ensures accepted ==
        (name != "" && !(name in old(rows) && old(rows)[name].limit.Some? &&
                         m.usage(name, old(rows)[name].limit.value, old(rows)[name].period)))
      ensures View() == Apply(old(View()), ClearBlock(name, actor), m)
    {
      if name == "" || Exceeded(name, RowAt(rows, name), m.usage) {
        return false;
      }
      var row := RowAt(rows, name);
      row := row.(temp := false, perm := false, reason := None, startedAt := None, days := None, until := None,
        updatedBy := actor);
      StoreAndReconcile(ClearBlock(name, actor), row, m, {});
      return true;
    }

    /** One entry of the ban file in reconcile_all; a row created here is always promoted, hence reported. */
    method ImportOne(n: string, m: Moment) returns (changed: bool)
      requires n != ""
      modifies this`rows
      ensures rows == old(rows)[n := Imported(n, RowAt(old(rows), n), m.usage, m.now)]
      ensures !changed ==> rows == old(rows)
    {
      var row := RowAt(rows, n);
      if Exceeded(n, row, m.usage) || row.reason == Some(TrafficLimit) || row.limit.Some? || row.temp || row.perm {
        rows := rows[n := row];
        return false;
      }
      rows := rows[n := row.(perm := true, reason := Some(ManualPermanent), startedAt := Some(m.now), days := None,
        until := None)];
      return true;
    }

    method ReconcileAllClients(m: Moment)
      requires Valid()
      modifies this
      ensures Valid()
      ensures View() == Apply(old(View()), ReconcileAll, m)
    {
      var changed := false;
      var left := banned - {""};
      while left != {}
        invariant left <= banned - {""} && banned == old(banned)
        invariant rows.Keys == old(rows).Keys + (banned - left - {""})
        invariant forall n :: n in rows ==>
          rows[n] == if n in banned && n !in left && n != "" then Imported(n, RowAt(old(rows), n), m.usage, m.now)
                     else RowAt(old(rows), n)
        invariant !changed ==> rows == committed
      {
        var n :| n in left;
        left := left - {n};
        assert RowAt(rows, n) == RowAt(old(rows), n);
        var rowChanged := ImportOne(n, m);
        changed := changed || rowChanged;
      }
      if changed {
        committed := rows;
      }
      assert rows == Import(old(View()), m.usage, m.now);
      SyncBanlistFromPolicy(m.sync, {});
    }
  }
}
