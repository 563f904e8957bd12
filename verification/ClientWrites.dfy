/** What the operations of firewall6-lists.py leave in the two directories, operation by operation. */
module ClientWrites {
  import opened Options
  import opened ClientText
  import opened ClientPrefixes

  /** These lines stand in the client's file, or it is gone when there are none; the other files are as they were. */
  ghost predicate Replaced(before: Files, after: Files, name: string, lines: seq<Line>) {
    && (name in after <==> lines != []) && (name in after ==> after[name] == lines)
    && forall other :: other != name ==>
      (other in before <==> other in after) && (other in before ==> after[other] == before[other])
  }

  lemma PutExact(files: Files, name: string, lines: seq<Line>)
    ensures Replaced(files, Put(files, name, lines), name, lines)
  {
  }

  /** The texts of a client's two files: only the first gets a mode or a copy of the DEFAULT file. */
  ghost predicate Texts(
    s: State, name: string, prefix: Option<Prefix>, ipv6: bool, mode: RouteMode, a: seq<Line>, b: seq<Line>
  ) {
    && "DEFAULT" in s.ccd
    && Render(FileOf(s.ccd, name), prefix, Some(s.ccd["DEFAULT"]), ipv6, mode) == Some(a)
    && Render(FileOf(s.ccd2, name), prefix, None, ipv6, mode) == Some(b)
  }

  /** Both texts are rendered before anything is written, then the first file is replaced, and then the second. */
  ghost predicate Wrote(
    s: State, s': State, ok: bool, name: string, prefix: Option<Prefix>, ipv6: bool, mode: RouteMode,
    first: bool, second: bool
  ) {
    && ((forall a, b :: !Texts(s, name, prefix, ipv6, mode, a, b)) ==> s' == s && !ok)
    && forall a, b :: Texts(s, name, prefix, ipv6, mode, a, b) ==>
      if !first then s' == s && !ok
      else
        && Replaced(s.ccd, s'.ccd, name, a) && ok == second
        && if second then Replaced(s.ccd2, s'.ccd2, name, b) else s'.ccd2 == s.ccd2
  }

  ghost predicate Writes(
    s: State, s': State, name: string, prefix: Option<Prefix>, ipv6: bool, mode: RouteMode, first: bool, second: bool
  ) {
    exists ok :: Wrote(s, s', ok, name, prefix, ipv6, mode, first, second)
  }

  lemma WriteExact(
    s: State, name: string, prefix: Option<Prefix>, ipv6: bool, mode: RouteMode, first: bool, second: bool
  )
    ensures
      var (s', ok) := WriteClient(s, name, prefix, ipv6, mode, first, second);
      Wrote(s, s', ok, name, prefix, ipv6, mode, first, second)
  {
    if a, b :| Texts(s, name, prefix, ipv6, mode, a, b) {
      PutExact(s.ccd, name, a);
      PutExact(s.ccd2, name, b);
    }
    if "DEFAULT" in s.ccd {
      var a := Render(FileOf(s.ccd, name), prefix, Some(s.ccd["DEFAULT"]), ipv6, mode);
      var b := Render(FileOf(s.ccd2, name), prefix, None, ipv6, mode);
      assert a.Some? && b.Some? ==> Texts(s, name, prefix, ipv6, mode, a.value, b.value);
    }
  }

  lemma WriteWrites(
    s: State, name: string, prefix: Option<Prefix>, ipv6: bool, mode: RouteMode, first: bool, second: bool
  )
    ensures
      var s' := WriteClient(s, name, prefix, ipv6, mode, first, second).0;
      Writes(s, s', name, prefix, ipv6, mode, first, second)
  {
    WriteExact(s, name, prefix, ipv6, mode, first, second);
    var (s', ok) := WriteClient(s, name, prefix, ipv6, mode, first, second);
    assert Wrote(s, s', ok, name, prefix, ipv6, mode, first, second);
  }

  /** The mode that a file asks for, as far as BGP is enabled. */
  ghost function ModeOf(lines: seq<Line>, env: Env): RouteMode {
    if env.bgp && ModeTags(lines) == [true] then Bgp else Static
  }

  ghost predicate ModeReadable(lines: seq<Line>) { ModeTags(lines) == [] || ModeTags(lines) == [true] }

  /** A refused operation changes nothing; an accepted one writes the files of its client and no others. */
  lemma SetWrites(s: State, name: string, value: Option<Prefix>, env: Env, works: nat -> bool)
    ensures
      var s' := Apply(s, SetPrefix(name, value), env, works);
      if !SetAccepted(s, name, value) then s' == s
      else Writes(s, s', name, value, env.ipv6, ModeOf(FileOf(s.ccd, name), env), works(0), works(1))
  {
    WriteWrites(s, name, value, env.ipv6, ModeOf(FileOf(s.ccd, name), env), works(0), works(1));
  }

  lemma ClearWrites(s: State, name: string, env: Env, works: nat -> bool)
    ensures
      var s' := Apply(s, ClearPrefix(name), env, works);
      if !ValidName(name) || !ModeReadable(FileOf(s.ccd, name)) then s' == s
      else Writes(s, s', name, None, env.ipv6, ModeOf(FileOf(s.ccd, name), env), works(0), works(1))
  {
    WriteWrites(s, name, None, env.ipv6, ModeOf(FileOf(s.ccd, name), env), works(0), works(1));
  }

  lemma ModeWrites(s: State, name: string, mode: RouteMode, env: Env, works: nat -> bool)
    ensures
      var s', read := Apply(s, SetMode(name, mode), env, works), ReadPrefix(s, name);
      if !ValidName(name) || (mode == Bgp && !env.bgp) || read.None? then s' == s
      else Writes(s, s', name, read.value, env.ipv6, mode, works(0), works(1))
  {
    if ReadPrefix(s, name).Some? {
      WriteWrites(s, name, ReadPrefix(s, name).value, env.ipv6, mode, works(0), works(1));
    }
  }

  /** A deletion removes the first file and then, unless that failed, the second. */
  lemma DeleteRemoves(s: State, name: string, env: Env, works: nat -> bool)
    ensures
      var s' := Apply(s, DeleteConfig(name), env, works);
      if !ValidName(name) || !works(0) then s' == s
      else
        && Replaced(s.ccd, s'.ccd, name, [])
        && if works(1) then Replaced(s.ccd2, s'.ccd2, name, []) else s'.ccd2 == s.ccd2
  {
  }

  /** A rewriting of the routes replaces the DEFAULT file, unless its markers are wrong or the write fails. */
  lemma RewriteWrites(
    s: State, networks: seq<Prefix>, enabled: bool, fake: Option<Prefix>, env: Env, works: nat -> bool
  )
    ensures
      var s' := Apply(s, RewriteDefault(networks, enabled, fake), env, works);
      var lines := RewriteRoutes(FileOf(s.ccd, "DEFAULT"), networks, enabled, fake);
      if lines.None? || !works(0) then s' == s
      else
        && s'.ccd2 == s.ccd2 && "DEFAULT" in s'.ccd && s'.ccd["DEFAULT"] == lines.value
        && s'.ccd - {"DEFAULT"} == s.ccd - {"DEFAULT"}
  {
  }

  /******* Synchronisation *******/

  /** One client of a sync: written with the prefix it had before the first write, unless its mode cannot be read. */
  ghost predicate Synced(start: State, s: State, s': State, ok: bool, name: string, env: Env, first: bool, second: bool)
  {
    if ReadPrefix(start, name).None? || (env.bgp && !ModeReadable(FileOf(s.ccd, name))) then s' == s && !ok
    else
      Wrote(s, s', ok, name, ReadPrefix(start, name).value, env.ipv6, ModeOf(FileOf(s.ccd, name), env), first, second)
  }

  lemma OneSynced(start: State, s: State, name: string, env: Env, first: bool, second: bool)
    ensures var (s', ok) := SyncOne(start, s, name, env, first, second);
      Synced(start, s, s', ok, name, env, first, second)
  {
    if ReadPrefix(start, name).Some? {
      WriteExact(s, name, ReadPrefix(start, name).value, env.ipv6, ModeOf(FileOf(s.ccd, name), env), first, second);
    }
  }

  /** The step from the k-th state of a sync to the next; only the last can fail. */
  ghost predicate SyncedAt(
    start: State, order: seq<string>, env: Env, works: nat -> bool, states: seq<State>, ok: bool, k: nat
  )
    requires k + 1 < |states| && k < |order|
  {
    Synced(start, states[k], states[k + 1], ok || k + 2 < |states|, order[k], env, works(2 * k), works(2 * k + 1))
  }

  /** The states of a sync of the first clients: each is written after the one before it, up to the first that fails. */
  ghost predicate SyncedInTurn(
    start: State, order: seq<string>, env: Env, works: nat -> bool, states: seq<State>, ok: bool, count: nat
  ) {
    && count <= |order| && 0 < |states| <= count + 1 && states[0] == start
    && (if ok then |states| == count + 1 else |states| > 1)
    && forall k: nat :: k + 1 < |states| ==> SyncedAt(start, order, env, works, states, ok, k)
  }

  lemma InTurnOneMore(
    start: State, order: seq<string>, env: Env, works: nat -> bool, states: seq<State>, k: nat, s': State, ok': bool
  )
    requires k < |order| && SyncedInTurn(start, order, env, works, states, true, k)
    requires Synced(start, states[k], s', ok', order[k], env, works(2 * k), works(2 * k + 1))
    ensures SyncedInTurn(start, order, env, works, states + [s'], ok', k + 1)
  {
    var more := states + [s'];
    forall j: nat | j + 1 < |more| ensures SyncedAt(start, order, env, works, more, ok', j) {
      if j < k {
        StepStays(start, order, env, works, states, j, s', ok');
      }
    }
  }

  lemma StepStays(
    start: State, order: seq<string>, env: Env, works: nat -> bool, states: seq<State>, j: nat, s': State, ok': bool
  )
    requires j + 1 < |states| && j < |order| && SyncedAt(start, order, env, works, states, true, j)
    ensures SyncedAt(start, order, env, works, states + [s'], ok', j)
  {
    var more := states + [s'];
    assert more[j] == states[j] && more[j + 1] == states[j + 1] && j + 2 < |more|;
  }

  /** The loop of a sync, one client further. */
  lemma LoopOneMore(start: State, order: seq<string>, k: nat, env: Env, works: nat -> bool, s: State)
    requires k < |order| && UntilFailure(start, k, SyncStep(start, order, env, works)) == (s, true)
    ensures UntilFailure(start, k + 1, SyncStep(start, order, env, works)) ==
      SyncOne(start, s, order[k], env, works(2 * k), works(2 * k + 1))
  {
  }

  lemma {:induction false} SyncWritesInTurn(start: State, order: seq<string>, k: nat, env: Env, works: nat -> bool)
    returns (states: seq<State>)
    requires k <= |order|
    ensures SyncedInTurn(
      start, order, env, works, states, UntilFailure(start, k, SyncStep(start, order, env, works)).1, k)
    ensures states[|states| - 1] == UntilFailure(start, k, SyncStep(start, order, env, works)).0
  {
    if k == 0 {
      states := [start];
    } else {
      var i := k - 1;
      states := SyncWritesInTurn(start, order, i, env, works);
      var (s, ok) := UntilFailure(start, i, SyncStep(start, order, env, works));
      if ok {
        LoopOneMore(start, order, i, env, works, s);
        OneSynced(start, s, order[i], env, works(2 * i), works(2 * i + 1));
        var (s', ok') := SyncOne(start, s, order[i], env, works(2 * i), works(2 * i + 1));
        InTurnOneMore(start, order, env, works, states, i, s', ok');
        states := states + [s'];
      }
    }
  }

  /**
   A sync that is accepted leaves the last of the states that its clients, in the order given, go through; one that is
   not leaves everything.
   */
  lemma SyncWrites(s: State, order: seq<string>, env: Env, works: nat -> bool) returns (states: seq<State>, ok: bool)
    requires OrdersManaged(s, order)
    ensures !SyncAccepted(s) ==> Apply(s, Sync(order), env, works) == s
    ensures SyncAccepted(s) ==>
      && SyncedInTurn(s, order, env, works, states, ok, |order|)
      && states[|states| - 1] == Apply(s, Sync(order), env, works)
  {
    states := SyncWritesInTurn(s, order, |order|, env, works);
    ok := UntilFailure(s, |order|, SyncStep(s, order, env, works)).1;
  }
}
