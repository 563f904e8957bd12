/**
 Publishing of BGP routes (setup/root/antizapret/bgp-update.py, publish): a new generation is built aside, the current
 link is switched, the config is written, and old generations are collected. Any step may fail.
 */
module BgpPublish {
  import opened Options

  type Name = nat

  /** A generation directory; one that is being built or half removed lacks files. */
  datatype Generation = Generation(routes4: Option<string>, routes6: Option<string>, digest: Option<nat>)
  const EMPTY_GENERATION := Generation(None, None, None)

  /** What stands at "current"; Plain is anything that is not a link. */
  datatype Current = Absent | LinkTo(name: Name) | Plain

  datatype State = State(gens: map<Name, Generation>, current: Current, config: Option<string>)

  /** The texts of one publication, a deterministic function of its inputs. */
  datatype Rendered = Rendered(stable: string, routes4: string, routes6: string)

  datatype Stage = Preparing | Switching | Collecting
  datatype Result = Updated | Unchanged | Failed(stage: Stage)

  predicate Complete(g: Generation) { g.routes4.Some? && g.routes6.Some? && g.digest.Some? }

  /** Current, if it is a link, names an existing complete generation. */
  ghost predicate Sound(s: State) {
    s.current.LinkTo? ==> s.current.name in s.gens && Complete(s.gens[s.current.name])
  }

  ghost predicate AllSound(trace: seq<State>) {
    forall i :: 0 <= i < |trace| ==> Sound(trace[i])
  }

  function GenerationOf(r: Rendered, hash: string -> nat): Generation {
    Generation(Some(r.routes4), Some(r.routes6), Some(hash(r.stable + r.routes4 + r.routes6)))
  }

  /** These texts are what is published now. */
  ghost predicate Published(s: State, r: Rendered, hash: string -> nat) {
    && s.current.LinkTo? && s.current.name in s.gens
    && s.gens[s.current.name] == GenerationOf(r, hash)
    && s.config == Some(r.stable)
  }

  /** What a rolled back switch leaves at current: the old link, or nothing. */
  function RolledBack(old': Current): Current { if old'.LinkTo? then old' else Absent }

  /** What a publication makes of a state: the new generation in force, beside it only the one in force before. */
  function After(s: State, r: Rendered, made: Name, hash: string -> nat): State {
    State(
      map g | g in s.gens.Keys + {made} && (g == made || s.current == LinkTo(g)) ::
        if g == made then GenerationOf(r, hash) else s.gens[g],
      LinkTo(made), Some(r.stable))
  }

  /** The log only grows, and ends with the state that is in force. */
  ghost predicate Logs(trace: seq<State>, s: State, trace': seq<State>, s': State) {
    trace <= trace' && if trace' == trace then s' == s else trace'[|trace'| - 1] == s'
  }

  /** Every state logged after this point has the link, the config and the other generations of s. */
  ghost predicate OnlyBuilds(trace: seq<State>, from: nat, s: State, made: Name) {
    forall i :: from <= i < |trace| ==>
      trace[i].current == s.current && trace[i].config == s.config && trace[i].gens - {made} == s.gens
  }

  /** The state and the log of a publication that has only built so far. */
  ghost predicate Building(s0: State, from: nat, made: Name, trace: seq<State>, s: State) {
    && s.current == s0.current && s.config == s0.config && s.gens - {made} == s0.gens
    && from <= |trace| && OnlyBuilds(trace, from, s0, made)
    && AllSound(trace) && Sound(s)
  }

  lemma BuildsOn(s0: State, from: nat, made: Name, trace: seq<State>, s: State, s': State)
    requires made !in s0.gens && Sound(s0) && Building(s0, from, made, trace, s)
    requires s'.current == s0.current && s'.config == s0.config && s'.gens - {made} == s0.gens
    ensures Building(s0, from, made, trace + [s'], s')
  {
    assert forall g :: g in s0.gens ==> g in s'.gens - {made} && s'.gens[g] == s0.gens[g];
    var more := trace + [s'];
    forall i | from <= i < |more|
      ensures more[i].current == s0.current && more[i].config == s0.config && more[i].gens - {made} == s0.gens
    {
      assert i < |trace| ==> more[i] == trace[i];
    }
  }

  /** The first of these steps that fails, or the step behind them. */
  function FirstFailure(works: nat -> bool, from: nat, count: nat): (f: nat)
    ensures from <= f <= from + count
    ensures forall i :: from <= i < f ==> works(i)
    ensures f < from + count ==> !works(f)
    decreases count
  {
    if count == 0 || !works(from) then from else FirstFailure(works, from + 1, count - 1)
  }

  ghost predicate SomeFails(works: nat -> bool, from: nat, end: nat) {
    exists i :: from <= i < end && !works(i)
  }

  ghost predicate AtMostOneFails(works: nat -> bool, from: nat, end: nat) {
    forall i, j :: from <= i < j < end ==> works(i) || works(j)
  }

  datatype Switched = Switched(s: State, ok: bool, restored: bool, n: nat)

  /** How many steps the switch takes when none fails. */
  function SwitchSteps(reload: bool): nat { if reload then 4 else 3 }

  /**
   The switch from step n on: link, config, validation, perhaps a reload; or the rollback of whatever had been done.
   */
  function SwitchOf(s: State, r: Rendered, made: Name, reload: bool, works: nat -> bool, n: nat): Switched {
    var f := FirstFailure(works, n, SwitchSteps(reload));
    if f == n + SwitchSteps(reload) then Switched(s.(current := LinkTo(made), config := Some(r.stable)), true, false, f)
    else
      var written, linked := f >= n + 2, works(f + 1);
      var restored := linked && (written ==> works(f + 2));
      Switched(
        s.(current := if linked then RolledBack(s.current) else if f > n then LinkTo(made) else s.current,
           config := if written && !restored then Some(r.stable) else s.config),
        false, restored, if linked && written then f + 3 else f + 2)
  }

  /**
   A failed switch whose rollback steps work is undone exactly when current was a link or nothing; one failure is
   always undone.
   */
  lemma SwitchUndoneIff(s: State, r: Rendered, made: Name, reload: bool, works: nat -> bool, n: nat)
    ensures
      var out := SwitchOf(s, r, made, reload, works, n);
      && n <= out.n && (out.ok <==> !SomeFails(works, n, out.n))
      && (!out.ok && AtMostOneFails(works, n, out.n) ==> out.restored)
      && (!out.ok && out.restored ==> (out.s == s <==> s.current != Plain))
  {
    var f := FirstFailure(works, n, SwitchSteps(reload));
    var out := SwitchOf(s, r, made, reload, works, n);
    if !out.ok {
      assert n <= f < out.n && !works(f);
    }
  }

  /**
   With a reload the switch takes exactly one more step, and fails unless that one works, too. When all of them work the
   new link and the new config are in force; no switch touches a generation.
   */
  lemma ReloadIsAStep(s: State, r: Rendered, made: Name, works: nat -> bool, n: nat)
    ensures
      var with, without := SwitchOf(s, r, made, true, works, n), SwitchOf(s, r, made, false, works, n);
      && (with.ok <==> works(n) && works(n + 1) && works(n + 2) && works(n + 3)) && (with.ok ==> with.n == n + 4)
      && (without.ok <==> works(n) && works(n + 1) && works(n + 2)) && (without.ok ==> without.n == n + 3)
      && (with.ok ==> with.s == State(s.gens, LinkTo(made), Some(r.stable)))
      && (without.ok ==> without.s == State(s.gens, LinkTo(made), Some(r.stable)))
      && with.s.gens == without.s.gens == s.gens
  {
    var f, g := FirstFailure(works, n, 4), FirstFailure(works, n, 3);
  }

  /**
   A switch that failed at step f: what its rollback brings back depends on the two steps behind f, the link first and
   then, if a new config had been written, the config.
   */
  lemma FailedSwitchExact(s: State, r: Rendered, made: Name, reload: bool, works: nat -> bool, n: nat, f: nat)
    requires n <= f < n + (if reload then 4 else 3) && !works(f) && forall i :: n <= i < f ==> works(i)
    ensures
      var out, written := SwitchOf(s, r, made, reload, works, n), n + 2 <= f;
      && !out.ok && out.restored == (works(f + 1) && (written ==> works(f + 2)))
      && (works(f + 1) ==> out.s.current == if s.current.LinkTo? then s.current else Absent)
      && (!works(f + 1) ==> out.s.current == if f == n then s.current else LinkTo(made))
      && (!written || out.restored ==> out.s.config == s.config)
      && (written && !out.restored ==> out.s.config == Some(r.stable))
  {
    assert FirstFailure(works, n, SwitchSteps(reload)) == f;
  }

  /**
   A publication that went through: the link and the config are the new ones, the linked generation holds the rendered
   routes and the digest of all three texts, and of the others only the one that was linked before is left, as it was.
   */
  lemma AfterExact(s: State, r: Rendered, made: Name, hash: string -> nat)
    requires made !in s.gens
    ensures
      var t := After(s, r, made, hash);
      && t.current == LinkTo(made) && t.config == Some(r.stable)
      && made in t.gens
      && t.gens[made].routes4 == Some(r.routes4) && t.gens[made].routes6 == Some(r.routes6)
      && t.gens[made].digest == Some(hash(r.stable + r.routes4 + r.routes6))
      && (forall g :: g != made ==> (g in t.gens <==> g in s.gens && s.current == LinkTo(g)))
      && (forall g :: g != made && g in t.gens ==> t.gens[g] == s.gens[g])
  {
    var t := After(s, r, made, hash);
    assert t.gens.Keys == set g | g in s.gens.Keys + {made} && (g == made || s.current == LinkTo(g));
  }

  /** A single failing step, whose rollback works throughout, and something at current that was no link is gone. */
  lemma PlainIsLost(r: Rendered, made: Name) returns (s: State, works: nat -> bool)
    ensures s.current == Plain && AtMostOneFails(works, 0, SwitchOf(s, r, made, false, works, 0).n)
    ensures SwitchOf(s, r, made, false, works, 0).restored
    ensures SwitchOf(s, r, made, false, works, 0).s.current == Absent
  {
    s, works := State(map[made := GenerationOf(r, text => 0)], Plain, None), i => i != 0;
    assert FirstFailure(works, 0, 3) == 0;
  }

  class BgpPublisher {
    const hash: string -> nat
    // Does the n-th step work?
    const works: nat -> bool
    var n: nat
    var gens: map<Name, Generation>
    var current: Current
    var config: Option<string>
    ghost var trace: seq<State>

    ghost function View(): State
      reads this
    {
      State(gens, current, config)
    }

    ghost predicate AllWork() {
      forall i :: works(i)
    }

    constructor (hash: string -> nat, works: nat -> bool, s: State)
      ensures this.hash == hash && this.works == works && View() == s && trace == []
    {
      this.hash, this.works, n := hash, works, 0;
      gens, current, config := s.gens, s.current, s.config;
      trace := [];
    }

    /******* Steps *******/

    method Tick() returns (ok: bool)
      modifies this`n
      ensures ok == works(old(n)) && n == old(n) + 1
    {
      ok := works(n);
      n := n + 1;
    }

    method SetGeneration(name: Name, g: Generation) returns (ok: bool)
      modifies this`n, this`gens, this`trace
      ensures ok == works(old(n)) && n == old(n) + 1
      ensures gens == if ok then old(gens)[name := g] else old(gens)
      ensures trace == old(trace) + [View()]
    {
      ok := Tick();
      if ok { gens := gens[name := g]; }
      trace := trace + [View()];
    }

    /** remove_generation: a failure may leave the directory without some of its files. */
    method RemoveGeneration(name: Name) returns (ok: bool)
      modifies this`n, this`gens, this`trace
      ensures ok == works(old(n)) && n == old(n) + 1
      ensures ok ==> gens == old(gens) - {name}
      ensures !ok ==> gens == if name in old(gens) then old(gens)[name := EMPTY_GENERATION] else old(gens)
      ensures trace == old(trace) + [View()]
    {
      ok := Tick();
      if ok {
        gens := gens - {name};
      } else if name in gens {
        gens := gens[name := EMPTY_GENERATION];
      }
      trace := trace + [View()];
    }

    method ReplaceSymlink(name: Name) returns (ok: bool)
      modifies this`n, this`current, this`trace
      ensures ok == works(old(n)) && n == old(n) + 1
      ensures current == if ok then LinkTo(name) else old(current)
      ensures trace == old(trace) + [View()]
    {
      ok := Tick();
      if ok { current := LinkTo(name); }
      trace := trace + [View()];
    }

    method UnlinkCurrent() returns (ok: bool)
      modifies this`n, this`current, this`trace
      ensures ok == works(old(n)) && n == old(n) + 1
      ensures current == if ok then Absent else old(current)
      ensures trace == old(trace) + [View()]
    {
      ok := Tick();
      if ok { current := Absent; }
      trace := trace + [View()];
    }

    method WriteConfig(text: Option<string>) returns (ok: bool)
      modifies this`n, this`config, this`trace
      ensures ok == works(old(n)) && n == old(n) + 1
      ensures config == if ok then text else old(config)
      ensures trace == old(trace) + [View()]
    {
      ok := Tick();
      if ok { config := text; }
      trace := trace + [View()];
    }

    /******* Publishing *******/

    /** One file of the new generation. */
    method BuildFile(made: Name, g: Generation, ghost s0: State, ghost from: nat) returns (ok: bool)
      requires made !in s0.gens && Sound(s0) && Building(s0, from, made, trace, View())
      modifies this`n, this`gens, this`trace
      ensures ok == works(old(n)) && n == old(n) + 1
      ensures gens == if ok then old(gens)[made := g] else old(gens)
      ensures trace == old(trace) + [View()] && Building(s0, from, made, trace, View())
    {
      assert old(gens)[made := g] - {made} == old(gens) - {made};
      ok := SetGeneration(made, g);
      BuildsOn(s0, from, made, old(trace), old(View()), View());
    }

    /** The new generation, file by file, then its validation; current and config are not touched. */
    method Build(r: Rendered, made: Name) returns (ok: bool)
      requires made !in gens && Sound(View()) && AllSound(trace)
      modifies this`n, this`gens, this`trace
      ensures old(n) < n && ok == works(n - 1) && forall i :: old(n) <= i < n - 1 ==> works(i)
      ensures ok ==> gens == old(gens)[made := GenerationOf(r, hash)]
      ensures old(trace) <= trace && |trace| > |old(trace)| && trace[|trace| - 1] == View()
      ensures Building(old(View()), |old(trace)|, made, trace, View())
    {
      ghost var s0, from := View(), |trace|;
      assert gens - {made} == gens;
      ok := BuildRoutes(r, made, s0, from);
      if !ok { return; }
      ok := Tick();   // validation of the candidate
      if !ok { return; }
      ok := BuildFile(made, GenerationOf(r, hash), s0, from);
    }

    /** The directory and its two route files. */
    method BuildRoutes(r: Rendered, made: Name, ghost s0: State, ghost from: nat) returns (ok: bool)
      requires made !in s0.gens && Sound(s0) && Building(s0, from, made, trace, View())
      modifies this`n, this`gens, this`trace
      ensures old(n) < n && ok == works(n - 1) && forall i :: old(n) <= i < n - 1 ==> works(i)
      ensures ok ==> gens == old(gens)[made := Generation(Some(r.routes4), Some(r.routes6), None)]
      ensures old(trace) < trace && trace[|trace| - 1] == View() && Building(s0, from, made, trace, View())
    {
      ok := BuildFile(made, EMPTY_GENERATION, s0, from);
      if !ok { return; }
      ok := BuildFile(made, Generation(Some(r.routes4), None, None), s0, from);
      if !ok { return; }
      ok := BuildFile(made, Generation(Some(r.routes4), Some(r.routes6), None), s0, from);
    }

    /** The new generation is removed again before anything was switched. */
    method Discard(made: Name, ghost s0: State, ghost from: nat) returns (ok: bool)
      requires made !in s0.gens && Sound(s0) && Building(s0, from, made, trace, View())
      modifies this`n, this`gens, this`trace
      ensures ok == works(old(n)) && n == old(n) + 1
      ensures ok ==> View() == s0
      ensures trace == old(trace) + [View()] && Building(s0, from, made, trace, View())
    {
      ok := RemoveGeneration(made);
      assert gens - {made} == s0.gens;
      BuildsOn(s0, from, made, old(trace), old(View()), View());
    }

    /** The no-change test; an unreadable file counts as a change. */
    method IsUnchanged(r: Rendered) returns (same: bool)
      modifies this`n
      ensures same ==> Published(View(), r, hash)
      ensures Published(View(), r, hash) && !same ==> SomeFails(works, old(n), n)
      ensures old(n) <= n
    {
      same := false;
      var manifestRead := Tick();
      if current.LinkTo? && current.name in gens && manifestRead {
        var g := gens[current.name];
        if g.digest == Some(hash(r.stable + r.routes4 + r.routes6)) && config.Some? {
          var filesRead := Tick();
          same := filesRead && config.value == r.stable && g.routes4 == Some(r.routes4) && g.routes6 == Some(r.routes6);
        }
      }
    }

    /**
     The switch and, when one of its steps fails, its rollback: the link first, then the config if it had been written.
     What it leaves and whether it is restored is determined by the steps that work.
     */
    method Switch(r: Rendered, made: Name, reload: bool) returns (ok: bool, restored: bool)
      requires made in gens && Complete(gens[made]) && Sound(View()) && AllSound(trace)
      modifies this`n, this`current, this`config, this`trace
      ensures Switched(View(), ok, restored, n) == SwitchOf(old(View()), r, made, reload, works, old(n))
      ensures Sound(View()) && AllSound(trace) && Logs(old(trace), old(View()), trace, View())
    {
      var oldTarget, oldConfig := current, config;
      var written;
      ok, written := SwitchForward(r, made, reload);
      restored := false;
      if !ok {
        restored := SwitchBack(oldTarget, oldConfig, written);
      }
    }

    /** Link, config, validation and reload, up to the first that fails. */
    method SwitchForward(r: Rendered, made: Name, reload: bool) returns (ok: bool, written: bool)
      requires made in gens && Complete(gens[made]) && Sound(View()) && AllSound(trace)
      modifies this`n, this`current, this`config, this`trace
      ensures
        var f := FirstFailure(works, old(n), SwitchSteps(reload));
        && (ok <==> f == old(n) + SwitchSteps(reload)) && n == (if ok then f else f + 1)
        && (written <==> f >= old(n) + 2)
        && current == (if f > old(n) then LinkTo(made) else old(current))
        && config == if written then Some(r.stable) else old(config)
      ensures Sound(View()) && AllSound(trace) && old(trace) < trace && trace[|trace| - 1] == View()
    {
      ghost var f := FirstFailure(works, n, SwitchSteps(reload));
      written := false;
      ok := ReplaceSymlink(made);
      if !ok { return; }
      ok := WriteConfig(Some(r.stable));
      written := ok;
      if !ok { return; }
      ok := Tick();   // validation of the published config
      if ok && reload {
        ok := Tick();
      }
    }

    /** The old link, or none, and then the old config if a new one had been written. */
    method SwitchBack(oldTarget: Current, oldConfig: Option<string>, written: bool) returns (restored: bool)
      requires oldTarget.LinkTo? ==> oldTarget.name in gens && Complete(gens[oldTarget.name])
      requires Sound(View()) && AllSound(trace) && |trace| > 0 && trace[|trace| - 1] == View()
      modifies this`n, this`current, this`config, this`trace
      ensures
        var linked := works(old(n));
        && restored == (linked && (written ==> works(old(n) + 1)))
        && current == (if linked then RolledBack(oldTarget) else old(current))
        && config == (if linked && written && restored then oldConfig else old(config))
        && n == old(n) + if linked && written then 2 else 1
      ensures Sound(View()) && AllSound(trace) && old(trace) < trace && trace[|trace| - 1] == View()
    {
      if oldTarget.LinkTo? {
        restored := ReplaceSymlink(oldTarget.name);
      } else {
        restored := UnlinkCurrent();
      }
      if restored && written {
        restored := WriteConfig(oldConfig);
      }
    }

    /** Everything but the kept generations goes, one at a time, until one cannot be removed. */
    method Collect(keep: set<Name>) returns (ok: bool)
      requires current.LinkTo? && current.name in keep && Sound(View()) && AllSound(trace)
      modifies this`n, this`gens, this`trace
      ensures forall g :: g in keep ==> (g in gens <==> g in old(gens)) && (g in gens ==> gens[g] == old(gens)[g])
      ensures gens.Keys <= old(gens).Keys
      ensures ok ==> gens.Keys <= keep
      ensures old(n) <= n && (ok <==> !SomeFails(works, old(n), n))
      ensures Sound(View()) && AllSound(trace) && Logs(old(trace), old(View()), trace, View())
    {
      var left := gens.Keys;
      ok := true;
      while left != {} && ok
        invariant forall g :: g in keep ==> (g in gens <==> g in old(gens)) && (g in gens ==> gens[g] == old(gens)[g])
        invariant gens.Keys <= old(gens).Keys
        invariant ok ==> gens.Keys <= keep + left
        invariant old(n) <= n && (ok <==> !SomeFails(works, old(n), n))
        invariant Sound(View()) && AllSound(trace) && Logs(old(trace), old(View()), trace, View())
        decreases left, ok
      {
        var g :| g in left;
        left := left - {g};
        if g !in keep {
          ok := RemoveGeneration(g);
        }
      }
    }

    /**
     publish. Every logged state is sound, and until the switch only the new generation changes. With at most one
     failing step a failure before the collection leaves the state as it was, except that something at current that was
     no link is lost. A failure while collecting comes after the new state is in force.
     */
    method Publish(r: Rendered, made: Name, inputsOk: bool, reload: bool) returns (result: Result, restored: bool)
      requires made !in gens && Sound(View()) && AllSound(trace)
      modifies this
      ensures old(n) <= n && Sound(View()) && AllSound(trace) && Logs(old(trace), old(View()), trace, View())
      ensures result.Updated? ==> View() == After(old(View()), r, made, hash)
      ensures result == Failed(Collecting) ==>
        && current == LinkTo(made) && config == Some(r.stable) && Published(View(), r, hash)
        && gens.Keys <= old(gens).Keys + {made}
      ensures result.Unchanged? ==> Published(old(View()), r, hash) && View() == old(View())
      ensures result in {Unchanged, Failed(Preparing)} ==> OnlyBuilds(trace, |old(trace)|, old(View()), made)
      ensures result == Failed(Preparing) ==> current == old(current) && config == old(config)
      ensures result == Failed(Switching) && restored ==> current == RolledBack(old(current)) && config == old(config)
      ensures result == Failed(Switching) && AtMostOneFails(works, old(n), n) ==> restored
      ensures result in {Failed(Preparing), Failed(Switching)} && AtMostOneFails(works, old(n), n) ==>
        && gens == old(gens)
        && (View() == old(View()) <==> result == Failed(Preparing) || old(current) != Plain)
      ensures old(current).LinkTo? ==>
        old(current).name in gens && gens[old(current).name] == old(gens)[old(current).name]
      ensures inputsOk && !SomeFails(works, old(n), n) ==>
        result == if Published(old(View()), r, hash) then Unchanged else Updated
    {
      restored := false;
      if !inputsOk {
        return Failed(Preparing), false;
      }
      ghost var s0, from := View(), |trace|;
      var oldTarget := current;
      var built := Build(r, made);
      if !built {
        var removed := Discard(made, s0, from);
        return Failed(Preparing), false;
      }
      var same := IsUnchanged(r);
      if same {
        var removed := Discard(made, s0, from);
        if removed {
          return Unchanged, false;
        }
        // A failed removal is tried once more by the outer handler.
        removed := Discard(made, s0, from);
        return Failed(Preparing), false;
      }
      result, restored := SwitchAndCollect(r, made, oldTarget, reload);
    }

    /** From the switch on; a generation that is not in force after a failed switch is removed again. */
    method SwitchAndCollect(
      r: Rendered, made: Name, oldTarget: Current, reload: bool
    ) returns (result: Result, restored: bool)
      requires made in gens && gens[made] == GenerationOf(r, hash) && oldTarget == current != LinkTo(made)
      requires Sound(View()) && AllSound(trace)
      modifies this
      ensures old(n) <= n && Sound(View()) && AllSound(trace) && Logs(old(trace), old(View()), trace, View())
      ensures result in {Updated, Failed(Switching), Failed(Collecting)}
      ensures result.Updated? ==> View() == After(old(View()), r, made, hash)
      ensures result == Failed(Collecting) ==>
        current == LinkTo(made) && config == Some(r.stable) && Published(View(), r, hash)
      ensures result == Failed(Switching) && restored ==> current == RolledBack(old(current)) && config == old(config)
      ensures result.Failed? <==> SomeFails(works, old(n), n)
      ensures result == Failed(Switching) && AtMostOneFails(works, old(n), n) ==> restored && gens == old(gens) - {made}
      ensures gens.Keys <= old(gens).Keys
      ensures old(current).LinkTo? ==>
        old(current).name in gens && gens[old(current).name] == old(gens)[old(current).name]
    {
      SwitchUndoneIff(View(), r, made, reload, works, n);
      var ok;
      ok, restored := Switch(r, made, reload);
      if !ok {
        if current != LinkTo(made) {
          var _ := RemoveGeneration(made);
        }
        return Failed(Switching), restored;
      }
      ok := Collect({made} + if oldTarget.LinkTo? then {oldTarget.name} else {});
      return if ok then Updated else Failed(Collecting), false;
    }

    /**
     Republishing the same texts changes nothing: after two publications without a failing step the state is the one
     that a single publication gives, or the old one when the texts were already published.
     */
    method PublishTwice(r: Rendered, made: Name, again: Name) returns (first: Result, second: Result)
      requires made !in gens && made != again && again !in gens && Sound(View()) && AllSound(trace)
      requires forall i :: works(i)
      modifies this
      ensures second == Unchanged
      ensures first == if Published(old(View()), r, hash) then Unchanged else Updated
      ensures View() == if Published(old(View()), r, hash) then old(View()) else After(old(View()), r, made, hash)
      ensures AllSound(trace)
    {
      var restored;
      first, restored := Publish(r, made, true, false);
      second, restored := Publish(r, again, true, false);
    }
  }
}
