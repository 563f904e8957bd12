/**
 The transactional restore of setup/opt/AdminAntizapret/core/services/restore_manager.py as a function: snapshot,
 publish, migrate, start, health check, and rollback, with any step failing. The file system is a map; what the panel
 and the migration write is given by functions of what they find.
 */
module RestoreModel {
  import opened Options
  import opened RestoreManifest

  /** What stands at a path; a dangling link is one that leads nowhere, so it does not "exist". */
  datatype Node = File(content: string) | Directory | Link(dangling: bool)
  type Files = map<Path, Node>

  predicate Exists(fs: Files, p: Path) { p in fs && !(fs[p].Link? && fs[p].dangling) }

  /** A regular file or nothing: what a target may be when the job takes it over. */
  predicate Regular(fs: Files, p: Path) { p in fs ==> fs[p].File? }

  predicate Shows(fs: Files, p: Path, content: Option<string>) {
    match content
    case None => p !in fs
    case Some(text) => p in fs && fs[p] == File(text)
  }

  predicate SameAt(fs: Files, fs': Files, p: Path) {
    (p in fs <==> p in fs') && (p in fs ==> fs[p] == fs'[p])
  }

  ghost predicate SameOutside(fs: Files, fs': Files, paths: set<Path>) {
    forall p :: p !in paths ==> SameAt(fs, fs', p)
  }

  /******* One file *******/

  /**
   Publishing or putting back one file works unless the step itself fails or something that is no file is in the way.
   */
  predicate CanPlace(fs: Files, item: Item, works: bool) {
    match item.source
    case None => !Exists(fs, item.target) || (works && fs[item.target].File?)
    case Some(_) => works && Regular(fs, item.target)
  }

  /** A removal overlooks a dangling link. */
  function Place(fs: Files, item: Item): Files {
    match item.source
    case None => if Exists(fs, item.target) then fs - {item.target} else fs
    case Some(content) => fs[item.target := File(content)]
  }

  function PlaceIf(fs: Files, item: Item, works: bool): Files {
    if CanPlace(fs, item, works) then Place(fs, item) else fs
  }

  /******* Many files *******/

  /** What a target holds, as the item that would put it back. */
  function Saved(fs: Files, target: Path): Item {
    Item(target, if target in fs && fs[target].File? then Some(fs[target].content) else None)
  }

  function SavedAll(fs: Files, items: seq<Item>): (saved: seq<Item>)
    ensures |saved| == |items| && forall i :: 0 <= i < |items| ==> saved[i] == Saved(fs, items[i].target)
  {
    seq(|items|, i requires 0 <= i < |items| => Saved(fs, items[i].target))
  }

  function Snapshot(fs: Files, items: seq<Item>, fails: set<nat>): Option<seq<Item>> {
    if forall i :: 0 <= i < |items| ==> i !in fails && Regular(fs, items[i].target) then Some(SavedAll(fs, items))
    else None
  }

  /** Publishing, in order, up to the first item that cannot be placed. */
  function Publish(fs: Files, items: seq<Item>, fails: set<nat>): (Files, bool) {
    if items == [] then (fs, true)
    else
      var k := |items| - 1;
      var (before, ok) := Publish(fs, items[..k], fails);
      if ok && CanPlace(before, items[k], k !in fails) then (Place(before, items[k]), true) else (before, false)
  }

  /** Every item in its place. */
  function Overlay(fs: Files, items: seq<Item>): Files {
    if items == [] then fs
    else
      var before, item := Overlay(fs, items[..|items| - 1]), items[|items| - 1];
      match item.source
      case None => before - {item.target}
      case Some(content) => before[item.target := File(content)]
  }

  /** Putting back, in order, whatever can be put back; the number of errors. */
  function Restore(fs: Files, saved: seq<Item>, fails: set<nat>): (Files, nat) {
    if saved == [] then (fs, 0)
    else
      var k := |saved| - 1;
      var (before, errors) := Restore(fs, saved[..k], fails);
      (PlaceIf(before, saved[k], k !in fails), errors + if CanPlace(before, saved[k], k !in fails) then 0 else 1)
  }

  /******* The job *******/

  /** Every choice the outside world makes during one job. */
  datatype World = World(
    prepareOk: bool, stopOk: bool, snapshotFails: set<nat>, publishFails: set<nat>,
    migrateOk: bool, startOk: bool, healthOk: bool, reportOk: bool,
    rollbackStopOk: bool, rollbackFails: set<nat>, restartOk: bool,
    stop: Files -> Files,      // what the panel leaves when it stops
    migrate: Files -> Files,   // what the migration leaves, successful or not
    serve: Files -> Files)     // what the panel leaves after it was started, until the job ends or stops it again

  /** The last thing the job began before it finished or raised. */
  datatype Stage = Preparing | Stopping | Publishing | Migrating | Serving
  datatype Reached = Reached(stage: Stage, ok: bool, fs: Files, items: seq<Item>, saved: seq<Item>)
  datatype Report = Completed(restoredFiles: nat) | Failed(published: bool, rollbackSuccess: bool)

  /** Everything up to the point where the job finishes or raises. */
  ghost function Forward(members: seq<Member>, cfg: Config, w: World, start: Files): Reached {
    var manifest := ManifestFor(members, cfg);
    if manifest.None? || !w.prepareOk then Reached(Preparing, false, start, [], [])
    else
      var stopped := w.stop(start);
      var saved := Snapshot(stopped, manifest.value, w.snapshotFails);
      if !w.stopOk || saved.None? then Reached(Stopping, false, stopped, [], [])
      else
        var (shown, done) := Publish(stopped, manifest.value, w.publishFails);
        if !done then Reached(Publishing, false, shown, manifest.value, saved.value)
        else if !w.migrateOk then Reached(Migrating, false, w.migrate(shown), manifest.value, saved.value)
        else
          var serving := w.startOk && w.healthOk && w.reportOk;
          Reached(Serving, serving, w.serve(w.migrate(shown)), manifest.value, saved.value)
  }

  function CountSources(items: seq<Item>): nat {
    if items == [] then 0 else CountSources(items[..|items| - 1]) + if items[|items| - 1].source.Some? then 1 else 0
  }

  predicate HasPublished(stage: Stage) { stage in {Publishing, Migrating, Serving} }

  /** Whether every saved file can be put back over what stands now. */
  predicate Restorable(fs: Files, saved: seq<Item>, fails: set<nat>) {
    forall i :: 0 <= i < |saved| ==> CanPlace(fs, saved[i], i !in fails)
  }

  /** The rollback of a job that raised: the files it leaves and the number of errors it reports. */
  function RolledBack(r: Reached, w: World): (Files, nat) {
    var (fs, errors) :=
      if !HasPublished(r.stage) then (r.fs, 0)
      else if !w.rollbackStopOk then (r.fs, 1)
      else Restore(r.fs, r.saved, w.rollbackFails);
    (fs, errors + if r.stage != Preparing && !w.restartOk then 1 else 0)
  }

  /** The files just before a restarted panel writes again, and the report. */
  ghost function Job(members: seq<Member>, cfg: Config, w: World, start: Files): (Files, Report) {
    var r := Forward(members, cfg, w, start);
    if r.ok then (r.fs, Completed(CountSources(r.items)))
    else
      var (fs, errors) := RolledBack(r, w);
      (fs, Failed(HasPublished(r.stage), errors == 0))
  }

  /******* Publishing *******/

  /** The overlay shows every item and changes nothing else. */
  lemma {:induction false} OverlayExact(fs: Files, items: seq<Item>)
    requires DistinctTargets(items)
    ensures forall i :: 0 <= i < |items| ==> Shows(Overlay(fs, items), items[i].target, items[i].source)
    ensures SameOutside(fs, Overlay(fs, items), Targets(items))
  {
    if items != [] {
      var init, last := items[..|items| - 1], items[|items| - 1];
      OverlayExact(fs, init);
      TargetsOneMore(init, last);
      assert items == init + [last];
      forall i | 0 <= i < |items| ensures Shows(Overlay(fs, items), items[i].target, items[i].source) {
        assert i < |init| ==> items[i] == init[i] && Shows(Overlay(fs, init), init[i].target, init[i].source);
      }
    }
  }

  ghost predicate AllRegular(fs: Files, items: seq<Item>) {
    forall i :: 0 <= i < |items| ==> Regular(fs, items[i].target)
  }

  /** Publishing leaves no link and no directory at a target, and touches nothing else. */
  lemma {:induction false} PublishStays(fs: Files, items: seq<Item>, fails: set<nat>)
    requires DistinctTargets(items)
    ensures SameOutside(fs, Publish(fs, items, fails).0, Targets(items))
    ensures forall p :: Regular(fs, p) ==> Regular(Publish(fs, items, fails).0, p)
  {
    if items != [] {
      var init, last := items[..|items| - 1], items[|items| - 1];
      PublishStays(fs, init, fails);
      TargetsOneMore(init, last);
      assert items == init + [last];
    }
  }

  /** No publishing step that is needed fails. */
  ghost predicate PublishGoes(fs: Files, items: seq<Item>, fails: set<nat>) {
    forall i :: 0 <= i < |items| ==> i !in fails || (items[i].source.None? && items[i].target !in fs)
  }

  ghost predicate SnapshotGoes(fs: Files, items: seq<Item>, fails: set<nat>) {
    AllRegular(fs, items) && forall i :: 0 <= i < |items| ==> i !in fails
  }

  lemma SnapshotExact(fs: Files, items: seq<Item>, fails: set<nat>)
    ensures Snapshot(fs, items, fails).Some? <==> SnapshotGoes(fs, items, fails)
  {
  }

  /** Over regular targets publishing succeeds exactly when no step that is needed fails, and then is the overlay. */
  lemma {:induction false} PublishExact(fs: Files, items: seq<Item>, fails: set<nat>)
    requires DistinctTargets(items) && AllRegular(fs, items)
    ensures Publish(fs, items, fails).1 ==> Publish(fs, items, fails).0 == Overlay(fs, items)
    ensures Publish(fs, items, fails).1 <==> PublishGoes(fs, items, fails)
  {
    if items != [] {
      var k := |items| - 1;
      var init, last := items[..k], items[k];
      assert forall i :: 0 <= i < k ==> init[i] == items[i];
      PublishExact(fs, init, fails);
      PublishStays(fs, init, fails);
      LastIsNew(items);
      if Publish(fs, init, fails).1 {
        assert SameAt(fs, Publish(fs, init, fails).0, last.target);
        assert Regular(fs, items[k].target);
        PlacedIsOverlaid(fs, items);
      }
    }
  }

  lemma LastIsNew(items: seq<Item>)
    requires DistinctTargets(items) && items != []
    ensures items[|items| - 1].target !in Targets(items[..|items| - 1])
  {
    var init := items[..|items| - 1];
    forall item | item in init ensures item.target != items[|items| - 1].target {
      var i :| 0 <= i < |init| && init[i] == item;
      assert items[i] == item;
    }
  }

  lemma PlacedIsOverlaid(fs: Files, items: seq<Item>)
    requires items != [] && Regular(Overlay(fs, items[..|items| - 1]), items[|items| - 1].target)
    ensures Place(Overlay(fs, items[..|items| - 1]), items[|items| - 1]) == Overlay(fs, items)
  {
    var before, target := Overlay(fs, items[..|items| - 1]), items[|items| - 1].target;
    assert target !in before ==> before - {target} == before;
  }

  /******* Putting back *******/

  lemma {:induction false} RestoreStays(fs: Files, saved: seq<Item>, fails: set<nat>)
    ensures SameOutside(fs, Restore(fs, saved, fails).0, Targets(saved))
  {
    if saved != [] {
      var init, last := saved[..|saved| - 1], saved[|saved| - 1];
      RestoreStays(fs, init, fails);
      TargetsOneMore(init, last);
      assert saved == init + [last];
    }
  }

  /**
   Every target ends up as one placement over what stood there; the errors are the placements that were impossible.
   */
  lemma {:induction false} RestoreExact(fs: Files, saved: seq<Item>, fails: set<nat>)
    requires DistinctTargets(saved)
    ensures Restore(fs, saved, fails).1 == 0 <==> Restorable(fs, saved, fails)
    ensures forall i :: 0 <= i < |saved| ==>
      SameAt(PlaceIf(fs, saved[i], i !in fails), Restore(fs, saved, fails).0, saved[i].target)
  {
    if saved != [] {
      var k := |saved| - 1;
      var init, last := saved[..k], saved[k];
      var before := Restore(fs, init, fails).0;
      RestoreExact(fs, init, fails);
      RestoreStays(fs, init, fails);
      LastIsNew(saved);
      assert SameAt(fs, before, last.target);
      forall i | 0 <= i < k
        ensures SameAt(PlaceIf(fs, saved[i], i !in fails), Restore(fs, saved, fails).0, saved[i].target)
      {
        assert saved[i] == init[i] && saved[i].target != last.target;
      }
      SamePlacement(fs, before, last, k !in fails);
      RestorableSplits(fs, saved, fails);
    }
  }

  lemma SamePlacement(fs: Files, fs': Files, item: Item, works: bool)
    requires SameAt(fs, fs', item.target)
    ensures CanPlace(fs, item, works) <==> CanPlace(fs', item, works)
    ensures SameAt(PlaceIf(fs, item, works), PlaceIf(fs', item, works), item.target)
  {
  }

  lemma RestorableSplits(fs: Files, saved: seq<Item>, fails: set<nat>)
    requires saved != []
    ensures
      var k := |saved| - 1;
      Restorable(fs, saved, fails) <==> Restorable(fs, saved[..k], fails) && CanPlace(fs, saved[k], k !in fails)
  {
    var k := |saved| - 1;
    assert forall i :: 0 <= i < k ==> saved[..k][i] == saved[i];
  }
}
