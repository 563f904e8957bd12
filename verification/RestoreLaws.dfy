/** What a restore job leaves behind, for any failing step (restore_manager.py, run_job). */
module RestoreLaws {
  import opened Options
  import opened RestoreManifest
  import opened RestoreModel

  lemma SavedLikeItems(fs: Files, items: seq<Item>)
    requires DistinctTargets(items)
    ensures DistinctTargets(SavedAll(fs, items)) && Targets(SavedAll(fs, items)) == Targets(items)
  {
    var saved := SavedAll(fs, items);
    forall p | p in Targets(saved) ensures p in Targets(items) {
      var i :| 0 <= i < |saved| && saved[i].target == p;
      assert items[i] in items;
    }
    forall p | p in Targets(items) ensures p in Targets(saved) {
      var i :| 0 <= i < |items| && items[i].target == p;
      assert saved[i] in saved;
    }
  }

  lemma {:induction false} CountsFiles(items: seq<Item>, n: nat)
    requires n <= |items|
    requires forall i :: 0 <= i < |items| ==> (items[i].source.Some? <==> i < n)
    ensures CountSources(items) == n
  {
    if items != [] {
      CountsFiles(items[..|items| - 1], if n == |items| then n - 1 else n);
    }
  }

  lemma {:induction false} AllSourced(members: seq<Member>)
    ensures forall i :: 0 <= i < |FileItems(members)| ==> FileItems(members)[i].source.Some?
  {
    if members != [] {
      AllSourced(members[..|members| - 1]);
    }
  }

  /** The manifest counts the archive's files and nothing else. */
  lemma RestoredFilesExact(members: seq<Member>, cfg: Config)
    requires ManifestFor(members, cfg).Some?
    ensures CountSources(ManifestFor(members, cfg).value) == |FileItems(members)|
  {
    ManifestExact(members, cfg);
    AllSourced(members);
    CountsFiles(ManifestFor(members, cfg).value, |FileItems(members)|);
  }

  /******* Success *******/

  /** No step that this archive needs fails, and nothing but regular files stands at its targets. */
  ghost predicate AllGoesWell(members: seq<Member>, cfg: Config, w: World, start: Files) {
    var manifest := ManifestFor(members, cfg);
    && manifest.Some? && w.prepareOk && w.stopOk && w.migrateOk && w.startOk && w.healthOk && w.reportOk
    && SnapshotGoes(w.stop(start), manifest.value, w.snapshotFails)
    && PublishGoes(w.stop(start), manifest.value, w.publishFails)
  }

  lemma ReachesTheEndIff(members: seq<Member>, cfg: Config, w: World, start: Files)
    ensures Forward(members, cfg, w, start).ok <==> AllGoesWell(members, cfg, w, start)
  {
    var manifest, stopped := ManifestFor(members, cfg), w.stop(start);
    if manifest.Some? {
      ManifestExact(members, cfg);
      SnapshotExact(stopped, manifest.value, w.snapshotFails);
      if AllRegular(stopped, manifest.value) {
        PublishExact(stopped, manifest.value, w.publishFails);
      }
    }
  }

  /**
   A job completes exactly when all goes well, and then the whole archive was shown, over what the panel had left, to
   the migration and to the new panel.
   */
  lemma CompletedIff(members: seq<Member>, cfg: Config, w: World, start: Files)
    ensures Job(members, cfg, w, start).1.Completed? <==> AllGoesWell(members, cfg, w, start)
    ensures Job(members, cfg, w, start).1.Completed? ==>
      && Job(members, cfg, w, start).1 == Completed(|FileItems(members)|)
      && Job(members, cfg, w, start).0 == w.serve(w.migrate(Overlay(w.stop(start), ManifestFor(members, cfg).value)))
  {
    var r := Forward(members, cfg, w, start);
    ReachesTheEndIff(members, cfg, w, start);
    if r.ok {
      PublishedFacts(members, cfg, w, start);
      RestoredFilesExact(members, cfg);
    }
  }

  /******* Failure *******/

  /** A failure before publishing leaves exactly what stood there, or what the stopping panel left. */
  lemma UntouchedBeforePublishing(members: seq<Member>, cfg: Config, w: World, start: Files, rollbackSuccess: bool)
    requires Job(members, cfg, w, start).1 == Failed(false, rollbackSuccess)
    ensures Job(members, cfg, w, start).0 ==
      if ManifestFor(members, cfg).None? || !w.prepareOk then start else w.stop(start)
    ensures rollbackSuccess <==> ManifestFor(members, cfg).None? || !w.prepareOk || w.restartOk
  {
  }

  /** A job that had begun to publish: what the snapshot saved, and that publishing began over regular targets. */
  lemma PublishedFacts(members: seq<Member>, cfg: Config, w: World, start: Files)
    requires HasPublished(Forward(members, cfg, w, start).stage)
    ensures
      var r, stopped := Forward(members, cfg, w, start), w.stop(start);
      && Some(r.items) == ManifestFor(members, cfg) && DistinctTargets(r.items) && ManifestOf(r.items, members)
      && r.saved == SavedAll(stopped, r.items) && AllRegular(stopped, r.items)
      && DistinctTargets(r.saved) && Targets(r.saved) == Targets(r.items)
      && (r.stage == Publishing ==> r.fs == Publish(stopped, r.items, w.publishFails).0)
      && (r.stage == Migrating ==> r.fs == w.migrate(Overlay(stopped, r.items)))
      && (r.stage == Serving ==> r.fs == w.serve(w.migrate(Overlay(stopped, r.items))))
  {
    var r, stopped := Forward(members, cfg, w, start), w.stop(start);
    ManifestExact(members, cfg);
    SavedLikeItems(stopped, r.items);
    PublishExact(stopped, r.items, w.publishFails);
  }

  /**
   A published failure reports a successful rollback exactly when the panel stopped, every file could be put back, and
   it restarted.
   */
  lemma RollbackReportedIff(members: seq<Member>, cfg: Config, w: World, start: Files)
    requires Job(members, cfg, w, start).1.Failed? && Job(members, cfg, w, start).1.published
    ensures
      var r := Forward(members, cfg, w, start);
      Job(members, cfg, w, start).1.rollbackSuccess <==>
        w.rollbackStopOk && w.restartOk && Restorable(r.fs, r.saved, w.rollbackFails)
  {
    PublishedFacts(members, cfg, w, start);
    RestoreExact(Forward(members, cfg, w, start).fs, Forward(members, cfg, w, start).saved, w.rollbackFails);
  }

  /** Only a regular file, or for a target that did not exist a dangling link, stands at each target. */
  ghost predicate Recoverable(stopped: Files, broken: Files, items: seq<Item>) {
    forall i :: 0 <= i < |items| ==>
      var p := items[i].target;
      Regular(broken, p) || (p !in stopped && broken[p] == Link(true))
  }

  /**
   If no step of the rollback fails and nothing unexpected stands at a target, the rollback is reported successful.
   */
  lemma RollbackForced(members: seq<Member>, cfg: Config, w: World, start: Files)
    requires Job(members, cfg, w, start).1.Failed?
    requires w.rollbackStopOk && w.restartOk && w.rollbackFails == {}
    requires Recoverable(w.stop(start), Forward(members, cfg, w, start).fs, Forward(members, cfg, w, start).items)
    ensures Job(members, cfg, w, start).1.rollbackSuccess
  {
    var r := Forward(members, cfg, w, start);
    if HasPublished(r.stage) {
      RollbackReportedIff(members, cfg, w, start);
      PublishedFacts(members, cfg, w, start);
      forall i | 0 <= i < |r.saved| ensures CanPlace(r.fs, r.saved[i], i !in w.rollbackFails) {
        assert r.saved[i] == Saved(w.stop(start), r.items[i].target);
      }
    }
  }

  /** The one way a rollback step succeeds without putting a target back: a dangling link where nothing was. */
  predicate Overlooked(stopped: Files, broken: Files, p: Path) {
    p !in stopped && p in broken && broken[p] == Link(true)
  }

  lemma PlacedBackIff(stopped: Files, broken: Files, target: Path, works: bool)
    requires Regular(stopped, target) && CanPlace(broken, Saved(stopped, target), works)
    ensures SameAt(stopped, Place(broken, Saved(stopped, target)), target) <==> !Overlooked(stopped, broken, target)
  {
  }

  /**
   A reported successful rollback has put back a manifest target exactly unless the migration or the panel had left a
   dangling link where nothing stood; the files outside the manifest are as the migration or the panel left them.
   */
  lemma RollbackRestoresIff(members: seq<Member>, cfg: Config, w: World, start: Files)
    requires Job(members, cfg, w, start).1 == Failed(true, true)
    ensures
      var r, stopped, after := Forward(members, cfg, w, start), w.stop(start), Job(members, cfg, w, start).0;
      && (forall i :: 0 <= i < |r.items| ==>
            (SameAt(stopped, after, r.items[i].target) <==> !Overlooked(stopped, r.fs, r.items[i].target)))
      && SameOutside(r.fs, after, Targets(r.items))
  {
    var r, stopped, after := Forward(members, cfg, w, start), w.stop(start), Job(members, cfg, w, start).0;
    PublishedFacts(members, cfg, w, start);
    RollbackReportedIff(members, cfg, w, start);
    RestoreExact(r.fs, r.saved, w.rollbackFails);
    RestoreStays(r.fs, r.saved, w.rollbackFails);
    forall i | 0 <= i < |r.items|
      ensures SameAt(stopped, after, r.items[i].target) <==> !Overlooked(stopped, r.fs, r.items[i].target)
    {
      var target := r.items[i].target;
      assert CanPlace(r.fs, r.saved[i], i !in w.rollbackFails) && Regular(stopped, target);
      PlacedBackIff(stopped, r.fs, target, i !in w.rollbackFails);
      assert SameAt(PlaceIf(r.fs, r.saved[i], i !in w.rollbackFails), after, target);
    }
  }

  /**
   A failure while publishing whose rollback is reported successful leaves everything as the stopped panel left it.
   */
  lemma PublishingFailureUndone(members: seq<Member>, cfg: Config, w: World, start: Files)
    requires Forward(members, cfg, w, start).stage == Publishing
    requires Job(members, cfg, w, start).1 == Failed(true, true)
    ensures Job(members, cfg, w, start).0 == w.stop(start)
  {
    var r, stopped, after := Forward(members, cfg, w, start), w.stop(start), Job(members, cfg, w, start).0;
    PublishedFacts(members, cfg, w, start);
    RollbackRestoresIff(members, cfg, w, start);
    PublishStays(stopped, r.items, w.publishFails);
    forall p ensures SameAt(stopped, after, p) {
      if p in Targets(r.items) {
        var i :| 0 <= i < |r.items| && r.items[i].target == p;
        assert Regular(stopped, p) && Regular(r.fs, p);
      } else {
        assert SameAt(stopped, r.fs, p) && SameAt(r.fs, after, p);
      }
    }
    SameEverywhere(stopped, after);
  }

  lemma SameEverywhere(fs: Files, fs': Files)
    requires forall p :: SameAt(fs, fs', p)
    ensures fs == fs'
  {
    forall p ensures p in fs <==> p in fs' {
      assert SameAt(fs, fs', p);
    }
    forall p | p in fs ensures fs[p] == fs'[p] {
      assert SameAt(fs, fs', p);
    }
  }

  /** Whatever fails, a failed job touches nothing but its targets beyond what the panel and the migration did. */
  lemma FailureStays(members: seq<Member>, cfg: Config, w: World, start: Files)
    requires Job(members, cfg, w, start).1.Failed?
    ensures
      var r := Forward(members, cfg, w, start);
      SameOutside(r.fs, Job(members, cfg, w, start).0, Targets(r.items))
  {
    var r := Forward(members, cfg, w, start);
    if HasPublished(r.stage) {
      PublishedFacts(members, cfg, w, start);
      RestoreStays(r.fs, r.saved, w.rollbackFails);
    }
  }

  /** A job that reports success although a target that did not exist is now a dangling link. */
  lemma DanglingLinkOverlooked() returns (members: seq<Member>, cfg: Config, w: World, start: Files, p: Path)
    ensures Job(members, cfg, w, start).1 == Failed(true, true)
    ensures Forward(members, cfg, w, start).items == [Item(p, Some("new"))] && p !in w.stop(start)
    ensures p in Job(members, cfg, w, start).0
  {
    p, cfg, start := ["srv", "panel", ".env"], Config(["srv", "panel"], {}), map[];
    var m := Member(false, p, FileMember, 3, "new");
    members := [m];
    var link := p;
    w := World(true, true, {}, {}, false, true, true, true, true, {}, true,
               fs => fs, (fs: Files) => fs[link := Link(true)], fs => fs);
    var item := Item(p, Some("new"));
    OneFileAccepted(m, cfg);
    OneFileMigration(members, cfg, w, start, item);
  }

  /** The failed migration of an archive of one file that did not exist. */
  lemma OneFileMigration(members: seq<Member>, cfg: Config, w: World, start: Files, item: Item)
    requires ManifestFor(members, cfg) == Some([item]) && item.source.Some?
    requires w.prepareOk && w.stopOk && !w.migrateOk && w.snapshotFails == {} && w.publishFails == {}
    requires w.rollbackStopOk && w.restartOk && w.rollbackFails == {}
    requires w.stop(start) == map[]
    requires w.migrate(map[item.target := File(item.source.value)]) == map[item.target := Link(true)]
    ensures
      var r := Forward(members, cfg, w, start);
      r == Reached(Migrating, false, map[item.target := Link(true)], [item], [Item(item.target, None)])
    ensures Job(members, cfg, w, start) == (map[item.target := Link(true)], Failed(true, true))
  {
    var p, saved := item.target, [Item(item.target, None)];
    assert [item][..0] == [] && saved[..0] == [];
    assert SavedAll(map[], [item]) == saved;
    var shown: Files := map[];
    assert shown[p := File(item.source.value)] == map[p := File(item.source.value)];
    assert Publish(shown, [item], {}) == (map[p := File(item.source.value)], true);
    assert Restore(map[p := Link(true)], saved, {}) == (map[p := Link(true)], 0);
  }

  lemma OneFileAccepted(m: Member, cfg: Config)
    requires !m.absolute && m.kind == FileMember && 0 <= m.size <= MAX_BYTES
    requires ".." !in m.parts && m.parts == cfg.appRoot + [".env"]
    ensures ManifestFor([m], cfg) == Some([Item(m.parts, Some(m.content))])
  {
    var item := Item(m.parts, Some(m.content));
    assert [m][..0] == [] && [item][..0] == [];
    assert m.parts[|cfg.appRoot|..] == [".env"];
    assert FileItems([m]) == [item] && TotalSize([m]) == m.size;
    assert !IsDb(m.parts) && !IsSidecar(m.parts) by {
      var name := m.parts[|m.parts| - 1];
      assert name == ".env" && name[1..] == "env" && "env"[0] != '.';
    }
    assert WithSidecars([item], [item]) == [item];
  }

  /** No stale sidecar survives publishing: after it a database's log files are the archive's own or absent. */
  lemma NoStaleSidecar(members: seq<Member>, cfg: Config, fs: Files, db: Path, suffix: string)
    requires ManifestFor(members, cfg).Some?
    requires IsDb(db) && db in Targets(ManifestFor(members, cfg).value) && suffix in {"-wal", "-shm"}
    ensures
      var shown, sidecar := Overlay(fs, ManifestFor(members, cfg).value), WithSuffix(db, suffix);
      || sidecar !in shown
      || (exists m :: m in FileItems(members) &&
            m.target == sidecar && m.source.Some? && shown[sidecar] == File(m.source.value))
  {
    var items, sidecar := ManifestFor(members, cfg).value, WithSuffix(db, suffix);
    ManifestExact(members, cfg);
    OverlayExact(fs, items);
    assert sidecar in Targets(items);
    var i :| 0 <= i < |items| && items[i].target == sidecar;
    assert Shows(Overlay(fs, items), items[i].target, items[i].source);
    if items[i].source.Some? {
      assert i < |FileItems(members)|;
      assert FileItems(members)[i] == items[i] && items[i] in FileItems(members);
    }
  }
}
