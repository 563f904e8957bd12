/** The procedures of restore_manager.py over the file system, loops included. */
module RestoreJob {
  import opened Options
  import opened RestoreManifest
  import opened RestoreModel

  class RestoreJobRunner {
    var fs: Files

    constructor (fs: Files)
      ensures this.fs == fs
    {
      this.fs := fs;
    }

    method SnapshotTargets(items: seq<Item>, fails: set<nat>) returns (r: Option<seq<Item>>)
      ensures r == Snapshot(fs, items, fails)
    {
      var saved: seq<Item> := [];
      for i := 0 to |items|
        invariant saved == SavedAll(fs, items[..i])
        invariant forall j :: 0 <= j < i ==> j !in fails && Regular(fs, items[j].target)
      {
        var p := items[i].target;
        if i in fails || !Regular(fs, p) {
          return None;
        }
        saved := saved + [Item(p, if p in fs then Some(fs[p].content) else None)];
      }
      assert items[..|items|] == items;
      return Some(saved);
    }

    /** os.replace over the target, refused for links and directories. */
    method AtomicCopy(p: Path, content: string, works: bool) returns (ok: bool)
      modifies this
      ensures ok == CanPlace(old(fs), Item(p, Some(content)), works)
      ensures fs == PlaceIf(old(fs), Item(p, Some(content)), works)
      ensures ok <==> works && (p in old(fs) ==> old(fs)[p].File?)
      ensures fs == if ok then old(fs)[p := File(content)] else old(fs)
    {
      ok := works && Regular(fs, p);
      if ok {
        fs := fs[p := File(content)];
      }
    }

    /** Removal of a target that should not exist; a dangling link is overlooked. */
    method RemoveIfPresent(p: Path, works: bool) returns (ok: bool)
      modifies this
      ensures ok == CanPlace(old(fs), Item(p, None), works)
      ensures fs == PlaceIf(old(fs), Item(p, None), works)
      ensures ok <==> p !in old(fs) || old(fs)[p] == Link(true) || (works && old(fs)[p].File?)
      ensures fs == if p in old(fs) && old(fs)[p].File? && works then old(fs) - {p} else old(fs)
    {
      if !Exists(fs, p) {
        return true;
      }
      ok := works && fs[p].File?;
      if ok {
        fs := fs - {p};
      }
    }

    method PlaceItem(item: Item, works: bool) returns (ok: bool)
      modifies this
      ensures ok == CanPlace(old(fs), item, works)
      ensures fs == PlaceIf(old(fs), item, works)
    {
      match item.source {
        case None => ok := RemoveIfPresent(item.target, works);
        case Some(content) => ok := AtomicCopy(item.target, content, works);
      }
    }

    method PublishManifest(items: seq<Item>, fails: set<nat>) returns (ok: bool)
      modifies this
      ensures (fs, ok) == Publish(old(fs), items, fails)
    {
      for i := 0 to |items|
        invariant Publish(old(fs), items[..i], fails) == (fs, true)
      {
        assert items[..i + 1][..i] == items[..i];
        ok := PlaceItem(items[i], i !in fails);
        if !ok {
          PublishStops(old(fs), items, i + 1, fails);
          return false;
        }
      }
      assert items[..|items|] == items;
      return true;
    }

    /** Rolling back goes through every saved target and counts the ones it could not put back. */
    method RestoreSnapshot(saved: seq<Item>, fails: set<nat>) returns (errors: nat)
      modifies this
      ensures (fs, errors) == Restore(old(fs), saved, fails)
    {
      errors := 0;
      for i := 0 to |saved|
        invariant Restore(old(fs), saved[..i], fails) == (fs, errors)
      {
        assert saved[..i + 1][..i] == saved[..i];
        var ok := PlaceItem(saved[i], i !in fails);
        if !ok {
          errors := errors + 1;
        }
      }
      assert saved[..|saved|] == saved;
    }

    /** Everything up to the point where the job finishes or raises. */
    method RunForward(members: seq<Member>, cfg: Config, w: World) returns (r: Reached)
      modifies this
      ensures r == Forward(members, cfg, w, old(fs)) && fs == r.fs
    {
      var manifest := BuildManifest(members, cfg);
      if manifest.None? || !w.prepareOk {
        return Reached(Preparing, false, fs, [], []);
      }
      var items := manifest.value;
      fs := w.stop(fs);
      if !w.stopOk {
        return Reached(Stopping, false, fs, [], []);
      }
      var saved := SnapshotTargets(items, w.snapshotFails);
      if saved.None? {
        return Reached(Stopping, false, fs, [], []);
      }
      var done := PublishManifest(items, w.publishFails);
      if !done {
        return Reached(Publishing, false, fs, items, saved.value);
      }
      fs := w.migrate(fs);
      if !w.migrateOk {
        return Reached(Migrating, false, fs, items, saved.value);
      }
      fs := w.serve(fs);
      return Reached(Serving, w.startOk && w.healthOk && w.reportOk, fs, items, saved.value);
    }

    /** run_job: the files it leaves and its report are those of the model, whatever fails. */
    method RunJob(members: seq<Member>, cfg: Config, w: World) returns (report: Report)
      modifies this
      ensures (fs, report) == Job(members, cfg, w, old(fs))
    {
      var reached := RunForward(members, cfg, w);
      if reached.ok {
        var count := CountRestored(reached.items);
        return Completed(count);
      }
      var published := HasPublished(reached.stage);
      var errors := 0;
      if published {
        if w.rollbackStopOk {
          errors := RestoreSnapshot(reached.saved, w.rollbackFails);
        } else {
          errors := 1;
        }
      }
      if reached.stage != Preparing && !w.restartOk {
        errors := errors + 1;
      }
      report := Failed(published, errors == 0);
    }
  }

  method CountRestored(items: seq<Item>) returns (count: nat)
    ensures count == CountSources(items)
  {
    count := 0;
    for i := 0 to |items|
      invariant count == CountSources(items[..i])
    {
      assert items[..i + 1][..i] == items[..i];
      if items[i].source.Some? {
        count := count + 1;
      }
    }
    assert items[..|items|] == items;
  }

  lemma {:induction false} PublishStops(fs: Files, items: seq<Item>, k: nat, fails: set<nat>)
    requires k <= |items| && !Publish(fs, items[..k], fails).1
    ensures Publish(fs, items, fails) == Publish(fs, items[..k], fails)
    decreases |items| - k
  {
    if k == |items| {
      assert items[..k] == items;
    } else {
      assert items[..k + 1][..k] == items[..k];
      PublishStops(fs, items, k + 1, fails);
    }
  }
}
