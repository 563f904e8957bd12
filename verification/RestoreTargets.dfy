/** Which files a restore can reach at all, said of the paths themselves (restore_manager.py, lines 308-441). */
module RestoreTargets {
  import opened Options
  import opened Texts
  import opened RestoreManifest
  import opened RestoreModel
  import opened RestoreLaws

  const DATABASE_ENDINGS := {".db", ".db-wal", ".db-shm"}

  /** The panel's own state: its .env, databases in its root or instance directory, and JSON files in data. */
  ghost predicate PanelState(target: Path, root: Path) {
    || target == root + [".env"]
    || (exists stem, ending :: ending in DATABASE_ENDINGS && target == root + [stem + ending])
    || (exists stem, ending :: ending in DATABASE_ENDINGS && target == root + ["instance", stem + ending])
    || (exists stem :: stem != "" && target == root + ["data", stem + ".json"])
  }

  /** What an archive may hold: the panel's state, or a configured file outside the panel's root. */
  ghost predicate Reachable(target: Path, cfg: Config) {
    PanelState(target, cfg.appRoot) || (target in cfg.external && !(cfg.appRoot <= target))
  }

  lemma SuffixIff(name: string, suffix: string)
    ensures HasSuffix(name, suffix) <==> exists stem :: name == stem + suffix
  {
    if HasSuffix(name, suffix) {
      assert name == name[..|name| - |suffix|] + suffix;
    }
  }

  lemma SqliteNameIff(name: string)
    ensures SqliteName(name) <==> exists stem, ending :: ending in DATABASE_ENDINGS && name == stem + ending
  {
    SuffixIff(name, ".db");
    SuffixIff(name, ".db-wal");
    SuffixIff(name, ".db-shm");
    if SqliteName(name) {
      var ending :| ending in DATABASE_ENDINGS && HasSuffix(name, ending);
      var stem :| name == stem + ending;
      assert ending in DATABASE_ENDINGS && name == stem + ending;
    }
  }

  lemma JsonIff(name: string)
    ensures HasSuffix(name, ".json") && |name| > 5 <==> exists stem :: stem != "" && name == stem + ".json"
  {
    if HasSuffix(name, ".json") && |name| > 5 {
      assert name[..|name| - 5] != "" && name == name[..|name| - 5] + ".json";
    }
  }

  lemma OneBelowIff(target: Path, root: Path)
    requires root <= target
    ensures
      var parts := target[|root|..];
      (exists stem, ending :: ending in DATABASE_ENDINGS && target == root + [stem + ending]) <==>
        |parts| == 1 && SqliteName(parts[0])
  {
    var parts := target[|root|..];
    assert target == root + parts;
    if |parts| == 1 && SqliteName(parts[0]) {
      SqliteNameIff(parts[0]);
      var stem, ending :| ending in DATABASE_ENDINGS && parts[0] == stem + ending;
      assert target == root + [stem + ending];
    }
    if stem, ending :| ending in DATABASE_ENDINGS && target == root + [stem + ending] {
      assert parts == [stem + ending];
      SqliteNameIff(parts[0]);
    }
  }

  lemma InstanceBelowIff(target: Path, root: Path)
    requires root <= target
    ensures
      var parts := target[|root|..];
      (exists stem, ending :: ending in DATABASE_ENDINGS && target == root + ["instance", stem + ending]) <==>
        |parts| == 2 && parts[0] == "instance" && SqliteName(parts[1])
  {
    var parts := target[|root|..];
    assert target == root + parts;
    if |parts| == 2 && parts[0] == "instance" && SqliteName(parts[1]) {
      SqliteNameIff(parts[1]);
      var stem, ending :| ending in DATABASE_ENDINGS && parts[1] == stem + ending;
      assert target == root + ["instance", stem + ending];
    }
    if stem, ending :| ending in DATABASE_ENDINGS && target == root + ["instance", stem + ending] {
      assert parts == ["instance", stem + ending];
      SqliteNameIff(parts[1]);
    }
  }

  lemma DataBelowIff(target: Path, root: Path)
    requires root <= target
    ensures
      var parts := target[|root|..];
      (exists stem :: stem != "" && target == root + ["data", stem + ".json"]) <==>
        |parts| == 2 && parts[0] == "data" && HasSuffix(parts[1], ".json") && |parts[1]| > 5
  {
    var parts := target[|root|..];
    assert target == root + parts;
    if |parts| == 2 && parts[0] == "data" && HasSuffix(parts[1], ".json") && |parts[1]| > 5 {
      JsonIff(parts[1]);
      var stem :| stem != "" && parts[1] == stem + ".json";
      assert target == root + ["data", stem + ".json"];
    }
    if stem :| stem != "" && target == root + ["data", stem + ".json"] {
      assert parts == ["data", stem + ".json"];
      JsonIff(parts[1]);
    }
  }

  lemma AllowedIff(target: Path, cfg: Config)
    ensures IsAllowed(target, cfg) <==> Reachable(target, cfg)
  {
    if cfg.appRoot <= target {
      assert target == cfg.appRoot + target[|cfg.appRoot|..];
      OneBelowIff(target, cfg.appRoot);
      InstanceBelowIff(target, cfg.appRoot);
      DataBelowIff(target, cfg.appRoot);
    }
  }

  /** A member that is passed over or kept, said of its name, kind and size. */
  ghost predicate Tolerated(m: Member, cfg: Config) {
    && !m.absolute && ".." !in m.parts && m.parts != []
    && match m.kind
       case DirMember => cfg.appRoot <= m.parts
       case FileMember => Reachable(m.parts, cfg) && m.size >= 0
       case OtherMember => false
  }

  /**
   An archive is accepted exactly when it has no more than 10000 members, all tolerated, with distinct files, at least
   one of them and at most 8 GiB in all.
   */
  lemma AcceptableIff(members: seq<Member>, cfg: Config)
    ensures Acceptable(members, cfg) <==>
      && |members| <= 10_000
      && (forall i :: 0 <= i < |members| ==> Tolerated(members[i], cfg))
      && DistinctFiles(members)
      && TotalSize(members) <= 8_589_934_592
      && (exists i :: 0 <= i < |members| && members[i].kind == FileMember)
  {
    forall i | 0 <= i < |members| ensures Permitted(members[i], cfg) <==> Tolerated(members[i], cfg) {
      AllowedIff(members[i].parts, cfg);
    }
    EmptyIff(members);
    DistinctIff(members);
  }

  /** The archive holds a file of this path. */
  ghost predicate Holds(members: seq<Member>, target: Path) {
    exists i :: 0 <= i < |members| && members[i].kind == FileMember && members[i].parts == target
  }

  lemma HoldsOneMore(init: seq<Member>, last: Member, target: Path)
    ensures Holds(init + [last], target) <==> Holds(init, target) || (last.kind == FileMember && last.parts == target)
  {
    var members := init + [last];
    assert members[|init|] == last;
    if i :| 0 <= i < |init| && init[i].kind == FileMember && init[i].parts == target {
      assert members[i] == init[i];
    }
  }

  lemma {:induction false} TargetsHeld(members: seq<Member>, target: Path)
    ensures target in Targets(FileItems(members)) <==> Holds(members, target)
  {
    if members != [] {
      var init, last := members[..|members| - 1], members[|members| - 1];
      assert members == init + [last];
      TargetsHeld(init, target);
      HoldsOneMore(init, last, target);
      if last.kind == FileMember {
        TargetsOneMore(FileItems(init), Item(last.parts, Some(last.content)));
      }
    }
  }

  lemma {:induction false} EmptyIff(members: seq<Member>)
    ensures FileItems(members) == [] <==> forall i :: 0 <= i < |members| ==> members[i].kind != FileMember
  {
    if members != [] {
      var init, last := members[..|members| - 1], members[|members| - 1];
      EmptyIff(init);
      assert members == init + [last];
      if last.kind == FileMember {
        assert members[|init|].kind == FileMember && |FileItems(members)| > 0;
      } else {
        assert FileItems(members) == FileItems(init);
      }
    }
  }

  ghost predicate DistinctFiles(members: seq<Member>) {
    forall i, j :: 0 <= i < j < |members| && members[i].kind == FileMember && members[j].kind == FileMember ==>
      members[i].parts != members[j].parts
  }

  lemma DistinctFilesOneMore(init: seq<Member>, last: Member)
    ensures DistinctFiles(init + [last]) <==>
      DistinctFiles(init) && (last.kind == FileMember ==> !Holds(init, last.parts))
  {
    var members := init + [last];
    assert members[|init|] == last && forall i :: 0 <= i < |init| ==> members[i] == init[i];
  }

  lemma DistinctShorter(items: seq<Item>, item: Item)
    requires DistinctTargets(items + [item])
    ensures DistinctTargets(items)
  {
    var more := items + [item];
    assert forall i :: 0 <= i < |items| ==> more[i] == items[i];
  }

  lemma {:induction false} DistinctIff(members: seq<Member>)
    ensures DistinctTargets(FileItems(members)) <==> DistinctFiles(members)
  {
    if members != [] {
      var init, last := members[..|members| - 1], members[|members| - 1];
      assert members == init + [last];
      DistinctIff(init);
      DistinctFilesOneMore(init, last);
      TargetsHeld(init, last.parts);
      if last.kind == FileMember {
        var items, item := FileItems(init), Item(last.parts, Some(last.content));
        assert FileItems(members) == items + [item];
        if DistinctTargets(items) {
          DistinctOneMore(items, item);
        } else if DistinctTargets(items + [item]) {
          DistinctShorter(items, item);
        }
      } else {
        assert FileItems(members) == FileItems(init);
      }
    }
  }

  /******* What a job can touch *******/

  /** A reachable path, or a sidecar of a reachable database. */
  ghost predicate Touchable(target: Path, cfg: Config) {
    || Reachable(target, cfg)
    || exists db :: Reachable(db, cfg) && IsDb(db) && target in {WithSuffix(db, "-wal"), WithSuffix(db, "-shm")}
  }

  lemma ManifestTouchable(members: seq<Member>, cfg: Config)
    requires ManifestFor(members, cfg).Some?
    ensures forall target :: target in Targets(ManifestFor(members, cfg).value) ==> Touchable(target, cfg)
  {
    var items := ManifestFor(members, cfg).value;
    ManifestExact(members, cfg);
    AcceptableIff(members, cfg);
    forall item | item in FileItems(members) ensures Reachable(item.target, cfg) {
      assert item.target in Targets(FileItems(members));
      TargetsHeld(members, item.target);
    }
    forall i | 0 <= i < |items| ensures Touchable(items[i].target, cfg) {
      if i < |FileItems(members)| {
        assert items[i] == FileItems(members)[i];
      } else {
        assert SidecarOfOne(FileItems(members), items[i].target);
      }
    }
  }

  /**
   A job changes no other file: publishing leaves it as the stopped panel did, and a rollback as migration and panel
   did.
   */
  lemma OthersUntouched(members: seq<Member>, cfg: Config, w: World, start: Files, p: Path)
    requires !Touchable(p, cfg) && HasPublished(Forward(members, cfg, w, start).stage)
    ensures
      var r := Forward(members, cfg, w, start);
      && SameAt(w.stop(start), Publish(w.stop(start), r.items, w.publishFails).0, p)
      && SameAt(r.fs, Job(members, cfg, w, start).0, p)
  {
    var r := Forward(members, cfg, w, start);
    PublishedFacts(members, cfg, w, start);
    ManifestTouchable(members, cfg);
    assert p !in Targets(r.items);
    PublishStays(w.stop(start), r.items, w.publishFails);
    if Job(members, cfg, w, start).1.Failed? {
      FailureStays(members, cfg, w, start);
    }
  }

  /******* Which databases and log files go together *******/

  /** The items of an archive are its files, each with its own content. */
  lemma {:induction false} ItemsHeld(members: seq<Member>, item: Item)
    ensures item in FileItems(members) <==>
      exists i :: 0 <= i < |members| && members[i].kind == FileMember &&
        item == Item(members[i].parts, Some(members[i].content))
  {
    if members != [] {
      var init, last := members[..|members| - 1], members[|members| - 1];
      ItemsHeld(init, item);
      assert members == init + [last];
    }
  }

  lemma NameSplits(dir: Path, name: string, stem: string, ending: string)
    requires name == stem + ending
    ensures dir + [name] == dir + [stem + ending] && HasSuffix(name, ending) && name[..|name| - |ending|] == stem
  {
  }

  lemma WithSuffixIs(dir: Path, stem: string, suffix: string)
    ensures WithSuffix(dir + [stem + ".db"], suffix) == dir + [stem + (".db" + suffix)]
  {
    assert (stem + ".db") + suffix == stem + (".db" + suffix);
  }

  lemma DatabaseIs(dir: Path, stem: string)
    ensures IsDb(dir + [stem + ".db"])
    ensures WithSuffix(dir + [stem + ".db"], "-wal") == dir + [stem + ".db-wal"]
    ensures WithSuffix(dir + [stem + ".db"], "-shm") == dir + [stem + ".db-shm"]
  {
    NameSplits(dir, stem + ".db", stem, ".db");
    WithSuffixIs(dir, stem, "-wal");
    WithSuffixIs(dir, stem, "-shm");
    assert ".db" + "-wal" == ".db-wal" && ".db" + "-shm" == ".db-shm";
  }

  lemma SidecarIs(dir: Path, stem: string, ending: string)
    requires ending in {".db-wal", ".db-shm"}
    ensures IsSidecar(dir + [stem + ending]) && MainOf(dir + [stem + ending]) == dir + [stem + ".db"]
  {
    var name := stem + ending;
    NameSplits(dir, name, stem, ending);
    assert name[..|name| - 4] == stem + ending[..3] && ending[..3] == ".db";
  }

  /** Every sidecar can be written as directory, stem and ending. */
  lemma SidecarSplits(target: Path) returns (dir: Path, stem: string, ending: string)
    requires IsSidecar(target)
    ensures ending in {".db-wal", ".db-shm"} && target == dir + [stem + ending]
  {
    var name := target[|target| - 1];
    dir := target[..|target| - 1];
    ending := if HasSuffix(name, ".db-wal") then ".db-wal" else ".db-shm";
    stem := name[..|name| - |ending|];
    assert name[|name| - |ending|..] == ending && name == stem + ending;
    assert target == dir + [name];
  }

  /** Some log file in the archive comes without its database. */
  ghost predicate Orphan(members: seq<Member>, dir: Path, stem: string, ending: string) {
    ending in {".db-wal", ".db-shm"} && Holds(members, dir + [stem + ending]) && !Holds(members, dir + [stem + ".db"])
  }

  /** An acceptable archive has a manifest exactly when it holds no database log without its database. */
  lemma ManifestIff(members: seq<Member>, cfg: Config)
    ensures ManifestFor(members, cfg).Some? <==>
      Acceptable(members, cfg) && forall dir, stem, ending :: !Orphan(members, dir, stem, ending)
  {
    var items := FileItems(members);
    if dir, stem, ending :| Orphan(members, dir, stem, ending) {
      SidecarIs(dir, stem, ending);
      TargetsHeld(members, dir + [stem + ending]);
      TargetsHeld(members, dir + [stem + ".db"]);
      assert !SidecarsHaveMain(items);
    }
    if item :| item in items && IsSidecar(item.target) && MainOf(item.target) !in Targets(items) {
      var dir, stem, ending := SidecarSplits(item.target);
      SidecarIs(dir, stem, ending);
      assert item.target in Targets(items);
      TargetsHeld(members, item.target);
      TargetsHeld(members, dir + [stem + ".db"]);
      assert Orphan(members, dir, stem, ending);
    }
  }

  /** A manifest that replaces a database also replaces or removes both of its log files. */
  lemma LogsFollow(members: seq<Member>, cfg: Config, dir: Path, stem: string)
    requires ManifestFor(members, cfg).Some? && Holds(members, dir + [stem + ".db"])
    ensures
      var targets := Targets(ManifestFor(members, cfg).value);
      dir + [stem + ".db"] in targets && dir + [stem + ".db-wal"] in targets && dir + [stem + ".db-shm"] in targets
  {
    var items, db := ManifestFor(members, cfg).value, dir + [stem + ".db"];
    ManifestExact(members, cfg);
    TargetsHeld(members, db);
    DatabaseIs(dir, stem);
    var item :| item in FileItems(members) && item.target == db;
    assert item in items;
  }

  /** The log file of a database that the archive holds. */
  ghost predicate LogOfHeld(members: seq<Member>, target: Path) {
    exists dir, stem, ending :: LogName(members, dir, stem, ending) && target == dir + [stem + ending]
  }

  ghost predicate LogName(members: seq<Member>, dir: Path, stem: string, ending: string) {
    ending in {".db-wal", ".db-shm"} && Holds(members, dir + [stem + ".db"])
  }

  lemma LogIsOfHeld(members: seq<Member>, db: Path, suffix: string)
    requires IsDb(db) && Holds(members, db) && suffix in {"-wal", "-shm"}
    ensures LogOfHeld(members, WithSuffix(db, suffix))
  {
    var name := db[|db| - 1];
    var dir, stem := db[..|db| - 1], name[..|name| - 3];
    assert name == stem + ".db" && db == dir + [stem + ".db"];
    WithSuffixIs(dir, stem, suffix);
    assert ".db" + "-wal" == ".db-wal" && ".db" + "-shm" == ".db-shm";
    assert LogName(members, dir, stem, ".db" + suffix);
  }

  /** Nothing else is touched: a target is a file of the archive, or the log file of a database it holds. */
  lemma TargetsExplained(members: seq<Member>, cfg: Config, target: Path)
    requires ManifestFor(members, cfg).Some? && target in Targets(ManifestFor(members, cfg).value)
    ensures Holds(members, target) || LogOfHeld(members, target)
  {
    var items := ManifestFor(members, cfg).value;
    ManifestExact(members, cfg);
    TargetsHeld(members, target);
    var i :| 0 <= i < |items| && items[i].target == target;
    if i < |FileItems(members)| {
      assert items[i] == FileItems(members)[i];
    } else {
      var main :| main in FileItems(members) && IsDb(main.target) &&
        target in {WithSuffix(main.target, "-wal"), WithSuffix(main.target, "-shm")};
      assert main.target in Targets(FileItems(members));
      TargetsHeld(members, main.target);
      LogIsOfHeld(members, main.target, if target == WithSuffix(main.target, "-wal") then "-wal" else "-shm");
    }
  }
}
