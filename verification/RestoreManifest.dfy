/** Which files a restore may touch (setup/opt/AdminAntizapret/core/services/restore_manager.py, manifest building). */
module RestoreManifest {
  import opened Options
  import opened Texts

  /** An absolute path as its components. */
  type Path = seq<string>

  datatype Kind = DirMember | FileMember | OtherMember
  /** An archive member; parts are the components of its name, and a name of no components is empty or a dot. */
  datatype Member = Member(absolute: bool, parts: Path, kind: Kind, size: int, content: string)

  /** One file to publish: new content, or removal when there is none. */
  datatype Item = Item(target: Path, source: Option<string>)

  datatype Config = Config(appRoot: Path, external: set<Path>)

  const MAX_MEMBERS := 10_000
  const MAX_BYTES := 8 * 1024 * 1024 * 1024

  predicate SqliteName(name: string) {
    HasSuffix(name, ".db") || HasSuffix(name, ".db-wal") || HasSuffix(name, ".db-shm")
  }

  predicate IsDb(target: Path) { target != [] && HasSuffix(target[|target| - 1], ".db") }

  predicate IsSidecar(target: Path) {
    target != [] && (HasSuffix(target[|target| - 1], ".db-wal") || HasSuffix(target[|target| - 1], ".db-shm"))
  }

  /** The database a sidecar belongs to: its name without the last four characters. */
  function MainOf(target: Path): Path
    requires IsSidecar(target)
  {
    var name := target[|target| - 1];
    target[..|target| - 1] + [name[..|name| - 4]]
  }

  function WithSuffix(target: Path, suffix: string): Path
    requires target != []
  {
    target[..|target| - 1] + [target[|target| - 1] + suffix]
  }

  function MemberTarget(m: Member): Option<Path> {
    if m.absolute || ".." in m.parts || m.parts == [] then None else Some(m.parts)
  }

  predicate IsAllowed(target: Path, cfg: Config) {
    if !(cfg.appRoot <= target) then target in cfg.external
    else
      var parts := target[|cfg.appRoot|..];
      || parts == [".env"]
      || (|parts| == 1 && SqliteName(parts[0]))
      || (|parts| == 2 && parts[0] == "instance" && SqliteName(parts[1]))
      || (|parts| == 2 && parts[0] == "data" && HasSuffix(parts[1], ".json") && |parts[1]| > 5)
  }

  function Targets(items: seq<Item>): set<Path> {
    set item | item in items :: item.target
  }

  ghost predicate DistinctTargets(items: seq<Item>) {
    forall i, j :: 0 <= i < j < |items| ==> items[i].target != items[j].target
  }

  /** The files of an archive, in order. */
  function FileItems(members: seq<Member>): seq<Item> {
    if members == [] then []
    else
      var m := members[|members| - 1];
      FileItems(members[..|members| - 1]) + if m.kind == FileMember then [Item(m.parts, Some(m.content))] else []
  }

  function TotalSize(members: seq<Member>): int {
    if members == [] then 0
    else
      var m := members[|members| - 1];
      TotalSize(members[..|members| - 1]) + if m.kind == FileMember then m.size else 0
  }

  predicate Permitted(m: Member, cfg: Config) {
    && MemberTarget(m).Some?
    && m.kind != OtherMember
    && (m.kind == DirMember ==> cfg.appRoot <= m.parts)
    && (m.kind == FileMember ==> IsAllowed(m.parts, cfg) && m.size >= 0)
  }

  /** Exactly the archives whose own members are accepted. */
  ghost predicate Acceptable(members: seq<Member>, cfg: Config) {
    && |members| <= MAX_MEMBERS
    && (forall i :: 0 <= i < |members| ==> Permitted(members[i], cfg))
    && DistinctTargets(FileItems(members))
    && TotalSize(members) <= MAX_BYTES
    && FileItems(members) != []
  }

  /** What a finished manifest promises. */
  ghost predicate ManifestOf(items: seq<Item>, members: seq<Member>) {
    && FileItems(members) <= items
    && DistinctTargets(items)
    && (forall i :: |FileItems(members)| <= i < |items| ==>
      items[i].source.None? && SidecarOfOne(FileItems(members), items[i].target))
    && (forall item :: item in items && IsDb(item.target) ==>
          WithSuffix(item.target, "-wal") in Targets(items) && WithSuffix(item.target, "-shm") in Targets(items))
    && (forall item :: item in FileItems(members) && IsSidecar(item.target) ==> MainOf(item.target) in Targets(items))
  }

  ghost predicate SidecarOfOne(items: seq<Item>, target: Path) {
    exists item :: item in items && IsDb(item.target) &&
      target in {WithSuffix(item.target, "-wal"), WithSuffix(item.target, "-shm")}
  }

  ghost predicate SidecarsHaveMain(items: seq<Item>) {
    forall item :: item in items && IsSidecar(item.target) ==> MainOf(item.target) in Targets(items)
  }

  lemma SidecarIsNoDb(target: Path, suffix: string)
    requires IsDb(target) && suffix in {"-wal", "-shm"}
    ensures !IsDb(WithSuffix(target, suffix))
  {
    var name, full := target[|target| - 1], target[|target| - 1] + suffix;
    var tail := full[|full| - 3..];
    assert tail[2] == full[|full| - 1] == suffix[3];
    assert ".db"[2] == 'b';
  }

  lemma {:induction false} SizeGrows(members: seq<Member>, k: nat, cfg: Config)
    requires k <= |members|
    requires forall i :: 0 <= i < |members| ==> Permitted(members[i], cfg)
    ensures TotalSize(members[..k]) <= TotalSize(members)
    decreases |members| - k
  {
    if k < |members| {
      assert members[..k + 1][..k] == members[..k];
      SizeGrows(members, k + 1, cfg);
    } else {
      assert members[..k] == members;
    }
  }

  /** The items of a prefix are a prefix of the items. */
  lemma {:induction false} ItemsGrow(members: seq<Member>, k: nat)
    requires k <= |members|
    ensures FileItems(members[..k]) <= FileItems(members)
    decreases |members| - k
  {
    if k < |members| {
      assert members[..k + 1][..k] == members[..k];
      ItemsGrow(members, k + 1);
    } else {
      assert members[..k] == members;
    }
  }

  lemma TargetsOneMore(items: seq<Item>, item: Item)
    ensures Targets(items + [item]) == Targets(items) + {item.target}
  {
    var more := items + [item];
    assert item in more;
    forall t | t in Targets(items) ensures t in Targets(more) {
      var i :| i in items && i.target == t;
      assert i in more;
    }
  }

  lemma DistinctOneMore(items: seq<Item>, item: Item)
    requires DistinctTargets(items)
    ensures DistinctTargets(items + [item]) <==> item.target !in Targets(items)
  {
    var more := items + [item];
    if item.target in Targets(items) {
      var i :| 0 <= i < |items| && items[i].target == item.target;
      assert more[i] == items[i] && more[|items|] == item;
    } else {
      assert forall i :: 0 <= i < |items| ==> items[i] in items;
    }
  }

  /** What the loop of _build_manifest has established over the first members. */
  ghost predicate CollectedFrom(
    members: seq<Member>, k: nat, cfg: Config, items: seq<Item>, targets: set<Path>, total: int
  )
    requires k <= |members|
  {
    && items == FileItems(members[..k]) && DistinctTargets(items) && targets == Targets(items)
    && total == TotalSize(members[..k]) && total <= MAX_BYTES
    && forall i :: 0 <= i < k ==> Permitted(members[i], cfg)
  }

  lemma DirectoryCollected(members: seq<Member>, k: nat, cfg: Config, items: seq<Item>, targets: set<Path>, total: int)
    requires k < |members| && CollectedFrom(members, k, cfg, items, targets, total)
    requires Permitted(members[k], cfg) && members[k].kind == DirMember
    ensures CollectedFrom(members, k + 1, cfg, items, targets, total)
  {
    assert members[..k + 1][..k] == members[..k];
    assert items + [] == items;
  }

  lemma FileCollected(members: seq<Member>, k: nat, cfg: Config, items: seq<Item>, targets: set<Path>, total: int)
    requires k < |members| && CollectedFrom(members, k, cfg, items, targets, total)
    requires Permitted(members[k], cfg) && members[k].kind == FileMember
    ensures
      var m := members[k];
      var item := Item(m.parts, Some(m.content));
      if m.parts in targets then !DistinctTargets(FileItems(members[..k + 1]))
      else if total + m.size > MAX_BYTES then TotalSize(members[..k + 1]) > MAX_BYTES
      else CollectedFrom(members, k + 1, cfg, items + [item], targets + {m.parts}, total + m.size)
  {
    var item := Item(members[k].parts, Some(members[k].content));
    assert members[..k + 1][..k] == members[..k];
    assert FileItems(members[..k + 1]) == items + [item];
    DistinctOneMore(items, item);
    TargetsOneMore(items, item);
  }

  /** The loop of _build_manifest; it accepts exactly the acceptable archives. */
  method CollectMembers(members: seq<Member>, cfg: Config) returns (r: Option<seq<Item>>)
    ensures r.Some? <==> Acceptable(members, cfg)
    ensures r.Some? ==> r.value == FileItems(members)
  {
    if |members| > MAX_MEMBERS {
      return None;
    }
    var items: seq<Item>, targets, total := [], {}, 0;
    for k := 0 to |members|
      invariant CollectedFrom(members, k, cfg, items, targets, total)
    {
      var m := members[k];
      if !Permitted(m, cfg) {
        return None;
      }
      if m.kind == DirMember {
        DirectoryCollected(members, k, cfg, items, targets, total);
        continue;
      }
      FileCollected(members, k, cfg, items, targets, total);
      if m.parts in targets {
        NotDistinct(members, k + 1);
        return None;
      }
      total := total + m.size;
      if total > MAX_BYTES {
        TooBig(members, k + 1, cfg);
        return None;
      }
      targets := targets + {m.parts};
      items := items + [Item(m.parts, Some(m.content))];
    }
    assert members[..|members|] == members;
    return if items == [] then None else Some(items);
  }

  lemma NotDistinct(members: seq<Member>, k: nat)
    requires k <= |members| && !DistinctTargets(FileItems(members[..k]))
    ensures !DistinctTargets(FileItems(members))
  {
    ItemsGrow(members, k);
    var some, all := FileItems(members[..k]), FileItems(members);
    var i, j :| 0 <= i < j < |some| && some[i].target == some[j].target;
    assert all[i] == some[i] && all[j] == some[j];
  }

  lemma TooBig(members: seq<Member>, k: nat, cfg: Config)
    requires k <= |members| && TotalSize(members[..k]) > MAX_BYTES
    ensures !Acceptable(members, cfg)
  {
    if Acceptable(members, cfg) {
      SizeGrows(members, k, cfg);
      assert false;
    }
  }

  function AddMissing(items: seq<Item>, target: Path): seq<Item> {
    if target in Targets(items) then items else items + [Item(target, None)]
  }

  /** The items with the missing sidecars of these databases behind them. */
  function WithSidecars(items: seq<Item>, todo: seq<Item>): seq<Item> {
    if todo == [] then items
    else
      var before, target := WithSidecars(items, todo[..|todo| - 1]), todo[|todo| - 1].target;
      if IsDb(target) then AddMissing(AddMissing(before, WithSuffix(target, "-wal")), WithSuffix(target, "-shm"))
        else before
  }

  /** The manifest of an archive, if it has one. */
  ghost function ManifestFor(members: seq<Member>, cfg: Config): Option<seq<Item>> {
    var items := FileItems(members);
    if Acceptable(members, cfg) && SidecarsHaveMain(items) then Some(WithSidecars(items, items)) else None
  }

  /** Items that extend a list only by removals of sidecars of its databases. */
  ghost predicate ExtendsBySidecars(items: seq<Item>, all: seq<Item>) {
    && items <= all && DistinctTargets(all)
    && forall i :: |items| <= i < |all| ==> all[i].source.None? && SidecarOfOne(items, all[i].target)
  }

  lemma AddMissingExtends(items: seq<Item>, all: seq<Item>, target: Path)
    requires ExtendsBySidecars(items, all) && SidecarOfOne(items, target)
    ensures ExtendsBySidecars(items, AddMissing(all, target))
    ensures Targets(AddMissing(all, target)) == Targets(all) + {target}
  {
    if target !in Targets(all) {
      DistinctOneMore(all, Item(target, None));
      TargetsOneMore(all, Item(target, None));
    }
  }

  predicate HasBoth(all: seq<Item>, target: Path)
    requires target != []
  {
    WithSuffix(target, "-wal") in Targets(all) && WithSuffix(target, "-shm") in Targets(all)
  }

  lemma OneDatabase(items: seq<Item>, before: seq<Item>, main: Item)
    requires ExtendsBySidecars(items, before) && main in items && IsDb(main.target)
    ensures
      var all := AddMissing(AddMissing(before, WithSuffix(main.target, "-wal")), WithSuffix(main.target, "-shm"));
      ExtendsBySidecars(items, all) && Targets(before) <= Targets(all) && HasBoth(all, main.target)
  {
    var wal, shm := WithSuffix(main.target, "-wal"), WithSuffix(main.target, "-shm");
    assert SidecarOfOne(items, wal) && SidecarOfOne(items, shm);
    AddMissingExtends(items, before, wal);
    AddMissingExtends(items, AddMissing(before, wal), shm);
  }

  ghost predicate AllHaveBoth(todo: seq<Item>, all: seq<Item>) {
    forall i :: 0 <= i < |todo| && IsDb(todo[i].target) ==> HasBoth(all, todo[i].target)
  }

  lemma {:induction false} SidecarsExact(items: seq<Item>, todo: seq<Item>)
    requires DistinctTargets(items) && todo <= items
    ensures ExtendsBySidecars(items, WithSidecars(items, todo))
    ensures AllHaveBoth(todo, WithSidecars(items, todo))
  {
    if todo != [] {
      var init, last := todo[..|todo| - 1], todo[|todo| - 1];
      SidecarsExact(items, init);
      var before, all := WithSidecars(items, init), WithSidecars(items, todo);
      if IsDb(last.target) {
        assert last == items[|init|];
        OneDatabase(items, before, last);
      }
      forall i | 0 <= i < |todo| && IsDb(todo[i].target) ensures HasBoth(all, todo[i].target) {
        assert i < |init| ==> todo[i] == init[i] && HasBoth(before, init[i].target);
      }
    }
  }

  /**
   Distinct targets, the archive's files first and in order, every database with both sidecars, nothing else added.
   */
  lemma ManifestExact(members: seq<Member>, cfg: Config)
    requires ManifestFor(members, cfg).Some?
    ensures ManifestOf(ManifestFor(members, cfg).value, members)
  {
    var items := FileItems(members);
    var all := WithSidecars(items, items);
    SidecarsExact(items, items);
    forall item | item in all && IsDb(item.target)
      ensures WithSuffix(item.target, "-wal") in Targets(all) && WithSuffix(item.target, "-shm") in Targets(all)
    {
      AddedIsNoDb(items, all, item);
      var i :| 0 <= i < |items| && items[i] == item;
      assert HasBoth(all, items[i].target);
    }
    assert forall item :: item in items ==> item in all;
  }

  /**
   _with_sqlite_sidecars: rejected when a sidecar has no database, otherwise every database gains its missing sidecars.
   */
  method WithSqliteSidecars(items: seq<Item>) returns (r: Option<seq<Item>>)
    ensures r == if SidecarsHaveMain(items) then Some(WithSidecars(items, items)) else None
  {
    if item :| item in items && IsSidecar(item.target) && MainOf(item.target) !in Targets(items) {
      return None;
    }
    var all := items;
    for k := 0 to |items|
      invariant all == WithSidecars(items, items[..k])
    {
      assert items[..k + 1][..k] == items[..k];
      if IsDb(items[k].target) {
        all := AddSidecar(all, WithSuffix(items[k].target, "-wal"));
        all := AddSidecar(all, WithSuffix(items[k].target, "-shm"));
      }
    }
    assert items[..|items|] == items;
    return Some(all);
  }

  method AddSidecar(items: seq<Item>, sidecar: Path) returns (more: seq<Item>)
    ensures more == AddMissing(items, sidecar)
  {
    more := items;
    if sidecar !in Targets(items) {
      more := items + [Item(sidecar, None)];
    }
  }

  lemma AddedIsNoDb(items: seq<Item>, all: seq<Item>, item: Item)
    requires items <= all && item in all && IsDb(item.target)
    requires forall i :: |items| <= i < |all| ==> SidecarOfOne(items, all[i].target)
    ensures item in items
  {
    var i :| 0 <= i < |all| && all[i] == item;
    if |items| <= i {
      var main :| main in items && IsDb(main.target) &&
        item.target in {WithSuffix(main.target, "-wal"), WithSuffix(main.target, "-shm")};
      SidecarIsNoDb(main.target, "-wal");
      SidecarIsNoDb(main.target, "-shm");
      assert false;
    }
  }

  /** The whole of manifest building. */
  method BuildManifest(members: seq<Member>, cfg: Config) returns (r: Option<seq<Item>>)
    ensures r == ManifestFor(members, cfg)
    ensures r.Some? ==> ManifestOf(r.value, members)
  {
    var collected := CollectMembers(members, cfg);
    if collected.None? {
      return None;
    }
    r := WithSqliteSidecars(collected.value);
    if r.Some? {
      ManifestExact(members, cfg);
    }
  }
}
