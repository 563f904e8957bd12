/**
 The coordinated change of the panel's port (panel_port.py, change_panel_port): the .env file and the panel's Nginx site
 are published one after the other, other writers may come in between, any step may fail, and a failure is rolled back.
 */
module PanelPort {
  import opened Options
  import opened Decimals
  import opened EnvText
  import opened PanelEnv

  /******* The Nginx site *******/

  datatype SiteLine =
    | Upstream(before: string, digits: string, after: string)
    | OwnerMarker
      // The three directives by which a site without the marker is recognised.
    | OwnFragment(index: nat)
    | Other(text: string)

  type Site = seq<SiteLine>

  predicate Owned(site: Site) {
    OwnerMarker in site || (OwnFragment(0) in site && OwnFragment(1) in site && OwnFragment(2) in site)
  }

  predicate HasUpstream(site: Site) { exists k :: 0 <= k < |site| && site[k].Upstream? }

  predicate AllUpstreamsAt(site: Site, port: nat) {
    forall k :: 0 <= k < |site| && site[k].Upstream? ==> PortNumber(site[k].digits) == Some(port)
  }

  function WithUpstream(site: Site, port: nat): (out: Site)
    ensures |out| == |site|
    ensures forall k :: 0 <= k < |site| ==>
      out[k] == if site[k].Upstream? then site[k].(digits := Decimal(port)) else site[k]
  {
    seq(|site|, k requires 0 <= k < |site| => if site[k].Upstream? then site[k].(digits := Decimal(port)) else site[k])
  }

  /** _nginx_change for a proxied panel: the replacement, or nothing when the site is not the panel's own. */
  function NginxChange(site: Site, linked: bool, oldPort: nat, newPort: nat): Option<Site> {
    if linked && Owned(site) && HasUpstream(site) && AllUpstreamsAt(site, oldPort)
    then Some(WithUpstream(site, newPort))
    else None
  }

  lemma MemberKept(site: Site, port: nat, line: SiteLine)
    requires !line.Upstream? && line in site
    ensures line in WithUpstream(site, port)
  {
    var k :| 0 <= k < |site| && site[k] == line;
    assert WithUpstream(site, port)[k] == line;
  }

  /** The changed site serves the new port everywhere and can be changed back. */
  lemma ChangeReversible(site: Site, oldPort: nat, newPort: nat)
    requires IsPort(newPort) && NginxChange(site, true, oldPort, newPort).Some?
    ensures AllUpstreamsAt(WithUpstream(site, newPort), newPort)
    ensures NginxChange(WithUpstream(site, newPort), true, newPort, oldPort) == Some(WithUpstream(site, oldPort))
  {
    var out := WithUpstream(site, newPort);
    DecimalRead(newPort);
    forall line | line in site && !line.Upstream? ensures line in out {
      MemberKept(site, newPort, line);
    }
    var k :| 0 <= k < |site| && site[k].Upstream?;
    assert out[k].Upstream?;
    assert WithUpstream(out, oldPort) == WithUpstream(site, oldPort);
  }

  /** Writing the old port back restores the text exactly when every number had been written without leading zeros. */
  lemma WrittenBackIff(site: Site, port: nat)
    ensures WithUpstream(site, port) == site <==>
      forall k :: 0 <= k < |site| && site[k].Upstream? ==> site[k].digits == Decimal(port)
  {
    if WithUpstream(site, port) == site {
      forall k | 0 <= k < |site| && site[k].Upstream? ensures site[k].digits == Decimal(port) {
        assert WithUpstream(site, port)[k] == site[k];
      }
    } else {
      assert exists k :: 0 <= k < |site| && WithUpstream(site, port)[k] != site[k];
    }
  }

  /******* The transaction *******/

  /** What the surroundings do during one call. */
  datatype World = World(
    preflight: bool,                  // service name, reserved ports, free port
    proxied: bool,                    // the panel stands behind Nginx, for an acceptable domain
    linked: nat -> bool,              // the site's files are in place, at the change and at the rollback
    works: nat -> bool,               // reads, writes and commands, in order
    siteEdit: Option<Site>,           // another writer, before the site is published
    envEdit: Option<string>,          // another writer, before .env is published
    siteEditLater: Option<Site>,      // other writers between publication and rollback
    envEditLater: Option<string>)

  datatype Outcome = Rejected | Same | Changed | RolledBack | RollbackFailed

  /** What was published, whether every step worked, and the two files then. */
  datatype Progress = Progress(ok: bool, envPublished: bool, sitePublished: bool, env: string, site: Site)
  datatype Result = Result(outcome: Outcome, env: string, site: Site)

  function Edited<T>(before: T, edit: Option<T>): T { if edit.Some? then edit.value else before }

  /** Both ports are ports, the old one is current, and a real change finds everything in place. */
  predicate Admitted(oldRaw: string, newRaw: string, w: World, env: string, site: Site) {
    var oldPort, newPort := PortNumber(oldRaw), PortNumber(newRaw);
    && oldPort.Some? && newPort.Some? && CurrentPort(env) == oldPort
    && (oldPort != newPort ==>
          w.preflight && (w.proxied ==> NginxChange(site, w.linked(0), oldPort.value, newPort.value).Some?))
  }

  /** The site is read again, written, and then tested. */
  predicate SitePublished(site: Site, w: World) {
    w.proxied && w.works(0) && Edited(site, w.siteEdit) == site && w.works(1)
  }

  predicate SitePhaseOk(site: Site, w: World) { !w.proxied || (SitePublished(site, w) && w.works(2)) }

  function SitePhase(site: Site, newPort: nat, w: World): Site {
    if !w.proxied then site
    else if SitePublished(site, w) then WithUpstream(site, newPort)
    else Edited(site, w.siteEdit)
  }

  /** The .env file is read again and written. */
  predicate EnvPublished(env: string, w: World) { w.works(3) && Edited(env, w.envEdit) == env && w.works(4) }

  function EnvPhase(env: string, newPort: nat, w: World): string {
    if EnvPublished(env, w) then EnvWithPort(env, newPort) else Edited(env, w.envEdit)
  }

  /** Everything inside the try block, up to the first step that fails. */
  function Publish(env: string, site: Site, newPort: nat, w: World): Progress {
    var site', sitePublished := SitePhase(site, newPort, w), SitePublished(site, w);
    if !SitePhaseOk(site, w) then Progress(false, false, sitePublished, env, site')
    else if !EnvPublished(env, w) then Progress(false, false, sitePublished, EnvPhase(env, newPort, w), site')
    else
      Progress(w.works(5) && w.works(6) && w.works(7) && (w.proxied ==> w.works(8)), true, sitePublished,
               EnvPhase(env, newPort, w), site')
  }

  /**
   The .env file after a rollback that could read and write it: the old text, or another writer's with the old port.
   */
  function RestoredEnv(before: string, found: string, oldPort: nat, newPort: nat): string {
    if found == EnvWithPort(before, newPort) then before else EnvWithPort(found, oldPort)
  }

  function RestoredSite(before: Site, found: Site, oldPort: nat, newPort: nat): Site {
    if found == WithUpstream(before, newPort) then before else WithUpstream(found, oldPort)
  }

  /** The published files as the rollback finds them. */
  function EnvFound(before: string, newPort: nat, w: World): string {
    Edited(EnvWithPort(before, newPort), w.envEditLater)
  }

  function SiteFound(before: Site, newPort: nat, w: World): Site {
    Edited(WithUpstream(before, newPort), w.siteEditLater)
  }

  predicate EnvGoesBack(before: string, newPort: nat, w: World) {
    w.works(9) && CurrentPort(EnvFound(before, newPort, w)) == Some(newPort) && w.works(10)
  }

  predicate SiteGoesBack(before: Site, oldPort: nat, newPort: nat, w: World) {
    NginxChange(SiteFound(before, newPort, w), w.linked(1), newPort, oldPort).Some? && w.works(11)
  }

  function EnvRolledBack(before: string, oldPort: nat, newPort: nat, w: World): string {
    var found := EnvFound(before, newPort, w);
    if EnvGoesBack(before, newPort, w) then RestoredEnv(before, found, oldPort, newPort) else found
  }

  function SiteRolledBack(before: Site, oldPort: nat, newPort: nat, w: World): Site {
    var found := SiteFound(before, newPort, w);
    if SiteGoesBack(before, oldPort, newPort, w) then RestoredSite(before, found, oldPort, newPort) else found
  }

  /**
   The handler of the except block: each published file is rolled back or left as found, and the services restarted.
   */
  function RollBack(env: string, site: Site, oldPort: nat, newPort: nat, p: Progress, w: World): Result {
    var good :=
      && (p.envPublished ==> EnvGoesBack(env, newPort, w) && w.works(12))
      && (p.sitePublished ==> SiteGoesBack(site, oldPort, newPort, w) && w.works(13));
    Result(
      if good then RolledBack else RollbackFailed,
      if p.envPublished then EnvRolledBack(env, oldPort, newPort, w) else p.env,
      if p.sitePublished then SiteRolledBack(site, oldPort, newPort, w) else p.site)
  }

  /** change_panel_port: the outcome and the two files it leaves. */
  function Change(oldRaw: string, newRaw: string, env: string, site: Site, w: World): Result {
    if !Admitted(oldRaw, newRaw, w, env, site) then Result(Rejected, env, site)
    else
      var oldPort, newPort := PortNumber(oldRaw).value, PortNumber(newRaw).value;
      if oldPort == newPort then Result(Same, env, site)
      else
        var p := Publish(env, site, newPort, w);
        if p.ok then Result(Changed, p.env, p.site) else RollBack(env, site, oldPort, newPort, p, w)
  }

  class PanelHost {
    var env: string
    var site: Site

    constructor (env: string, site: Site)
      ensures this.env == env && this.site == site
    {
      this.env, this.site := env, site;
    }

    /** The site's part of the publication. */
    method PublishSite(newPort: nat, w: World) returns (ok: bool, published: bool)
      requires w.proxied
      modifies this`site
      ensures site == SitePhase(old(site), newPort, w)
      ensures published == SitePublished(old(site), w) && ok == SitePhaseOk(old(site), w)
    {
      var content, replacement := site, WithUpstream(site, newPort);
      if w.siteEdit.Some? {
        site := w.siteEdit.value;
      }
      if !w.works(0) || site != content || !w.works(1) {
        return false, false;
      }
      site := replacement;
      return w.works(2), true;
    }

    /** The .env part of the publication. */
    method PublishEnv(newPort: nat, w: World) returns (published: bool)
      modifies this`env
      ensures env == EnvPhase(old(env), newPort, w) && published == EnvPublished(old(env), w)
    {
      var content := env;
      if w.envEdit.Some? {
        env := w.envEdit.value;
      }
      if !w.works(3) || env != content || !w.works(4) {
        return false;
      }
      env := EditEnv(content, newPort);
      return true;
    }

    /** Everything inside the try block. */
    method PublishBoth(newPort: nat, w: World) returns (p: Progress)
      modifies this
      ensures p == Publish(old(env), old(site), newPort, w) && env == p.env && site == p.site
    {
      var sitePublished := false;
      if w.proxied {
        var ok;
        ok, sitePublished := PublishSite(newPort, w);
        if !ok {
          return Progress(false, false, sitePublished, env, site);
        }
      }
      var envPublished := PublishEnv(newPort, w);
      if !envPublished {
        return Progress(false, false, sitePublished, env, site);
      }
      // Restart, wait for the new port, check the service, and reload Nginx when it was changed.
      var served := w.works(5) && w.works(6) && w.works(7) && (w.proxied ==> w.works(8));
      return Progress(served, true, sitePublished, env, site);
    }

    method ReadPort() returns (port: Option<nat>)
      ensures port == CurrentPort(env)
    {
      var values := ReadShellAssignments(env);
      if APP_PORT !in values || values[APP_PORT].None? || values[APP_PORT].value == "" {
        return Some(5050);
      }
      return PortNumber(values[APP_PORT].value);
    }

    method RollBackEnv(content: string, oldPort: nat, newPort: nat, w: World) returns (ok: bool)
      requires env == EnvWithPort(content, newPort)
      modifies this`env
      ensures env == EnvRolledBack(content, oldPort, newPort, w) && ok == EnvGoesBack(content, newPort, w)
    {
      if w.envEditLater.Some? {
        env := w.envEditLater.value;
      }
      var seen := ReadPort();
      if !w.works(9) || seen != Some(newPort) || !w.works(10) {
        return false;
      }
      if env == EnvWithPort(content, newPort) {
        env := content;
      } else {
        env := EditEnv(env, oldPort);
      }
      return true;
    }

    method RollBackSite(content: Site, oldPort: nat, newPort: nat, w: World) returns (ok: bool)
      requires site == WithUpstream(content, newPort)
      modifies this`site
      ensures site == SiteRolledBack(content, oldPort, newPort, w) && ok == SiteGoesBack(content, oldPort, newPort, w)
    {
      if w.siteEditLater.Some? {
        site := w.siteEditLater.value;
      }
      var change := NginxChange(site, w.linked(1), newPort, oldPort);
      if change.None? || !w.works(11) {
        return false;
      }
      site := if site == WithUpstream(content, newPort) then content else change.value;
      return true;
    }

    /** The handler of the except block. */
    method RollBackBoth(content: string, siteContent: Site, oldPort: nat, newPort: nat, p: Progress, w: World)
      returns (outcome: Outcome)
      requires p == Publish(content, siteContent, newPort, w) && env == p.env && site == p.site
      modifies this
      ensures Result(outcome, env, site) == RollBack(content, siteContent, oldPort, newPort, p, w)
    {
      var failed := false;
      if p.envPublished {
        var ok := RollBackEnv(content, oldPort, newPort, w);
        failed := failed || !ok;
      }
      if p.sitePublished {
        var ok := RollBackSite(siteContent, oldPort, newPort, w);
        failed := failed || !ok;
      }
      // Restart and check the old port; check and reload Nginx.
      if p.envPublished && !w.works(12) {
        failed := true;
      }
      if p.sitePublished && !w.works(13) {
        failed := true;
      }
      return if failed then RollbackFailed else RolledBack;
    }

    /** The whole change: the outcome and both files are those of the model. */
    method ChangePanelPort(oldRaw: string, newRaw: string, w: World) returns (outcome: Outcome)
      modifies this
      ensures Result(outcome, env, site) == Change(oldRaw, newRaw, old(env), old(site), w)
    {
      var oldPort, newPort := PortNumber(oldRaw), PortNumber(newRaw);
      if oldPort.None? || newPort.None? {
        return Rejected;
      }
      var content, siteContent := env, site;
      var current := ReadPort();
      if current != oldPort {
        return Rejected;
      }
      if oldPort == newPort {
        return Same;
      }
      if !w.preflight || (w.proxied && NginxChange(site, w.linked(0), oldPort.value, newPort.value).None?) {
        return Rejected;
      }
      var progress := PublishBoth(newPort.value, w);
      if progress.ok {
        return Changed;
      }
      outcome := RollBackBoth(content, siteContent, oldPort.value, newPort.value, progress, w);
    }
  }

  /******* What a change leaves *******/

  /**
   A success shows the new port to every reader, leaves every other assignment and site line alone, and met no other
   writer.
   */
  lemma ChangedShows(oldRaw: string, newRaw: string, env: string, site: Site, w: World)
    requires Change(oldRaw, newRaw, env, site, w).outcome == Changed
    ensures
      var after, newPort := Change(oldRaw, newRaw, env, site, w), PortNumber(newRaw);
      && newPort.Some? && CurrentPort(after.env) == newPort != CurrentPort(env)
      && Read(after.env) == Read(env)[APP_PORT := Some(Decimal(newPort.value))]
      && (if w.proxied
          then after.site == WithUpstream(site, newPort.value) && AllUpstreamsAt(after.site, newPort.value)
          else after.site == site)
  {
    var oldPort, newPort := PortNumber(oldRaw).value, PortNumber(newRaw).value;
    EditedReads(env, newPort);
    EditedPort(env, newPort);
    if w.proxied {
      ChangeReversible(site, oldPort, newPort);
    }
  }

  ghost predicate AllWork(w: World) { forall k :: w.works(k) }

  /** Nobody else writes. */
  predicate Quiet(w: World) { w.envEdit.None? && w.siteEdit.None? && w.envEditLater.None? && w.siteEditLater.None? }

  /** An admissible change succeeds when every step works and nobody else writes before the files are published. */
  lemma UndisturbedChanges(oldRaw: string, newRaw: string, env: string, site: Site, w: World)
    requires Admitted(oldRaw, newRaw, w, env, site) && PortNumber(oldRaw) != PortNumber(newRaw)
    requires AllWork(w) && w.envEdit.None? && w.siteEdit.None?
    ensures Change(oldRaw, newRaw, env, site, w).outcome == Changed
  {
    UndisturbedPublishes(env, site, PortNumber(newRaw).value, w);
  }

  lemma UndisturbedPublishes(env: string, site: Site, newPort: nat, w: World)
    requires AllWork(w) && w.envEdit.None? && w.siteEdit.None?
    ensures Publish(env, site, newPort, w).ok
  {
    assert w.works(0) && w.works(1) && w.works(2) && w.works(3) && w.works(4);
    assert SitePhaseOk(site, w) && EnvPublished(env, w);
  }

  /** The steps of the rollback work, and what it finds still shows the new port and is still the panel's own. */
  predicate Recoverable(env: string, site: Site, oldPort: nat, newPort: nat, w: World) {
    && w.works(9) && w.works(10) && w.works(11) && w.works(12) && w.works(13) && w.linked(1)
    && (w.envEditLater.Some? ==> CurrentPort(w.envEditLater.value) == Some(newPort))
    && (w.siteEditLater.Some? ==> NginxChange(w.siteEditLater.value, true, newPort, oldPort).Some?)
  }

  /** A recoverable failure is always rolled back, whatever other writers left meanwhile. */
  lemma RollbackForced(oldRaw: string, newRaw: string, env: string, site: Site, w: World)
    requires Admitted(oldRaw, newRaw, w, env, site)
    requires Recoverable(env, site, PortNumber(oldRaw).value, PortNumber(newRaw).value, w)
    ensures Change(oldRaw, newRaw, env, site, w).outcome in {Same, Changed, RolledBack}
  {
    var oldPort, newPort := PortNumber(oldRaw).value, PortNumber(newRaw).value;
    EditedPort(env, newPort);
    if oldPort != newPort && w.proxied {
      ChangeReversible(site, oldPort, newPort);
    }
  }

  /** The exact text again, or the text found with every assignment kept and only the port put back. */
  predicate EnvGivenBack(before: string, found: string, after: string, oldPort: nat, edited: bool) {
    && CurrentPort(after) == Some(oldPort)
    && (!edited ==> after == before)
    && (after != before ==> Read(after) == Read(found)[APP_PORT := Some(Decimal(oldPort))])
  }

  lemma EnvGoingBack(env: string, oldPort: nat, newPort: nat, w: World)
    requires IsPort(oldPort) && CurrentPort(env) == Some(oldPort) && EnvGoesBack(env, newPort, w)
    ensures EnvGivenBack(env, EnvFound(env, newPort, w), EnvRolledBack(env, oldPort, newPort, w), oldPort,
      w.envEditLater.Some?)
  {
    var found := EnvFound(env, newPort, w);
    if found != EnvWithPort(env, newPort) {
      EditedPort(found, oldPort);
      EditedReads(found, oldPort);
    }
  }

  /**
   A clean rollback gives back the exact text, or another writer's with every assignment kept and only the port put
   back.
   */
  lemma GivenBackReads(oldRaw: string, newRaw: string, env: string, site: Site, w: World)
    requires Change(oldRaw, newRaw, env, site, w).outcome == RolledBack
    ensures
      var oldPort, newPort := PortNumber(oldRaw).value, PortNumber(newRaw).value;
      var after := Change(oldRaw, newRaw, env, site, w).env;
      if Publish(env, site, newPort, w).envPublished
        then EnvGivenBack(env, EnvFound(env, newPort, w), after, oldPort, w.envEditLater.Some?)
        else after == env || w.envEdit == Some(after)
  {
    var oldPort, newPort := PortNumber(oldRaw).value, PortNumber(newRaw).value;
    if Publish(env, site, newPort, w).envPublished {
      EnvGoingBack(env, oldPort, newPort, w);
    }
  }

  /** The same for the site: its exact lines, or another writer's with only the port numbers put back. */
  lemma SiteGivenBack(oldRaw: string, newRaw: string, env: string, site: Site, w: World)
    requires Change(oldRaw, newRaw, env, site, w).outcome == RolledBack
    ensures
      var p := Publish(env, site, PortNumber(newRaw).value, w);
      var found, after, oldPort := SiteFound(site, PortNumber(newRaw).value, w),
        Change(oldRaw, newRaw, env, site, w).site, PortNumber(oldRaw).value;
      if !p.sitePublished then after == site || w.siteEdit == Some(after)
      else
        && (w.siteEditLater.None? ==> after == site)
        && AllUpstreamsAt(found, PortNumber(newRaw).value) && AllUpstreamsAt(after, oldPort)
        && (after != site ==> after == WithUpstream(found, oldPort))
  {
    var oldPort, newPort := PortNumber(oldRaw).value, PortNumber(newRaw).value;
    DecimalRead(oldPort);
  }

  /** Without other writers a failed change whose rollback works leaves both files exactly as they were. */
  lemma QuietFailureUndone(oldRaw: string, newRaw: string, env: string, site: Site, w: World)
    requires Quiet(w) && Change(oldRaw, newRaw, env, site, w).outcome in {Rejected, Same, RolledBack}
    ensures Change(oldRaw, newRaw, env, site, w).env == env && Change(oldRaw, newRaw, env, site, w).site == site
  {
  }

  /** Whatever fails, a published file ends as found or as given back: never a mixture. */
  lemma FailureSettles(oldRaw: string, newRaw: string, env: string, site: Site, w: World)
    requires Change(oldRaw, newRaw, env, site, w).outcome in {RolledBack, RollbackFailed}
    ensures
      var oldPort, newPort := PortNumber(oldRaw).value, PortNumber(newRaw).value;
      var p, after := Publish(env, site, newPort, w), Change(oldRaw, newRaw, env, site, w);
      var env', site' := EnvFound(env, newPort, w), SiteFound(site, newPort, w);
      && (p.envPublished ==> after.env in {env', RestoredEnv(env, env', oldPort, newPort)})
      && (p.sitePublished ==> after.site in {site', RestoredSite(site, site', oldPort, newPort)})
      && (!p.envPublished ==> after.env in {env, Edited(env, w.envEdit)})
      && (!p.sitePublished ==> after.site in {site, Edited(site, w.siteEdit)})
  {
  }
}
