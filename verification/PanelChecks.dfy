/**
 When a change of the panel's port is refused, succeeds or is rolled back (panel_port.py), said of ports, lines and
 steps.
 */
module PanelChecks {
  import opened Options
  import opened Decimals
  import opened EnvText
  import opened PanelEnv
  import opened PanelPort

  /******* Ports *******/

  /** A port is written with digits only, leading zeros allowed, and lies between 1 and 65535. */
  lemma PortNumberIff(raw: string, n: nat)
    ensures PortNumber(raw) == Some(n) <==>
      && 0 < |raw| && (forall k :: 0 <= k < |raw| ==> 48 <= raw[k] as int <= 57)
      && 0 < n < 65536 && Digits(raw) == Some(n)
  {
    DigitsAreNumber(raw);
  }

  /** The number that a sequence of digits writes, digit by digit. */
  function Digits(s: string): Option<nat> {
    if s == "" then Some(0)
    else
      var c := s[|s| - 1] as int;
      if Digits(s[..|s| - 1]).None? || c < 48 || 57 < c then None
      else Some(Digits(s[..|s| - 1]).value * 10 + (c - 48))
  }

  lemma {:induction false} DigitsAreNumber(s: string)
    ensures AllDigits(s) <==> Digits(s).Some?
    ensures AllDigits(s) <==> forall k :: 0 <= k < |s| ==> 48 <= s[k] as int <= 57
    ensures AllDigits(s) ==> Digits(s) == Some(Number(s))
  {
    if s != "" {
      var init := s[..|s| - 1];
      DigitsAreNumber(init);
      assert AllDigits(s) <==> AllDigits(init) && IsDigit(s[|s| - 1]) by {
        assert forall k :: 0 <= k < |init| ==> init[k] == s[k];
      }
    }
  }

  /** Without a usable entry the panel listens on 5050. */
  lemma CurrentPortExact(content: string)
    ensures
      var values := Read(content);
      var usable := "APP_PORT" in values && values["APP_PORT"].Some? && values["APP_PORT"].value != "";
      CurrentPort(content) == if usable then PortNumber(values["APP_PORT"].value) else Some(5050)
  {
  }

  /******* The site *******/

  ghost predicate HasLine(site: Site, line: SiteLine) { exists k :: 0 <= k < |site| && site[k] == line }

  /**
   A site is changed exactly when it is linked, carries the owner's marker or all three of the panel's directives, and
   has upstreams, all of them at the old port; and then nothing but their numbers is changed.
   */
  lemma NginxChangeIff(site: Site, linked: bool, oldPort: nat, newPort: nat)
    ensures NginxChange(site, linked, oldPort, newPort).Some? <==>
      && linked
      && (HasLine(site, OwnerMarker)
          || (HasLine(site, OwnFragment(0)) && HasLine(site, OwnFragment(1)) && HasLine(site, OwnFragment(2))))
      && (exists k :: 0 <= k < |site| && site[k].Upstream?)
      && (forall k :: 0 <= k < |site| && site[k].Upstream? ==> PortNumber(site[k].digits) == Some(oldPort))
    ensures NginxChange(site, linked, oldPort, newPort).Some? ==>
      var out := NginxChange(site, linked, oldPort, newPort).value;
      |out| == |site| && forall k :: 0 <= k < |site| ==>
        if site[k].Upstream? then out[k] == Upstream(site[k].before, Decimal(newPort), site[k].after)
          else out[k] == site[k]
  {
    InIff(site, OwnerMarker);
    InIff(site, OwnFragment(0));
    InIff(site, OwnFragment(1));
    InIff(site, OwnFragment(2));
  }

  lemma InIff(site: Site, line: SiteLine)
    ensures line in site <==> HasLine(site, line)
  {
  }

  /******* The transaction *******/

  /** Nobody wrote another text to this file between its reading and its publication. */
  predicate Undisturbed<T(==)>(before: T, edit: Option<T>) { edit == None || edit == Some(before) }

  /** Both ports are ports, the first is the current one, and they differ; everything else is in place. */
  ghost predicate RealChange(oldRaw: string, newRaw: string, env: string, site: Site, w: World) {
    && PortNumber(oldRaw).Some? && PortNumber(newRaw).Some? && PortNumber(oldRaw) == CurrentPort(env)
    && PortNumber(oldRaw) != PortNumber(newRaw) && w.preflight
    && (w.proxied ==> NginxChange(site, w.linked(0), PortNumber(oldRaw).value, PortNumber(newRaw).value).Some?)
  }

  ghost predicate SiteGoesOut(site: Site, w: World) {
    w.works(0) && Undisturbed(site, w.siteEdit) && w.works(1)
  }

  ghost predicate EnvGoesOut(env: string, w: World) {
    w.works(3) && Undisturbed(env, w.envEdit) && w.works(4)
  }

  /** A change succeeds exactly when it is real, nobody else wrote, and every one of its steps works. */
  lemma ChangedIff(oldRaw: string, newRaw: string, env: string, site: Site, w: World)
    ensures Change(oldRaw, newRaw, env, site, w).outcome == Changed <==>
      && RealChange(oldRaw, newRaw, env, site, w)
      && (w.proxied ==> SiteGoesOut(site, w) && w.works(2))
      && EnvGoesOut(env, w)
      && w.works(5) && w.works(6) && w.works(7) && (w.proxied ==> w.works(8))
  {
  }

  /** It is refused exactly when a port is none, the first is not current, or a real change lacks something. */
  lemma RejectedIff(oldRaw: string, newRaw: string, env: string, site: Site, w: World)
    ensures Change(oldRaw, newRaw, env, site, w).outcome == Rejected <==>
      !RealChange(oldRaw, newRaw, env, site, w)
      && !(PortNumber(oldRaw).Some? && PortNumber(oldRaw) == PortNumber(newRaw) == CurrentPort(env))
    ensures Change(oldRaw, newRaw, env, site, w).outcome in {Rejected, Same} ==>
      Change(oldRaw, newRaw, env, site, w) == Result(Change(oldRaw, newRaw, env, site, w).outcome, env, site)
  {
  }

  /**
   A real change that does not succeed is rolled back exactly when, for each file that had gone out, it still shows the
   new port and can be written back, and the service, or Nginx, comes back.
   */
  lemma RolledBackIff(oldRaw: string, newRaw: string, env: string, site: Site, w: World)
    requires RealChange(oldRaw, newRaw, env, site, w) && Change(oldRaw, newRaw, env, site, w).outcome != Changed
    ensures
      var oldPort, newPort := PortNumber(oldRaw).value, PortNumber(newRaw).value;
      var siteOut := w.proxied && SiteGoesOut(site, w);
      var envOut := (w.proxied ==> siteOut && w.works(2)) && EnvGoesOut(env, w);
      var env' := if w.envEditLater.Some? then w.envEditLater.value else EnvWithPort(env, newPort);
      var site' := if w.siteEditLater.Some? then w.siteEditLater.value else WithUpstream(site, newPort);
      Change(oldRaw, newRaw, env, site, w).outcome == RolledBack <==>
        && (envOut ==> w.works(9) && CurrentPort(env') == Some(newPort) && w.works(10) && w.works(12))
        && (siteOut ==> NginxChange(site', w.linked(1), newPort, oldPort).Some? && w.works(11) && w.works(13))
  {
  }

  /** Another writer's text that stands when a file is about to be published is never lost. */
  lemma WritersKept(oldRaw: string, newRaw: string, env: string, site: Site, w: World)
    requires RealChange(oldRaw, newRaw, env, site, w)
    ensures w.proxied && !Undisturbed(site, w.siteEdit) ==>
      Change(oldRaw, newRaw, env, site, w).site == w.siteEdit.value && Change(oldRaw, newRaw, env, site, w).env == env
    ensures !(w.proxied && !(SiteGoesOut(site, w) && w.works(2))) && !Undisturbed(env, w.envEdit) ==>
      Change(oldRaw, newRaw, env, site, w).env == w.envEdit.value
  {
  }
}
