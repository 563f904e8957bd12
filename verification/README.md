# AntiZapret: verified models of its stateful reconciliation

AntiZapret is a VPN server set-up: a DNS proxy that hands out fake addresses, an administration panel, and scripts that
rewrite the configuration of OpenVPN, WireGuard, Nginx and BIRD. Its hard code keeps one picture equal to another: a map
in memory to DNAT rules, database rows to a ban file, bans to the contents of an ipset, a link and a config to a
published generation, managed lines to the text around them. This project models that code and proves what it keeps,
over every input and over whole runs, with any external step allowed to fail.

`dafny verify dfyconfig.toml` checks everything.

| files | what they model |
|---|---|
| `FakeIpPool`, `ProxyModel`, `ProxyRuns`, `ProxyResolver`, `DnsRewrite` | the DNS proxy: pool, map and DNAT chains, whole runs, leases, restart, rewriting |
| `TrafficModel`, `TrafficLaws`, `TrafficDb` | traffic accounting: resetting counters, sessions, totals, samples |
| `AccessPolicy`, `AccessPolicyService` | blocks of OpenVPN clients and the ban file |
| `RestoreManifest`, `RestoreTargets`, `RestoreModel`, `RestoreLaws`, `RestoreJob` | transactional restore of a backup, and which paths it can reach |
| `ScannerRecords`, `ScannerFirewall`, `ScannerRuns`, `ScannerStore` | scanner bans: window, strikes, grace, the live ipset, and flags over whole runs |
| `BgpPublish` | publishing a generation of BGP routes |
| `ClientText`, `ClientRender`, `ClientPrefixes`, `ClientDefault`, `ClientFiles`, `ClientChecks`, `ClientWrites` | managed OpenVPN client files and the prefixes routed to clients |
| `WireGuard`, `WireGuardFiles`, `WireGuardLaws`, `WireGuardChecks` | adding and removing IPv6 addresses in WireGuard files |
| `OpenVpn`, `OpenVpnFiles`, `OpenVpnLaws`, `OpenVpnModes` | reconciling an OpenVPN server config |
| `ShellConfig`, `EnvText`, `EnvGrammar`, `PanelEnv`, `PanelPort`, `PanelChecks` | literal shell assignments, and the panel's port change |
| `Options`, `Texts`, `Decimals`, `UlaBase` | shared vocabulary |

Each procedure that changes state is a method of a class (or a method with the source's loops) proved against a
function or relation on values; the lemmas are about those functions. What such a function accepts, refuses and writes
is said a second time, in terms of positions, characters and numbers only, in `RestoreTargets`, `ClientChecks`,
`ClientWrites`, `WireGuardChecks`, `OpenVpnModes`, `EnvGrammar`, `PanelChecks` and beside the other models. Everything
outside a program is a parameter: whether a command, a write or a query works, what the clock says, what another
writer leaves behind. An external command either works or changes nothing.

## Results that are exact conditions

Where a claim one would expect is false of the code, the model keeps the code, a lemma says exactly when the claim holds,
and another one gives an input for which it fails.

- A clamped answer never outlives its DNAT rule exactly when `cleanup_expiry` is at least `max_ttl` plus the delay
  with which an answer reaches its client (`ProxyRuns.TtlCoveredIff`, with the run `ProxyRuns.CleanedTooEarly`).
- An attempt of a scanner is answered with the number of attempts in its window exactly when none of these had left the
  window of an attempt after it; otherwise the answer is too low (`ScannerRecords.AttemptCountIff`). Under an advancing
  clock that takes a window that grows (`ScannerRecords.AttemptCountExact`, `ScannerRecords.GrowingWindowMisses`), and the
  window can be changed while the panel runs.
- A raised ban flag always means a real block exactly as long as no failed unban or release had already taken its address
  out of the set that blocked it (`ScannerRuns.RunTruthfulIff`, `ScannerRuns.UnbanLeavesFlag`).
- Recorded traffic misses exactly the bytes moved between the last reading and a reset, bytes hidden by a reset that was
  overtaken, and, for WireGuard, the bytes before the first reading (`TrafficLaws.RecordedPlusLostIsMoved`). Beyond that
  first reading nothing is missed exactly when every measured interval was harmless (`TrafficLaws.LostNothingIff`,
  `TrafficLaws.RecordedAllIff`, `TrafficLaws.VisibleResetStillLoses`).
- Two kinds of clients share a session key exactly when one is called `wg` and its fields line up with the other's
  (`TrafficModel.KindsCollideIff`).
- `reconcile_all` makes a block permanent exactly when nothing in the row explains the ban file's entry and no limit is
  set (`AccessPolicy.PromotedIff`); completed operations never leave such an entry, a crash before the file is written
  does (`AccessPolicy.RunNeverPromotes`, `AccessPolicy.CrashPromotes`). A permanent block ends exactly as
  `AccessPolicy.PermanentLiftedIff` says. A second synchronisation changes nothing exactly when every row is
  settled, as it is when both counts of the consumed bytes agree (`AccessPolicy.SyncTwiceIff`, `AccessPolicy.SyncTwice`,
  `AccessPolicy.UnsteadySyncTwice`).
- A rollback reported successful has put a target back to what the stopped panel had left there exactly unless nothing
  had stood there and the migration or the new panel left a dangling link
  (`RestoreLaws.RollbackRestoresIff`, `RestoreLaws.DanglingLinkOverlooked`).
- A failed switch of BGP routes whose rollback steps worked has the old state back exactly when `current` was no plain
  file (`BgpPublish.SwitchUndoneIff`, `BgpPublish.PlainIsLost`).
- Runs that leave a client called `DEFAULT` alone keep prefixes of different clients apart exactly when the DEFAULT file
  records no prefix (`ClientDefault.RunKeepsApartIff`). The source accepts that name, and once it is used no state is safe
  (`ClientDefault.DefaultAsClientBreaks`). For a single set the condition is `ClientDefault.SetSafeIff`, with
  `ClientDefault.DefaultPrefixTaken`.
- Stripping a rendered client file gives the original's own lines back, and rendering twice changes nothing more, exactly
  unless a DEFAULT text was copied whose own markers close the section early or leave it open
  (`ClientRender.RenderedStripsIff`, `ClientRender.RenderTwiceIff`); a set for the client `DEFAULT` writes such a text (`ClientRender.OwnMarkersWritten`,
  `ClientRender.OwnMarkersGrow`). Prefix and mode are read back exactly unless a DEFAULT text with tags was copied
  (`ClientText.RenderedReadsBackIff`, `ClientPrefixes.SetReadsBackIff`).
- A second WireGuard migration changes nothing exactly when the interface's `Address` was not blank with its line
  terminated (`WireGuardLaws.MigrateTwiceIff`, `WireGuardLaws.BlankAddressGrows`); stripping restores the address lists
  exactly when all of them could be read, the interface had an address and none carried ours
  (`WireGuardLaws.StripRestoresIff`, `WireGuardLaws.OwnAddressLost`).
- OpenVPN reconciliation is idempotent exactly when no managed line was written behind an unterminated one
  (`OpenVpnLaws.ReconcileTwiceIff`, `OpenVpnLaws.UnterminatedGrows`). Disabling after enabling is accepted exactly when
  that line was no bare `server` (`OpenVpnLaws.BareServerLost`), and undoes it exactly when moreover the protocol line was
  canonical and nothing managed was there (`OpenVpnLaws.DisableRestoresIff`, `OpenVpnLaws.NeutralProtoLost`).
- Unless a body begins with a number sign, every value returned for a shell assignment is the shell's, and one is returned
  exactly for the words made of quoted pieces, without expansions or operators (`ShellConfig.LiteralIff`); behind a leading
  number sign the value is always empty and never the shell's (`ShellConfig.HashIsComment`, `ShellConfig.HashIsWord`).

## Model

| member | source | states |
|---|---|---|
| FakeIpPool.FakeIPPool.Allocate | setup/root/antizapret/proxy.py:45-59 | hands out an unused host address, a released one first; nothing only when every host is in use; the scan advances at most n-2 times over the pool's life |
| FakeIpPool.FakeIPPool.Claim | setup/root/antizapret/proxy.py:34-43 | accepts exactly the unused host offsets 1..n-2 |
| FakeIpPool.FakeIPPool.Release | setup/root/antizapret/proxy.py:61-65 | only a used address becomes released |
| FakeIpPool.ReleaseUndoesAllocate | setup/root/antizapret/proxy.py:45-65 | an allocation given back leaves the used set and the completeness of the pool as they were |
| FakeIpPool.ExhaustedHasNoneReleased | setup/root/antizapret/proxy.py:45-65 | a pool without addresses has none to give back |
| ProxyModel.FakesNotShared | setup/root/antizapret/proxy.py:120-144 | two real addresses never share a fake one |
| ProxyModel.LookupKeepsInv | setup/root/antizapret/proxy.py:120-144 | a lookup, whether its rule is added or not, keeps map, chains and pools equal |
| ProxyModel.CleanFamilyKeepsInv | setup/root/antizapret/proxy.py:180-206 | removing the expired mappings of one family keeps them equal |
| ProxyModel.CleanupKeepsInv | setup/root/antizapret/proxy.py:180-206 | so does a whole cleanup in which the batch of either family may be refused |
| ProxyModel.CleanupLeaves | setup/root/antizapret/proxy.py:180-206 | after a cleanup that was not refused no idle mapping is left in either family, and its rule is gone with it; after a refused one the families before the refused batch are clean |
| ProxyModel.LoadExact | setup/root/antizapret/proxy.py:74-92 | a rule listing is accepted if and only if its pairs are placed in the pools and repeat neither side, and the loaded state is then exactly the listing |
| ProxyModel.RestartRecovers | setup/root/antizapret/proxy.py:74-165 | the chains of any sound state, listed in any order, are accepted and rebuild the same pairs and used sets |
| ProxyRuns.RunKeepsInv | setup/root/antizapret/proxy.py:67-206 | every reachable state, through lookups, cleanups and restarts, holds the same pairs in the map and the chains, one rule a pair |
| ProxyRuns.NoRunBlocksRestart | setup/root/antizapret/proxy.py:74-118 | no reachable state makes the next start fail, whatever was flushed |
| ProxyRuns.Lease | setup/root/antizapret/proxy.py:120-206 | a fake address stamped at t stays bound, in map and chain, until a cleanup whose clock exceeds t + expiry |
| ProxyRuns.LiveAnswerCovered | setup/root/antizapret/proxy.py:180-240 | an answer never outlives its rule when its time to live, counted from when it reached its client, ends within the expiry time after its lookup read the clock |
| ProxyRuns.CleanedTooEarly | setup/root/antizapret/proxy.py:180-206 | for every longer time to live and delay together, a run in which the rule is gone while the answer lives |
| ProxyRuns.TtlCoveredIff | setup/root/antizapret/proxy.py:180-240 | with the resolver's clamp, `min_ttl <= max_ttl` and answers that reach their clients within a delay, answers are covered in all runs exactly when `max_ttl` plus that delay is at most the expiry time |
| ProxyResolver.ProxyResolver.constructor | setup/root/antizapret/proxy.py:67-80 | an empty process over the surviving chains |
| ProxyResolver.ProxyResolver.GetFakeIp | setup/root/antizapret/proxy.py:120-144 | one lookup is a step of the state machine and returns what the map then says |
| ProxyResolver.ProxyResolver.AddMapping | setup/root/antizapret/proxy.py:130-144 | a fresh address with its rule and its map entry, or, when the rule is refused, the address given back and neither of them |
| ProxyResolver.ProxyResolver.CollectExpired | setup/root/antizapret/proxy.py:183-189 | exactly the idle mappings of each family, each once |
| ProxyResolver.ProxyResolver.CleanFamilyRules | setup/root/antizapret/proxy.py:190-205 | either the whole batch is deleted and memory follows, or nothing changes |
| ProxyResolver.ProxyResolver.CleanupFakeIps | setup/root/antizapret/proxy.py:180-206 | the method is the cleanup step of the state machine, failures included |
| ProxyResolver.ProxyResolver.MappingIp | setup/root/antizapret/proxy.py:146-165 | accepts a listed pair exactly when the model does |
| ProxyResolver.ProxyResolver.LoadMappings | setup/root/antizapret/proxy.py:82-92 | the loading loop is the model's load |
| ProxyResolver.ProxyResolver.Resolve | setup/root/antizapret/proxy.py:208-245 | a NoError answer to an A question, and to an AAAA question where there is an IPv6 pool, comes back so that reading it through the rules of that family gives the upstream's records with the time to live clamped, or as a failure, exactly when an asked record got no fake address because its rule or the pool failed; every other answer is passed on as it is; asked addresses are stamped, and bindings and rules of addresses not asked about stay as they were |
| ProxyResolver.DeleteBatchExact | setup/root/antizapret/proxy.py:190-198 | a batch of distinct rules of the chain is never refused for a missing rule and removes exactly those |
| ProxyResolver.AppliedIsCleanup | setup/root/antizapret/proxy.py:187-205 | the batch built from the idle mappings deletes exactly their rules |
| DnsRewrite.RewriteMapsBack | setup/root/antizapret/proxy.py:222-240 | every rewritten record maps back through the rules to its original address, in order, with only the time to live clamped |
| DnsRewrite.ClampedAllExact | setup/root/antizapret/proxy.py:222-240 | the clamp changes nothing but the time to live of asked records, which becomes the given one or the nearer bound |
| DnsRewrite.RewrittenReadsAs | setup/root/antizapret/proxy.py:208-245 | a rewritten answer shows fake addresses for exactly the asked records and reads back through the chain as the clamped answer |
| TrafficModel.SessionKeyInjective | setup/opt/AdminAntizapret/utils/traffic_sync.py:688-700 | clients of one kind whose fields contain no separator share a key exactly when they agree on every field of it |
| TrafficModel.KindsCollideIff | setup/opt/AdminAntizapret/utils/traffic_sync.py:688-700 | a WireGuard and an OpenVPN client share a key exactly when the latter is called "wg" and its other fields are the former's, shifted by one |
| TrafficModel.SessionKeyIs | setup/opt/AdminAntizapret/utils/traffic_sync.py:688-700 | the key of either kind, field by field; a session is keyed as WireGuard's when the client says so or the profile ends in `-wg` |
| TrafficModel.AmountsExact | setup/opt/AdminAntizapret/utils/traffic_sync.py:952-978 | what one reading adds: the growth, the whole reading after a fall, nothing for a new WireGuard session, and never anything for a negative reading |
| TrafficModel.FirstOnlyIff | setup/opt/AdminAntizapret/utils/traffic_sync.py:913-921 | an observation counts exactly when no earlier one of its snapshot has its key |
| TrafficLaws.Conservation | setup/opt/AdminAntizapret/utils/traffic_sync.py:898-1030 | over any history total = vpn part + antizapret part = sum of samples, each part is that of its network, and the session counter is the number of rows created |
| TrafficLaws.ActiveIsSeen | setup/opt/AdminAntizapret/utils/traffic_sync.py:873-895 | after a snapshot the active sessions are exactly the keys seen |
| TrafficLaws.TotalsFromLedger | setup/opt/AdminAntizapret/utils/traffic_sync.py:811-850 | a client's total is the sum of everything recorded for it |
| TrafficLaws.BookedByProfile | setup/opt/AdminAntizapret/utils/traffic_sync.py:811-850 | one observation goes to the `antizapret` half of its client's totals exactly when its profile begins with those ten characters and to the VPN half otherwise, under WireGuard exactly when the profile ends in `-wg`, and to no other total |
| TrafficLaws.PartsByProfile | setup/opt/AdminAntizapret/utils/traffic_sync.py:898-1030 | over any history each half of a client's total under each protocol, and each kind of its samples, is the sum over the observations whose profiles begin and end so |
| TrafficLaws.RecordedIsMeasured | setup/opt/AdminAntizapret/utils/traffic_sync.py:913-1013 | what is recorded for a session is what its sequence of readings measures, with WireGuard's first reading as baseline |
| TrafficLaws.LifeExact | setup/opt/AdminAntizapret/utils/traffic_sync.py:952-978 | for a counter that grows and may reset, measured + lost = moved |
| TrafficLaws.RecordedPlusLostIsMoved | setup/opt/AdminAntizapret/utils/traffic_sync.py:913-1013 | the same over any history of snapshots, so recorded traffic never exceeds the bytes really moved |
| TrafficLaws.LostNothingIff | setup/opt/AdminAntizapret/utils/traffic_sync.py:952-978 | for both kinds of sessions: beyond WireGuard's baseline nothing is lost exactly when every measured interval is harmless |
| TrafficLaws.RecordedAllIff | setup/opt/AdminAntizapret/utils/traffic_sync.py:913-1013 | over any history a session's record is all that moved since its baseline exactly then |
| TrafficLaws.VisibleResetStillLoses | setup/opt/AdminAntizapret/utils/traffic_sync.py:952-978 | a reset that shows as a lower reading can still lose bytes |
| TrafficDb.TrafficTables.PersistTrafficSnapshot | setup/opt/AdminAntizapret/utils/traffic_sync.py:898-1030 | the loops over rows and clients, with cache and seen keys, produce exactly the model's snapshot, whose halves and samples follow the profiles (`PartsByProfile`), and each summary count is the size it stands for: keys created, updated and ended, rows of totals created, samples inserted |
| TrafficDb.TrafficTables.RecordClient | setup/opt/AdminAntizapret/utils/traffic_sync.py:913-1013 | one client inserts or updates its session, adds to its totals and stores a sample |
| TrafficDb.TrafficTables.MarkInactiveSessions | setup/opt/AdminAntizapret/utils/traffic_sync.py:873-895 | exactly the sessions that were active and not seen are ended |
| AccessPolicy.CompletedFileExact | setup/opt/AdminAntizapret/core/services/openvpn_access_policy.py:46-144 | after every completed operation a name is in the ban file exactly when it has a row that is blocked permanently, or temporarily until a time that has not come, or whose limit is used up by the second count |
| AccessPolicy.SyncRowExact | setup/opt/AdminAntizapret/core/services/openvpn_access_policy.py:154-265 | what one synchronisation makes of a row, field by field: which dates go, which blocks end, and which reason is recorded |
| AccessPolicy.SettersStore | setup/opt/AdminAntizapret/core/services/openvpn_access_policy.py:46-144 | what each accepted setter stores in the row it names, and whether that name is then in the file |
| AccessPolicy.OthersOnlySynced | setup/opt/AdminAntizapret/core/services/openvpn_access_policy.py:46-144 | and every other row is only synchronised |
| AccessPolicy.SyncTwiceIff | setup/opt/AdminAntizapret/core/services/openvpn_access_policy.py:196-265 | a second synchronisation with the same clock and counts never changes the file, and no row exactly when no row blocked for its limit still has dates while the first count stays below the limit |
| AccessPolicy.SyncTwice | setup/opt/AdminAntizapret/core/services/openvpn_access_policy.py:233-265 | a second synchronisation with the same clock and usage, counted alike both times, changes neither a row nor the file |
| AccessPolicy.UnsteadySyncTwice | setup/opt/AdminAntizapret/core/services/openvpn_access_policy.py:233-265 | a row that a second synchronisation does change, when the two counts differ |
| AccessPolicy.PromotedIff | setup/opt/AdminAntizapret/core/services/openvpn_access_policy.py:233-305 | over the import and the synchronisation after it: exactly which clients `reconcile_all` makes permanent |
| AccessPolicy.PromotedRow | setup/opt/AdminAntizapret/core/services/openvpn_access_policy.py:279-305 | a block that the import makes permanent is dated from it and leaves limit and period as they were |
| AccessPolicy.RunExplained | setup/opt/AdminAntizapret/core/services/openvpn_access_policy.py:46-305 | over any run of completed operations every entry of the file is the name of a client whose row explains it |
| AccessPolicy.RunNeverPromotes | setup/opt/AdminAntizapret/core/services/openvpn_access_policy.py:279-305 | after such a run reconcile_all is a plain synchronisation and promotes nothing |
| AccessPolicy.CrashPromotes | setup/opt/AdminAntizapret/core/services/openvpn_access_policy.py:233-305 | a crash between commit and file write does lead to a promotion |
| AccessPolicy.PermanentLiftedIff | setup/opt/AdminAntizapret/core/services/openvpn_access_policy.py:46-231 | exactly which completed operations end a client's permanent block, directly or through their synchronisation |
| AccessPolicy.TempBlockHolds | setup/opt/AdminAntizapret/core/services/openvpn_access_policy.py:154-195 | a temporary block holds, and stays temporary, until its time through any run that leaves its client alone |
| AccessPolicy.SetTempHolds | setup/opt/AdminAntizapret/core/services/openvpn_access_policy.py:46-62 | an accepted temporary block of d days, with no permanent one in its way, puts the client into the file and into a block that ends 86400 * d seconds after its clock; with `TempBlockHolds` it lasts that long |
| AccessPolicy.SetPermanentHolds | setup/opt/AdminAntizapret/core/services/openvpn_access_policy.py:64-78 | an accepted permanent block by a named actor puts the client into the file and into a permanent block; with `PermanentBlockHolds` it lasts |
| AccessPolicy.PermanentBlockHolds | setup/opt/AdminAntizapret/core/services/openvpn_access_policy.py:64-78 | a permanent block set by a named actor holds through any run that leaves its client alone |
| AccessPolicyService.OpenVpnAccessPolicyService.SyncOne | setup/opt/AdminAntizapret/core/services/openvpn_access_policy.py:186-263 | the two cleanups of one row by the first count, its state and reason by the second, and that every change is reported for the commit |
| AccessPolicyService.OpenVpnAccessPolicyService.SyncBanlistFromPolicy | setup/opt/AdminAntizapret/core/services/openvpn_access_policy.py:233-265 | rows, stored rows and file become the model's synchronisation |
| AccessPolicyService.OpenVpnAccessPolicyService.SetTempBlockDays | setup/opt/AdminAntizapret/core/services/openvpn_access_policy.py:46-62 | the setter is the model's operation, rejected arguments included |
| AccessPolicyService.OpenVpnAccessPolicyService.SetPermanentBlock | setup/opt/AdminAntizapret/core/services/openvpn_access_policy.py:64-78 | likewise |
| AccessPolicyService.OpenVpnAccessPolicyService.SetTrafficLimitBytes | setup/opt/AdminAntizapret/core/services/openvpn_access_policy.py:95-112 | likewise; a rejected period leaves the limit on the session's row and nothing committed or written |
| AccessPolicyService.OpenVpnAccessPolicyService.ClearTrafficLimit | setup/opt/AdminAntizapret/core/services/openvpn_access_policy.py:114-124 | likewise |
| AccessPolicyService.OpenVpnAccessPolicyService.ClearClientBlock | setup/opt/AdminAntizapret/core/services/openvpn_access_policy.py:126-144 | likewise; refused while the limit is exceeded |
| AccessPolicyService.OpenVpnAccessPolicyService.ReconcileAllClients | setup/opt/AdminAntizapret/core/services/openvpn_access_policy.py:279-305 | import of the ban file, then synchronisation |
| RestoreManifest.CollectMembers | setup/opt/AdminAntizapret/core/services/restore_manager.py:308-391 | accepts exactly the acceptable archives (`AcceptableIff` says which) and keeps the order of their files |
| RestoreManifest.WithSqliteSidecars | setup/opt/AdminAntizapret/core/services/restore_manager.py:416-441 | rejected exactly when a sidecar has no database; otherwise the loop adds what the model adds |
| RestoreManifest.BuildManifest | setup/opt/AdminAntizapret/core/services/restore_manager.py:308-441 | the manifest of the model, or a refusal (`ManifestIff` says when) |
| RestoreManifest.ManifestExact | setup/opt/AdminAntizapret/core/services/restore_manager.py:308-441 | distinct targets, the archive's files first and in order, every database with both sidecars, nothing else added |
| RestoreTargets.AllowedIff | setup/opt/AdminAntizapret/core/services/restore_manager.py:370-391 | a path may be restored exactly when it is a configured one outside the panel's root, or in the root `.env`, a name with one of three database endings there or in `instance`, or a named JSON file in `data` |
| RestoreTargets.AcceptableIff | setup/opt/AdminAntizapret/core/services/restore_manager.py:308-391 | an archive is accepted exactly with at most 10000 members, all relative, without `..`, of such a path or directories in the root, with distinct files, at least one of them, and at most 8 GiB in all |
| RestoreTargets.ManifestIff | setup/opt/AdminAntizapret/core/services/restore_manager.py:416-441 | an acceptable archive is refused exactly for a database log or shared-memory file whose database it does not hold |
| RestoreTargets.LogsFollow | setup/opt/AdminAntizapret/core/services/restore_manager.py:416-441 | a manifest that replaces a database replaces or removes both of its sidecars |
| RestoreTargets.TargetsExplained | setup/opt/AdminAntizapret/core/services/restore_manager.py:308-441 | and every other target is a file of the archive |
| RestoreTargets.ItemsHeld | setup/opt/AdminAntizapret/core/services/restore_manager.py:308-391 | the published items are the archive's files, each with its own content |
| RestoreTargets.OthersUntouched | setup/opt/AdminAntizapret/core/services/restore_manager.py:108-225 | a file that is neither such a path nor a sidecar of such a database is changed by panel and migration only, whatever the archive and whatever fails |
| RestoreJob.RestoreJobRunner.SnapshotTargets | setup/opt/AdminAntizapret/core/services/restore_manager.py:443-475 | saves every target as it stands, or is refused for the first that is neither a file nor absent, changing nothing |
| RestoreJob.RestoreJobRunner.PublishManifest | setup/opt/AdminAntizapret/core/services/restore_manager.py:477-500 | the files and the outcome are those of the model, up to the first item that cannot be placed |
| RestoreJob.RestoreJobRunner.RestoreSnapshot | setup/opt/AdminAntizapret/core/services/restore_manager.py:502-528 | every file that can be put back is, and the errors count the others |
| RestoreJob.RestoreJobRunner.RunJob | setup/opt/AdminAntizapret/core/services/restore_manager.py:108-225 | for any failing step, the report and every file left behind are those of the model job |
| RestoreLaws.CompletedIff | setup/opt/AdminAntizapret/core/services/restore_manager.py:108-185 | a job completes exactly when no step its archive needs fails and only regular files stand at its targets; migration and new panel then see the whole archive laid over what the stopped panel left |
| RestoreLaws.UntouchedBeforePublishing | setup/opt/AdminAntizapret/core/services/restore_manager.py:108-225 | a failure before publishing leaves what stood there, or what the stopping panel left |
| RestoreLaws.RollbackReportedIff | setup/opt/AdminAntizapret/core/services/restore_manager.py:186-225 | a rollback is reported successful exactly when the panel stopped, every saved file could be put back, and it restarted |
| RestoreLaws.RollbackForced | setup/opt/AdminAntizapret/core/services/restore_manager.py:186-225 | it is reported successful whenever its steps work and each target is a regular file, absent, or an overlooked link |
| RestoreLaws.RollbackRestoresIff | setup/opt/AdminAntizapret/core/services/restore_manager.py:186-225 | after a successful rollback a target is as the stopped panel left it exactly unless a dangling link stood where nothing had been; nothing outside the targets is touched |
| RestoreLaws.DanglingLinkOverlooked | setup/opt/AdminAntizapret/core/services/restore_manager.py:502-528 | a job reported as rolled back that leaves such a link |
| RestoreLaws.PublishingFailureUndone | setup/opt/AdminAntizapret/core/services/restore_manager.py:477-528 | a failure while publishing whose rollback succeeds leaves every file as the stopped panel left it, without exception |
| RestoreLaws.FailureStays | setup/opt/AdminAntizapret/core/services/restore_manager.py:108-225 | a failed job changes nothing but its targets beyond what panel and migration did |
| RestoreLaws.NoStaleSidecar | setup/opt/AdminAntizapret/core/services/restore_manager.py:416-500 | after publishing a database's log files are the archive's own or absent |
| ScannerRecords.AttemptCountIff | setup/opt/AdminAntizapret/utils/scanner_firewall_store.py:572-599 | for any windows and clock: an attempt is answered with at most the number of attempts of the full log in its window, and with exactly that number if and only if none of these had left the window of a later attempt |
| ScannerRecords.PrunedIsFull | setup/opt/AdminAntizapret/utils/scanner_firewall_store.py:572-599 | above a cutoff that no attempt's exceeded, the pruned list agrees with the full log |
| ScannerRecords.AttemptCountExact | setup/opt/AdminAntizapret/utils/scanner_firewall_store.py:572-599 | under an advancing clock every answer is exact as long as the window does not grow |
| ScannerRecords.GrowingWindowMisses | setup/opt/AdminAntizapret/utils/scanner_firewall_store.py:572-599 | a history with a growing window whose answer is too low |
| ScannerRecords.StrikesExact | setup/opt/AdminAntizapret/utils/scanner_firewall_store.py:613-669 | strikes are the bans in force since the last clearing |
| ScannerRecords.BanEscalates | setup/opt/AdminAntizapret/utils/scanner_firewall_store.py:613-669 | a ban that takes effect adds one strike, lasts the year term exactly from the configured number of strikes on and otherwise as long as asked but at least a minute, empties the window, and is the last of at most 50 events, of which only the oldest goes |
| ScannerRecords.GraceIff | setup/opt/AdminAntizapret/utils/scanner_firewall_store.py:613-830 | after an unban, through any later events but another unban or a clearing, a ban asked for takes effect exactly from its clock plus at least a minute and the given, or else the configured, grace on; a refused one changes nothing |
| ScannerRecords.EndedBan | setup/opt/AdminAntizapret/utils/scanner_firewall_store.py:782-830 | an unban or a release ends the ban and empties the window; only an unban starts a grace, and it takes strikes and events exactly when asked to |
| ScannerRecords.CheckedOrTried | setup/opt/AdminAntizapret/utils/scanner_firewall_store.py:547-599 | a check changes exactly an expired ban, an attempt only the window |
| ScannerRecords.NeverBannedInGrace | setup/opt/AdminAntizapret/utils/scanner_firewall_store.py:613-838 | under an advancing clock no address is ever both actively banned and in its grace period (`GraceIff` says that there is one) |
| ScannerFirewall.FamilyFirewall.EnsureInfrastructure | setup/opt/AdminAntizapret/utils/scanner_firewall_store.py:277-301 | success means set and rule exist; nothing blocked is let through on the way |
| ScannerFirewall.FamilyFirewall.SyncFamilyIpset | setup/opt/AdminAntizapret/utils/scanner_firewall_store.py:427-481 | built aside and swapped, with no gap at any command, successful or failing |
| ScannerFirewall.FamilyFirewall.RemoveLegacyFamily | setup/opt/AdminAntizapret/utils/scanner_firewall_store.py:388-425 | the legacy set goes only where the live set carries the bans |
| ScannerRuns.StepTruthfulIff | setup/opt/AdminAntizapret/utils/scanner_firewall_store.py:483-830 | one call keeps every raised flag true exactly unless it is a failed unban or release that took its flagged address out of the set that blocked it |
| ScannerRuns.RunTruthfulIff | setup/opt/AdminAntizapret/utils/scanner_firewall_store.py:483-830 | over any run of attempts, bans, checks, unbans, releases and synchronisations, every raised flag means a real block in every state exactly when no call is of that kind |
| ScannerRuns.SyncHeals | setup/opt/AdminAntizapret/utils/scanner_firewall_store.py:483-532 | the next synchronisation tells the truth again, successful or not |
| ScannerRuns.UnbanLeavesFlag | setup/opt/AdminAntizapret/utils/scanner_firewall_store.py:801-830 | a flagged, unblocked address after an unban whose look at the legacy set failed |
| ScannerStore.ScannerFirewallStore.RecordAttempt | setup/opt/AdminAntizapret/utils/scanner_firewall_store.py:588-599 | one step of the record, answered with its count |
| ScannerStore.ScannerFirewallStore.PruneAttempts | setup/opt/AdminAntizapret/utils/scanner_firewall_store.py:572-586 | exactly the attempts at or after the cutoff, in order, returned and kept in the record |
| ScannerStore.ScannerFirewallStore.RegisterBan | setup/opt/AdminAntizapret/utils/scanner_firewall_store.py:613-669 | refused exactly in the grace period; a ban reported as applied really blocks, for exactly its term; no other address is let through |
| ScannerStore.ScannerFirewallStore.IsBanned | setup/opt/AdminAntizapret/utils/scanner_firewall_store.py:547-562 | true exactly while a ban is active; an expired one is cleared, and its address leaves the firewall unless a command fails |
| ScannerStore.ScannerFirewallStore.UnbanIp | setup/opt/AdminAntizapret/utils/scanner_firewall_store.py:801-830 | the model's call, with the deletions that its commands allow: success leaves the address unblocked and starts the grace period; failure changes no record |
| ScannerStore.ScannerFirewallStore.ReleaseFirewallOnly | setup/opt/AdminAntizapret/utils/scanner_firewall_store.py:782-799 | likewise, without a grace period |
| ScannerStore.ScannerFirewallStore.SyncFamily | setup/opt/AdminAntizapret/utils/scanner_firewall_store.py:483-532 | no gap at any command; after success the live set is exactly the active bans; a raised flag always means a real block |
| ScannerStore.ScannerFirewallStore.SyncFirewallFromStore | setup/opt/AdminAntizapret/utils/scanner_firewall_store.py:483-532 | the same for both families, with only flags changed in the records |
| BgpPublish.BgpPublisher.Build | setup/root/antizapret/bgp-update.py:380-410 | a complete new generation, or none usable, with link and config untouched |
| BgpPublish.BgpPublisher.IsUnchanged | setup/root/antizapret/bgp-update.py:412-437 | true only when link, routes, digest and config are already those to be published, and false then only if a read fails |
| BgpPublish.BgpPublisher.Switch | setup/root/antizapret/bgp-update.py:439-467 | link, config, validation and reload, or the rollback: state, outcome and number of steps are those of the model |
| BgpPublish.SwitchUndoneIff | setup/root/antizapret/bgp-update.py:439-467 | the switch works exactly when no step fails; one failure is always rolled back; a complete rollback gives the old state back exactly when `current` was no plain file |
| BgpPublish.PlainIsLost | setup/root/antizapret/bgp-update.py:439-467 | a plain file at `current`, one failing step, a complete rollback, and nothing at `current` afterwards |
| BgpPublish.ReloadIsAStep | setup/root/antizapret/bgp-update.py:439-467 | a switch with a reload takes one working step more than one without; when all work, link and config are the new ones, and no switch touches a generation |
| BgpPublish.FailedSwitchExact | setup/root/antizapret/bgp-update.py:439-467 | what a failed switch leaves, by the step that failed and the two rollback steps behind it |
| BgpPublish.AfterExact | setup/root/antizapret/bgp-update.py:380-479 | the state of a publication that went through: link, config, routes and digest of the new generation, and of the others only the previously linked one, as it was |
| BgpPublish.BgpPublisher.Collect | setup/root/antizapret/bgp-update.py:469-474 | keeps the new and the previous generation untouched, removes the others |
| BgpPublish.BgpPublisher.Publish | setup/root/antizapret/bgp-update.py:344-479 | at every logged step `current`, if a link, names a complete generation, and the log begins with the old state and ends with the new one; what each outcome leaves, exactly; with at most one failing step a failure before the collection is undone exactly when it came before the switch or `current` was no plain file |
| BgpPublish.BgpPublisher.PublishTwice | setup/root/antizapret/bgp-update.py:344-479 | two publications of the same texts leave the state of one, and the second reports no change |
| ClientRender.RenderedStripsIff | setup/root/antizapret/firewall6-lists.py:204-384 | stripping a rendered file gives back exactly the unmanaged lines in order, exactly unless a copied DEFAULT text closes its section early or leaves it open |
| ClientRender.RenderTwiceIff | setup/root/antizapret/firewall6-lists.py:339-384 | rendering is idempotent under the same condition |
| ClientRender.PlainDefaultsClose | setup/root/antizapret/firewall6-lists.py:339-384 | a DEFAULT text without the closing marker meets it |
| ClientRender.OwnMarkersWritten | setup/root/antizapret/firewall6-lists.py:421-433 | a set for the client DEFAULT writes a text with that marker |
| ClientRender.OwnMarkersGrow | setup/root/antizapret/firewall6-lists.py:339-384 | and every new client that copies it has a file that changes with each rendering |
| ClientText.RenderedReadsBackIff | setup/root/antizapret/firewall6-lists.py:233-277 | reading a rendered file gives the prefix and the route mode it was rendered with, exactly unless a DEFAULT text with tags was copied |
| ClientText.RewriteRoutesKeepsOutside | setup/root/antizapret/firewall6-lists.py:134-178 | rewriting the DEFAULT block is idempotent and keeps every line outside the markers |
| ClientPrefixes.RunKeepsApart | setup/root/antizapret/firewall6-lists.py:290-491 | from a state whose DEFAULT file records no prefix, over any run of set, clear, delete, mode change, sync and rewrite that never names the client DEFAULT, with any write failing, prefixes of different clients never overlap |
| ClientPrefixes.StepKeepsGood | setup/root/antizapret/firewall6-lists.py:387-491 | the same for one operation that does not name DEFAULT |
| ClientPrefixes.SetReadsBackIff | setup/root/antizapret/firewall6-lists.py:421-433 | for every client, DEFAULT included: a completed set is read back with its prefix and route mode exactly unless it copied a DEFAULT text with tags |
| ClientDefault.RunKeepsApartIff | setup/root/antizapret/firewall6-lists.py:290-491 | all runs that never name DEFAULT keep clients apart exactly when the DEFAULT file records no prefix |
| ClientDefault.DefaultAsClientBreaks | setup/root/antizapret/firewall6-lists.py:181-187 | from every state with valid names, a run of accepted operations that does name DEFAULT ends with one prefix recorded for two clients |
| ClientDefault.SetSafeIff | setup/root/antizapret/firewall6-lists.py:290-433 | a set is safe for every prefix exactly when the client is DEFAULT, the DEFAULT files record none, or the client's own files refuse every set |
| ClientDefault.DefaultPrefixTaken | setup/root/antizapret/firewall6-lists.py:290-329 | a tidy state in which a new client may take the prefix recorded for DEFAULT |
| ClientFiles.StripManagedSections | setup/root/antizapret/firewall6-lists.py:204-230 | the loop computes the model's stripping, unterminated sections included |
| ClientFiles.RenderClientConfig | setup/root/antizapret/firewall6-lists.py:339-384 | the list building computes the model's rendering |
| ClientFiles.RebuildRoutes | setup/root/antizapret/firewall6-lists.py:148-177 | the loop computes the model's block rewrite; nested, stray and open markers are refused |
| ClientFiles.ClientDirectories.ReadClientPrefix | setup/root/antizapret/firewall6-lists.py:250-264 | the two files must agree |
| ClientFiles.ClientDirectories.ManagedClientNames | setup/root/antizapret/firewall6-lists.py:290-314 | exactly the files with managed content, unless one has no valid name |
| ClientFiles.ClientDirectories.ValidateUniqueClientPrefix | setup/root/antizapret/firewall6-lists.py:317-329 | true exactly when every other managed client can be read and does not overlap |
| ClientFiles.ClientDirectories.WriteClientConfig | setup/root/antizapret/firewall6-lists.py:387-418 | both texts are rendered before the first is written; either write may fail |
| ClientFiles.ClientDirectories.SetClientPrefix | setup/root/antizapret/firewall6-lists.py:421-433 | the procedure is the model's operation |
| ClientFiles.ClientDirectories.ClearClientPrefix | setup/root/antizapret/firewall6-lists.py:436-448 | likewise |
| ClientFiles.ClientDirectories.DeleteClientConfig | setup/root/antizapret/firewall6-lists.py:449-457 | likewise |
| ClientFiles.ClientDirectories.SetClientRouteMode | setup/root/antizapret/firewall6-lists.py:460-471 | likewise |
| ClientFiles.ClientDirectories.SyncClientConfigs | setup/root/antizapret/firewall6-lists.py:474-491 | every prefix is read and checked before the first write; stops at the first failure |
| ClientFiles.ClientDirectories.WriteOpenVpnRoutes | setup/root/antizapret/firewall6-lists.py:134-178 | the DEFAULT file is replaced or left alone |
| ClientChecks.SetAcceptedIff | setup/root/antizapret/firewall6-lists.py:317-433 | a set is accepted exactly for a valid name, a client network, readable prefixes of all other managed clients that share no address with it, and at most one mode tag |
| ClientChecks.SyncAcceptedIff | setup/root/antizapret/firewall6-lists.py:474-491 | a sync writes exactly when every managed client has a valid name and a readable prefix that shares no address with another's |
| ClientChecks.ValidNameIff | setup/root/antizapret/firewall6-lists.py:181-187 | 1 to 32 characters, each a letter, a digit, an underscore or a hyphen |
| ClientChecks.IsClientPrefixIff | setup/root/antizapret/firewall6-lists.py:190-201 | a /48 to /64 that begins at a multiple of its size and lies with all its addresses in 2000::/3 |
| ClientChecks.OverlapsIff | setup/root/antizapret/firewall6-lists.py:317-329 | two networks overlap exactly when some address is in both |
| ClientChecks.ManagedIff | setup/root/antizapret/firewall6-lists.py:290-314 | the managed clients are those with a file that carries a mark of this program, in either directory, except DEFAULT |
| ClientChecks.ReadPrefixIff | setup/root/antizapret/firewall6-lists.py:250-264 | a prefix is read exactly when both files are in order and do not contradict each other |
| ClientChecks.RenderRefusedIff | setup/root/antizapret/firewall6-lists.py:339-384 | rendering is refused exactly for an unterminated section, or for a prefix beside a route of the owner's |
| ClientChecks.RenderedContent | setup/root/antizapret/firewall6-lists.py:339-384 | the rendered file, line by line |
| ClientChecks.RewriteAcceptedIff | setup/root/antizapret/firewall6-lists.py:148-177 | the DEFAULT block is rewritten exactly when its markers open and close in turn and the last section is closed |
| ClientChecks.RewrittenBlock | setup/root/antizapret/firewall6-lists.py:134-178 | every network, and the fake one unless it is among them, is pushed once and in order between one pair of markers at the end |
| ClientWrites.SetWrites | setup/root/antizapret/firewall6-lists.py:387-433 | a refused set changes nothing; an accepted one replaces the client's first file by its rendering with the DEFAULT text and then the second by one without, as far as both can be rendered and the writes work, and touches no other file |
| ClientWrites.ClearWrites | setup/root/antizapret/firewall6-lists.py:387-448 | the same without a prefix, for a valid name and a readable mode |
| ClientWrites.ModeWrites | setup/root/antizapret/firewall6-lists.py:460-471 | the same with the recorded prefix and the new mode |
| ClientWrites.DeleteRemoves | setup/root/antizapret/firewall6-lists.py:436-457 | the first file goes, then the second |
| ClientWrites.RewriteWrites | setup/root/antizapret/firewall6-lists.py:134-178 | only the DEFAULT file of the first directory is replaced, unless its markers are wrong or the write fails |
| ClientWrites.SyncWrites | setup/root/antizapret/firewall6-lists.py:474-491 | an accepted sync writes its clients in turn, each with the prefix read before the first write, up to the first that fails; a refused one writes nothing |
| WireGuard.ClientsDiffer | setup/root/antizapret/wireguard-ipv6.py:62-78 | peers of one mode share an address exactly when their last octets agree; none has the server's |
| WireGuard.NetworksApart | setup/root/antizapret/wireguard-ipv6.py:44-59 | the subnets of both modes and the fake network are disjoint inside the /48 |
| WireGuardFiles.MigratePeer | setup/root/antizapret/wireguard-ipv6.py:125-154 | which peers are refused, which are left alone and which get their address |
| WireGuardFiles.MigrateText | setup/root/antizapret/wireguard-ipv6.py:114-206 | the section loop refuses exactly the texts in which a peer or the interface is not unique or cannot carry its address, and otherwise adds exactly the missing addresses and counts them |
| WireGuardFiles.StripText | setup/root/antizapret/wireguard-ipv6.py:209-257 | the loop removes exactly the program's own address from the lines that keep one, or refuses |
| WireGuardChecks.MigratesIff | setup/root/antizapret/wireguard-ipv6.py:114-206 | a text is migrated exactly when every peer has one AllowedIPs line with an IPv4 /32 whose last octet is 2 to 254 and nothing in the way of its address, and the interface has one Address line with nothing in the way of the server's |
| WireGuardChecks.MigratesInPlace | setup/root/antizapret/wireguard-ipv6.py:94-206 | every line then carries its address behind its others, or is unchanged |
| WireGuardChecks.MigratesGlued | setup/root/antizapret/wireguard-ipv6.py:94-206 | where the interface's address is blank, the server's is written in front of the next line |
| WireGuardChecks.StripsIff | setup/root/antizapret/wireguard-ipv6.py:209-257 | a text is stripped exactly when every assignment can be read, every peer has an address, and no list would become empty |
| WireGuardChecks.StripsExact | setup/root/antizapret/wireguard-ipv6.py:209-257 | every line that has its own address loses it and nothing else |
| WireGuardChecks.CountsExact | setup/root/antizapret/wireguard-ipv6.py:114-257 | the counts are the numbers of lines that lacked, or had, their address |
| WireGuardChecks.ClientOfIff | setup/root/antizapret/wireguard-ipv6.py:67-78 | a peer's address is that of the mode's network (0x2908 or 0x2808) with the last octet of the first IPv4 /32 of its list |
| WireGuardChecks.UlaBaseIff | setup/root/antizapret/wireguard-ipv6.py:33-41 | a base is a /48 whose low 80 bits are clear and which lies in fc00::/7 |
| WireGuardLaws.MigrateTwiceIff | setup/root/antizapret/wireguard-ipv6.py:94-206 | a second migration changes nothing exactly when the interface address was not blank and terminated |
| WireGuardLaws.BlankAddressGrows | setup/root/antizapret/wireguard-ipv6.py:94-206 | for every base, a text with such an address is accepted and changes again |
| WireGuardLaws.CountZeroIff | setup/root/antizapret/wireguard-ipv6.py:114-206 | the count is zero exactly when the text is the same |
| WireGuardLaws.StripRestoresIff | setup/root/antizapret/wireguard-ipv6.py:114-257 | stripping a migrated text gives back the original address lists exactly when all could be read, the interface had an address and no kept line carried the program's |
| WireGuardLaws.OwnAddressLost | setup/root/antizapret/wireguard-ipv6.py:114-257 | an address that the owner wrote himself is taken away |
| WireGuardLaws.StripTwice | setup/root/antizapret/wireguard-ipv6.py:209-257 | stripping twice removes nothing more |
| WireGuardLaws.PeersDistinct | setup/root/antizapret/wireguard-ipv6.py:67-154 | in a migrated text different peers of one /24 carry different addresses, none the server's |
| OpenVpnLaws.ReconcileTwiceIff | setup/root/antizapret/openvpn-ipv6.py:79-179 | idempotent exactly when no managed line is glued to an unterminated one |
| OpenVpnLaws.UnterminatedGrows | setup/root/antizapret/openvpn-ipv6.py:79-179 | for every base, a text with an unterminated server line and arguments is accepted twice and changes both times |
| OpenVpnLaws.BareServerLost | setup/root/antizapret/openvpn-ipv6.py:88-99 | with the bare directive at its end a text is accepted, and then neither enabling nor disabling is |
| OpenVpnLaws.ChangesZeroIff | setup/root/antizapret/openvpn-ipv6.py:79-179 | the change count is zero exactly when the text is unchanged |
| OpenVpnLaws.DisableRestoresIff | setup/root/antizapret/openvpn-ipv6.py:79-179 | disabling after enabling is accepted exactly when no bare server directive was glued, with the exact condition for it to restore the text |
| OpenVpnLaws.NeutralProtoLost | setup/root/antizapret/openvpn-ipv6.py:79-179 | the neutral protocol does not come back |
| OpenVpnLaws.EditedCounts | setup/root/antizapret/openvpn-ipv6.py:129-177 | after enabling there is exactly one managed line of each kind unless it was glued, after disabling none; the server line stays unless it was bare and glued; every other class of lines keeps its number |
| OpenVpnLaws.EditedProto | setup/root/antizapret/openvpn-ipv6.py:101-116 | the protocol line then has the wished value |
| OpenVpnLaws.ForeignKept | setup/root/antizapret/openvpn-ipv6.py:113-179 | unless a line is glued, the lines of others stay as they are and in order |
| OpenVpnFiles.FindLines | setup/root/antizapret/openvpn-ipv6.py:91-97 | the index list of a class: its members, their number, its first |
| OpenVpnFiles.ReconcileServer | setup/root/antizapret/openvpn-ipv6.py:129-149 | refused exactly for a duplicate or a foreign server-ipv6 line |
| OpenVpnFiles.ReconcileRedirect | setup/root/antizapret/openvpn-ipv6.py:151-177 | refused exactly for a duplicate push or a missing anchor |
| OpenVpnFiles.ReconcileText | setup/root/antizapret/openvpn-ipv6.py:79-179 | the step-by-step edit refuses exactly what the declarative reading refuses and gives the same text and count |
| OpenVpnModes.AcceptsIff | setup/root/antizapret/openvpn-ipv6.py:79-177 | a text is reconciled exactly with one protocol line of a managed value, one IPv4 server line, no bind directive, no local address while enabling, no foreign or doubled managed line, and a redirect to anchor a new one at |
| OpenVpnModes.ModesExact | setup/root/antizapret/openvpn-ipv6.py:31-36 | network, protocols and redirect of each mode |
| OpenVpnModes.NetworksDiffer | setup/root/antizapret/openvpn-ipv6.py:31-36 | the networks of different modes of one base are disjoint |
| OpenVpnModes.ClassesExact | setup/root/antizapret/openvpn-ipv6.py:88-99 | which lines each class takes, by the directive a line begins with |
| OpenVpnModes.ManagedKinds | setup/root/antizapret/openvpn-ipv6.py:129-177 | the two managed lines, spelled out |
| OpenVpnModes.ManagedProtoIff | setup/root/antizapret/openvpn-ipv6.py:101-111 | the protocol values that a mode may replace |
| OpenVpnModes.EnabledLines | setup/root/antizapret/openvpn-ipv6.py:129-177 | enabling puts a missing server-ipv6 line directly below the IPv4 server and a missing redirect directly below the first IPv4 one, terminated as those |
| OpenVpnModes.ChangesExact | setup/root/antizapret/openvpn-ipv6.py:79-179 | the count is one for a changed protocol, one for the server line and one for the redirect put in or taken out |
| ShellConfig.ScanBody | setup/opt/AdminAntizapret/utils/shell_config.py:15-70 | the while loop computes the automaton |
| ShellConfig.LiteralIff | setup/opt/AdminAntizapret/utils/shell_config.py:15-70 | a body that a line can pass on and that does not begin with a number sign is literal with value v exactly when it is a word of quoted pieces meaning v, then blanks and perhaps a comment (section 2.2 of the Shell Command Language volume of POSIX.1-2017) |
| ShellConfig.HashIsComment | setup/opt/AdminAntizapret/utils/shell_config.py:53-55 | every body that begins with a number sign is taken as a comment behind an empty value, while every reading of it as a word begins with that sign |
| ShellConfig.HashIsWord | setup/opt/AdminAntizapret/utils/shell_config.py:53-55 | and the shell does have such readings |
| ShellConfig.WritableIff | setup/opt/AdminAntizapret/utils/shell_config.py:5-70 | a text can be written on one line so that it is read back exactly when it has no line feed |
| ShellConfig.OneCharacterIff | setup/opt/AdminAntizapret/utils/shell_config.py:15-70 | a character alone means itself exactly when it is none of fifteen special ones |
| ShellConfig.PassedOverIff | setup/opt/AdminAntizapret/utils/shell_config.py:51-52 | behind a word exactly a space or a tab is passed over |
| ShellConfig.BackslashRemovedIff | setup/opt/AdminAntizapret/utils/shell_config.py:33-43 | between double quotes a backslash is removed exactly before a backslash, a double quote, a dollar sign or a backquote |
| EnvGrammar.AssignmentIff | setup/opt/AdminAntizapret/utils/shell_config.py:5-23 | a line is an assignment exactly when it is blanks, perhaps the word export with blanks, an identifier, an equals sign and a body without a line feed, and its parts are then these |
| EnvGrammar.StripEndExact | setup/opt/AdminAntizapret/utils/shell_config.py:15-18 | stripping takes exactly the carriage returns and line feeds at the end |
| EnvGrammar.BreakCodes | setup/opt/AdminAntizapret/utils/shell_config.py:73-80 | the ten code points at which a text is split |
| EnvText.SplitOfJoin | setup/opt/AdminAntizapret/utils/shell_config.py:73-80 | splitting into lines inverts joining on every line list that splitting can produce, for all ten line breaks |
| EnvText.SplitJoins | setup/opt/AdminAntizapret/utils/panel_port.py:61-75 | joining inverts splitting |
| EnvText.KeyWithEnd | setup/opt/AdminAntizapret/utils/shell_config.py:15-18 | a terminator never changes which key a line assigns |
| EnvText.ReadShellAssignments | setup/opt/AdminAntizapret/utils/shell_config.py:73-80 | the dictionary loop: a later assignment replaces an earlier one |
| PanelEnv.EditEnv | setup/opt/AdminAntizapret/utils/panel_port.py:61-75 | the loop computes the line edit, with the missing line feed and the added line |
| PanelEnv.EditedReads | setup/opt/AdminAntizapret/utils/panel_port.py:61-75 | reading the edited file gives the old assignments with the one key replaced, for every file |
| PanelEnv.EditedPort | setup/opt/AdminAntizapret/utils/panel_port.py:48-75 | the edited file shows the new port |
| PanelEnv.OthersKept | setup/opt/AdminAntizapret/utils/panel_port.py:61-75 | a file that assigns the port keeps every other line byte for byte |
| PanelPort.ChangeReversible | setup/opt/AdminAntizapret/utils/panel_port.py:107-112 | the changed site serves the new port everywhere and can be changed back |
| PanelPort.WrittenBackIff | setup/opt/AdminAntizapret/utils/panel_port.py:107-112 | writing the old port back restores the text exactly when no number had leading zeros |
| PanelPort.PanelHost.ChangePanelPort | setup/opt/AdminAntizapret/utils/panel_port.py:178-253 | the outcome and both files are those of the model change, for any failing step and any other writer |
| PanelPort.ChangedShows | setup/opt/AdminAntizapret/utils/panel_port.py:178-218 | a success shows the new port to every reader and changes no other assignment or site line |
| PanelPort.UndisturbedChanges | setup/opt/AdminAntizapret/utils/panel_port.py:178-218 | an admissible change succeeds when every step works and nobody else writes before publication |
| PanelPort.RollbackForced | setup/opt/AdminAntizapret/utils/panel_port.py:219-253 | a failure is rolled back whenever the rollback's steps work and what it finds shows the new port and is the panel's own, whatever others wrote |
| PanelPort.PanelHost.RollBackBoth | setup/opt/AdminAntizapret/utils/panel_port.py:219-253 | the handler of the except block is the model's rollback |
| PanelPort.FailureSettles | setup/opt/AdminAntizapret/utils/panel_port.py:219-253 | whatever fails, a published file ends as found or as given back, never a mixture |
| PanelPort.GivenBackReads | setup/opt/AdminAntizapret/utils/panel_port.py:223-232 | a rolled back .env is the old text, or another writer's with every assignment kept and only the port put back; it shows the old port |
| PanelPort.SiteGivenBack | setup/opt/AdminAntizapret/utils/panel_port.py:233-245 | the same for the site |
| PanelPort.QuietFailureUndone | setup/opt/AdminAntizapret/utils/panel_port.py:219-253 | without other writers a rolled back change leaves both files exactly as they were |
| PanelChecks.PortNumberIff | setup/opt/AdminAntizapret/utils/panel_port.py:48-52 | a port is digits with a value of 1 to 65535 |
| PanelChecks.CurrentPortExact | setup/opt/AdminAntizapret/utils/panel_port.py:178-195 | without a usable entry the current port is 5050 |
| PanelChecks.NginxChangeIff | setup/opt/AdminAntizapret/utils/panel_port.py:78-112 | a site is changed exactly when it is linked, the panel's own, and all its upstreams, at least one, are at the old port; then only their numbers change |
| PanelChecks.ChangedIff | setup/opt/AdminAntizapret/utils/panel_port.py:178-218 | a change succeeds exactly when it is admissible and not empty, nobody writes before publication, and every step works |
| PanelChecks.RejectedIff | setup/opt/AdminAntizapret/utils/panel_port.py:178-200 | it is refused, with both files untouched, exactly when an argument or the surroundings do not fit |
| PanelChecks.RolledBackIff | setup/opt/AdminAntizapret/utils/panel_port.py:219-253 | a failed change is rolled back exactly when each published file still shows the new port and is the panel's, and the steps that put it back and restart its service work |
| PanelChecks.WritersKept | setup/opt/AdminAntizapret/utils/panel_port.py:178-253 | a text that another writer put in place before publication is never lost |

## Left out

- Address families: an IPv6 pool below 2^32, whose host numbers the address library would read as IPv4, and the textual forms of addresses; addresses are numbers.
- ProxyResolver.ProxyResolver.AddMapping: that the rule is inserted before the map entry is in the body and not in the contract, since one critical section is one step.
- ProxyResolver.ProxyResolver.Resolve: its contract is for a call that no other lookup or cleanup interrupts; interleavings of critical sections are covered by the runs of ProxyRuns.
- The window between a rejected load's flush and the process exit, and the cleanup worker's timer.
- Timestamps and real-address columns of session rows; the parsing of status logs.
- The end of a web request, which discards what the session of the access policy has not committed.
- The traffic-limit module is an oracle; a limit is never exceeded when none is set.
- The ban file is written in one step, and names that begin with a number sign, which its reader takes for comments, are not modelled.
- RestoreManifest.BuildManifest: reading the archive itself, its checksums and special member types beyond "neither file nor directory".
- File modes, owners, parent directories, fsync and temporary files; a replacement is atomic.
- What the panel writes after a failed restore has restarted it is not part of the model; what it writes between its start and the end or failure of the job is a parameter.
- RestoreLaws.RollbackRestoresIff: a migration that removes or replaces a parent directory of a target is outside the map of paths.
- Kernel-side expiry of ipset timeouts, which are whole seconds here; the size limit of a set; the store's JSON file; touch_ip_blocked, clear_all, flush_firewall_sets and the display functions, which no run contains.
- BgpPublish.BgpPublisher.Switch: the reload of BIRD that a rollback attempts at its end; its outcome changes neither files nor the report.
- BgpPublish.BgpPublisher.Build: the text of the BIRD configuration and the digest are functions of the inputs, and the candidate file is one step.
- Parsing and printing of networks in client files: a tag's text is an acceptable prefix or it is not.
- Refusing to write through symbolic links in replace_text, and the download and result lists of firewall6-lists.py.
- WireGuardFiles.StripText: the spacing between addresses, which stripping rewrites, is not part of a line here.
- Terminators other than line feed, with or without carriage return, in WireGuard and OpenVPN files.
- ShellConfig.LiteralIff: the shell's tilde expansion, which the source does not perform either.
- Which directives recognise an Nginx site as the panel's own, the rules for a domain, port probing and systemd: parameters of the port change.
- Signals that interrupt a port change between a write and the flag that records it.
- Panel routes and templates, CAPTCHA, QR images, background tasks, cron and whitelist stores: simple maps or interface code that would add only easy members.
- Dry-run and check-only modes.
