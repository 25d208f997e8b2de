# Plasma Shield, verified

A Dafny model of the decision logic of Plasma Shield, the filtering proxy and SSH bastion
for AI agents, with proofs of what that logic promises. `dafny verify dfyconfig.toml` checks
all of it.

What is modelled, in the program's own terms:

- **The pattern compiler and the rule engine** (`Regex`, `Patterns`, `Matcher`,
  `DomainPatterns`, `PatternLimits`, `WildcardLimits`, `CommandLimits`, `Engine`). A command
  glob or a domain pattern is compiled to the *text* of a regular expression; `Regex` parses
  that text as Go's `regexp` would and says what it matches. The main results: every command
  pattern compiles and matches exactly the commands with a substring that the glob denotes;
  a domain pattern matches exactly the domains that it denotes if and only if it is
  completely escaped; first match over a compiled rule list is first match over the raw
  list; a rule behind one that shadows it is dead.
- **The bastion** (`Grants`, `GrantRuns`, `GrantFile`, `Certificates`, `BoundedLog`,
  `SessionLog`, `BastionProtocol`). The grant store with its file, over whole runs: garbage
  collection is invisible, revocation is permanent, grants are conserved, a crash between
  any two steps leaves a file of one moment, certificates never outlive grants, and in every
  interleaving each logged connect was validated and each disconnect follows its connect.
- **The fleet manager** (`Fleet`, `FleetConfig`). Two hand-kept indexes over the tenants:
  what holds in every run, which calls keep both exact and which do not, and what applying
  a configuration leaves behind.
- **The verdict pipeline** (`Modes`, `Inspector`, `Verdicts`) and the **exec-check store**
  (`ExecStore`). One request on its own, then requests interleaved with rule loads and mode
  changes; the exec check over an unordered rule map, with its counters and its log.

Text is ASCII. Times are integers: nanoseconds since 1970, and a clock reading is a parameter
of each operation. A file, a request body or a query parameter is given by what it decodes to.
A locked section is one atomic step.

## Where the code and its documentation differ

The model follows the code. Each difference has a lemma that says exactly when it shows.

- A star in a command pattern is documented as any sequence of characters (matcher.go line
  61); it does not match a newline: `CommandLimits.DocumentedExactly`.
- A `*.` pattern with another star repeats the character before that star, and a second star
  straight after the first does not compile, which makes the whole rule list fail to load:
  `PatternLimits.SubdomainFaithfulExactly`, `PatternLimits.SubdomainCompilesExactly`.
- A wildcard domain escapes dots only: `WildcardLimits.WildcardFaithfulExactly`,
  `WildcardLimits.WildcardCompilesExactly`.
- A grant without a principal is stored for principal `*`, documented as any, but access
  checks compare principals literally: `GrantRuns.PrincipalStarIsLiteral`.
- A failed write of the grants file goes unreported, so a deleted grant can come back after a
  restart: `GrantFile.FailedWriteForgetsDeletion`, `GrantFile.RestartExactly`.
- Access is not checked again between validation and connect:
  `BastionProtocol.ConnectAfterRevocation`.
- Re-creating a tenant leaves its agents in the index, and asking for their peers then
  panics: `Fleet.IndexSoundStep`, `Fleet.RecreatedTenantPanics`. Re-adding an agent can leave
  its old address: `Fleet.CoherentStepExactly`. A configuration can drop an agent and leave
  it indexed: `FleetConfig.IndexedAgentHeldExactly`. A third mode string makes agents visible
  that may not communicate: `Fleet.VisibilityExact`.
- A killed agent cannot be resumed, but pausing it first undoes the kill:
  `ExecStore.KilledStep`, `ExecStore.PauseUndoesKill`.
- An IPv6 host without brackets loses its last group: `Inspector.PortlessHostKept`. An empty
  host takes the URL's host only without a port: `Inspector.EmptyHostExactly`.
- Two rules created in the same nanosecond share an identifier:
  `ExecStore.SameInstantReplacesRule`.

## Model

| member | source | states |
|---|---|---|
| Matcher.EmitGlob | internal/rules/matcher.go:68-79 | the emitting loop turns stars into `.*?` and writes every regex metacharacter behind a backslash |
| Matcher.GlobToRegex | internal/rules/matcher.go:63-82 | compiles exactly the text specified for the pattern |
| Matcher.EscapeRegexDomain | internal/rules/matcher.go:126-139 | the escaping loop writes every regex metacharacter behind a backslash and leaves the star alone |
| Matcher.EmitWildcards | internal/rules/matcher.go:104-114 | the wildcard loop turns stars into `.*`, escapes dots and nothing else |
| Matcher.EmitDomainBody | internal/rules/matcher.go:96-118 | the three branches write exactly the text specified between the anchors |
| Matcher.DomainToRegex | internal/rules/matcher.go:89-123 | branches, anchors and flag compile exactly the text specified for the lowered pattern |
| Prelude.LowerIsAsciiCase | internal/rules/matcher.go:66 | two bytes fold alike iff they are equal or the two cases of one letter |
| Patterns.TokenParses | internal/rules/matcher.go:68-79 | the text of one token parses to that token's tree whatever follows it |
| Patterns.EmitParses | internal/rules/matcher.go:68-81 | a whole emitted text parses, to the tree of its tokens |
| Patterns.TokensMatch | internal/rules/matcher.go:68-81 | the tree of a pattern matches what the pattern spans followed by what the rest matches |
| Patterns.SpansDenotes | internal/rules/matcher.go:61-62 | scanning a pattern over a text agrees with filling its stars by newline-free runs |
| Patterns.GlobFold | internal/rules/matcher.go:66 | what a glob denotes ignores ASCII case of pattern and text |
| Regex.StarAny | internal/rules/matcher.go:72 | the emitted star matches exactly the newline-free runs |
| Matcher.CommandCompiles | internal/rules/matcher.go:63-82 | every command pattern compiles, so compilation of one never fails |
| Matcher.CommandCorrect | internal/rules/matcher.go:44-49 | a compiled command pattern matches a command iff some substring is the glob with each star a newline-free run, up to case |
| Matcher.LabelMatches | internal/rules/matcher.go:100 | the subdomain group matches exactly one nonempty label of letters, digits and hyphens with its dot |
| Matcher.LabelsMatch | internal/rules/matcher.go:100 | the repeated group matches exactly the runs of such labels |
| Matcher.LabelScanCorrect | internal/rules/matcher.go:100 | a one-pass scan accepts exactly the runs of labels |
| DomainPatterns.WholeCorrect | internal/rules/matcher.go:102-120 | a wildcard or exact domain pattern matches exactly the domains that its whole-string glob denotes |
| DomainPatterns.SubdomainCorrect | internal/rules/matcher.go:96-101 | `*.s` matches exactly `s` behind zero or more labels, up to case |
| DomainPatterns.DomainCorrect | internal/rules/matcher.go:52-58 | every completely escaped domain pattern compiles and matches exactly the domains it denotes |
| DomainPatterns.StarFreeIsExact | internal/rules/matcher.go:115-118 | a star-free domain pattern compiles and matches exactly itself, up to case |
| DomainPatterns.SubdomainStarIsScan | internal/rules/matcher.go:96-101 | the compiled `*.s` decides a linear scan of the domain from the left |
| DomainPatterns.SubdomainBoundary | internal/rules/matcher.go:87 | a match of `*.s` is `s` itself or has a dot right before `s` |
| PatternLimits.SubdomainCompilesExactly | internal/rules/matcher.go:96-101 | a `*.` pattern compiles iff its suffix neither begins with a star nor has two adjacent stars |
| PatternLimits.SubdomainFaithfulExactly | internal/rules/matcher.go:96-101 | a `*.` pattern means what is documented on every domain iff its suffix has no star |
| WildcardLimits.WildcardFaithfulExactly | internal/rules/matcher.go:102-114 | a wildcard pattern without an opening brace means its glob on every domain iff it has no backslash, no bar and none of `+ ? ^ $ ( ) [` |
| WildcardLimits.WildcardCompilesExactly | internal/rules/matcher.go:102-123 | a wildcard pattern whose only unescaped characters are `+ ? ^ $` compiles iff nothing in it repeats a repetition |
| WildcardLimits.UnescapedDollar | internal/rules/matcher.go:104-114 | an instance: `*$` compiles and does not mean its glob |
| WildcardLimits.UnescapedPlusMalformed | internal/rules/matcher.go:104-114 | another: `*+` does not compile |
| WildcardLimits.DomainFaithfulExactly | internal/rules/matcher.go:89-123 | over the three branches, a domain pattern means what is documented on every domain iff it is completely escaped |
| WildcardLimits.Shrink | internal/rules/matcher.go:110-123 | any match of any expression can be cut down, in the same place, to one of bounded mass |
| WildcardLimits.CatWeight | internal/rules/matcher.go:104-123 | the tree that a text parses to costs no more than the mass that the text stands for |
| CommandLimits.DocumentedWithoutNewline | internal/rules/matcher.go:61 | on commands without a newline the star is any run, as documented |
| CommandLimits.DocumentedExactly | internal/rules/matcher.go:61 | a pattern meets the documented star on every command iff no star has, on both sides, an ordinary character other than a newline or two adjacent newlines |
| Engine.AppliesTo | internal/rules/engine.go:23-53 | the tier scans decide whether a rule applies to a tier, the commodore being exempt from blocks that do not name it |
| Engine.CoversTiersIsCoverage | internal/rules/engine.go:23-53 | one rule applies to every tier of another iff a condition on the two tier lists and actions holds |
| Engine.CompileRule | internal/rules/matcher.go:19-41 | a rule compiles to matchers for the patterns it has, or to the first compile error |
| Engine.CompileRuleSet | internal/rules/engine.go:250-260 | a rule list compiles rule by rule in order, or fails with the error of its first bad rule |
| Engine.RuleCompiles | internal/rules/matcher.go:19-41 | a rule whose domain pattern is completely escaped always compiles |
| Engine.RuleEngine.LoadRules | internal/rules/engine.go:96-114 | the list, its compilation and its path are installed together iff all rules compile, and otherwise nothing changes |
| Engine.RuleEngine.LoadRulesFromBytes | internal/rules/engine.go:118-135 | the same without a path |
| Engine.RuleEngine.CheckCommandWithTier | internal/rules/engine.go:176-205 | the loop answers with first match over the compiled rules |
| Engine.RuleEngine.CheckDomainWithTier | internal/rules/engine.go:218-247 | the same for domains |
| Engine.MatchedIsHit | internal/rules/matcher.go:43-58 | a compiled rule matches an input iff the raw rule's pattern denotes it |
| Engine.DirectDecidedBy | internal/rules/engine.go:176-247 | the first rule that speaks to the input, in its own fields, is the one matched and blocks iff its action is `block`; if none speaks the default action decides |
| Engine.EngineDecidedBy | internal/rules/engine.go:176-247 | so for what the engine answers from its compiled rules |
| Engine.SpeaksExactly | internal/rules/engine.go:23-53 | a rule takes part and hits iff it is enabled, its pattern denotes the input and its tiers admit the one asking, a blocking rule without tiers not admitting the commodore |
| Engine.CompilationPreservesVerdicts | internal/rules/engine.go:176-247 | for every list, tier and input, compiled evaluation gives the verdict, matched rule and reason of first match over the raw rules, if the domain patterns that take part are completely escaped |
| Engine.IrrelevantRulesDoNothing | internal/rules/engine.go:180-190 | deleting every disabled, wrong-kind or tier-inapplicable rule changes no verdict |
| Engine.PrunedEngineAgrees | internal/rules/engine.go:222-232 | nor does loading the pruned list into the engine, whatever the patterns |
| Engine.ShadowedRuleIsDead | internal/rules/engine.go:222-240 | a rule behind one that shadows it can be deleted from any list without changing any verdict |
| Engine.ShadowedRuleIsDeadCompiled | internal/rules/engine.go:222-240 | the same for the compiled engine, with nothing asked of any other rule |
| Engine.DomainChain | internal/rules/matcher.go:96-118 | the domains matched by `s`, `*.s` and `*s` form an increasing chain |
| Engine.ChainShadows | internal/rules/matcher.go:96-118 | an enabled rule higher in that chain that covers the tiers of a later one shadows it |
| Prelude.FormatNatValue | internal/bastion/grants.go:214-216 | formatting writes the numeral of the number in its base, without a leading zero |
| Grants.GrantIDInjective | internal/bastion/grants.go:214-216 | from counter 1 on an identifier determines its time and counter |
| Grants.GrantStore.constructor | internal/bastion/grants.go:28-41 | a new store holds exactly the grants its file loads to, with counter 0 |
| Grants.GrantStore.Add | internal/bastion/grants.go:44-62 | the new grant, the counter and the file after an addition |
| Grants.GrantStore.Get | internal/bastion/grants.go:65-77 | a stored grant up to and including its expiry instant |
| Grants.GrantStore.Delete | internal/bastion/grants.go:80-91 | removes exactly the named grant and says whether it was there |
| Grants.GrantStore.List | internal/bastion/grants.go:94-103 | every stored grant once, in some order |
| Grants.GrantStore.ListActive | internal/bastion/grants.go:106-118 | every grant strictly before its expiry once, in some order |
| Grants.GrantStore.ValidateAccess | internal/bastion/grants.go:121-135 | some unexpired grant of that principal with a matching target, or none iff there is none |
| Grants.AccessExactly | internal/bastion/grants.go:121-135 | access is granted iff some stored grant has not passed its expiry, names the user, and has the target asked for or a star |
| Grants.GrantStore.Cleanup | internal/bastion/grants.go:138-154 | removes exactly the expired grants and counts them |
| Grants.GrantStore.Persist | internal/bastion/grants.go:157-182 | rewrites the file with the current grants, or leaves it as it was if any step fails |
| Grants.LoadAllKeyed | internal/bastion/grants.go:185-199 | loading keys every grant by its own identifier |
| Grants.SaveLoadRoundTrip | internal/bastion/grants.go:157-199 | a saved file loads to the saved map, in whatever order it was written, iff every grant is keyed by its own identifier |
| GrantRuns.GarbageCollectionInvisible | internal/bastion/grants.go:138-154 | with a clock that never goes back, runs that differ only in cleanups give the same answers to additions, lookups, listings and access checks |
| GrantRuns.CleanupVisibleToDelete | internal/bastion/grants.go:80-91 | a cleanup changes the answer of a deletion exactly for a stored expired grant |
| GrantRuns.CleanupVisibleToList | internal/bastion/grants.go:94-103 | a cleanup changes the full listing iff some stored grant had expired |
| GrantRuns.CleanupVisibleToLookup | internal/bastion/grants.go:65-77 | a cleanup changes a later lookup iff the grant is stored, expired at the cleanup's clock and not at the lookup's |
| GrantRuns.CleanupVisibleToAccess | internal/bastion/grants.go:121-154 | a cleanup changes a later access check iff some grant that it may answer with had expired at the cleanup's clock |
| GrantRuns.ListingStricterThanLookup | internal/bastion/grants.go:73-113 | lookup and listing differ exactly at the expiry instant |
| GrantRuns.PrincipalStarIsLiteral | internal/bastion/grants.go:130 | in any store, access is as documented for principal `*` iff the user has that name, or a grant names the user, or no unexpired grant for the target has that principal |
| GrantRuns.FreshIdentifier | internal/bastion/grants.go:48-51 | a new identifier differs from every one issued before, whatever the clock reads |
| GrantRuns.GoneForGood | internal/bastion/grants.go:44-62 | an issued identifier that is not stored never comes back |
| GrantRuns.RevocationPermanent | internal/bastion/grants.go:80-91 | in a memory-only store a deleted grant is never found again by lookup or access check |
| GrantRuns.GrantsConserved | internal/bastion/grants.go:44-154 | size is additions minus successful deletions minus the total that cleanups report |
| GrantRuns.AddedGrantGives | internal/bastion/grants.go:44-62 | after an addition, until deletion and up to `duration` later, lookup finds the grant with the fields asked for and it lets in its principal alone, at its target or any if that is a star |
| GrantRuns.StillStoredExactly | internal/bastion/grants.go:44-154 | in any store, over any run that does not issue its identifier again, a grant stays stored iff nothing deletes it and no cleanup comes after its expiry |
| GrantRuns.SurvivesUntilExpiry | internal/bastion/grants.go:65-77 | up to its expiry such a grant is found iff nothing deleted it |
| GrantRuns.EarlierNotReissued | internal/bastion/grants.go:44-62 | an identifier generated before every clock reading of a run is not issued again, in a store of any origin |
| GrantRuns.IssuedNotReissued | internal/bastion/grants.go:44-62 | nor is one that the counter has passed |
| GrantFile.CrashConsistent | internal/bastion/grants.go:157-199 | whatever fails or crashes in between, the file loads to one map that the store had in memory on the way |
| GrantFile.ChangesArePersisted | internal/bastion/grants.go:44-154 | no operation changes the map without persisting it |
| GrantFile.FileIsLastRename | internal/bastion/grants.go:157-199 | that map is the one in memory at the last completed rename |
| GrantFile.FileUnrenamed | internal/bastion/grants.go:157-199 | or the starting file's if there was none |
| GrantFile.RestartExactly | internal/bastion/grants.go:157-199 | a restart changes no grant iff memory is what the last completed rename saved |
| GrantFile.RestartExactlyUnrenamed | internal/bastion/grants.go:157-199 | without any rename, iff memory is what the file held |
| GrantFile.LatestWhenWritesSucceed | internal/bastion/grants.go:157-182 | if a completed rename or a restart follows every failure, a restart between operations changes no grant |
| GrantFile.FailedWriteForgetsDeletion | internal/bastion/grants.go:178-181 | a deleted grant that the file held is back after the next restart iff no rename completes in between |
| GrantFile.DeletedGrantReturns | internal/bastion/grants.go:178-181 | such a run exists |
| Certificates.IssuedExactly | internal/bastion/ca.go:61-72 | a certificate is issued iff there are a key and a grant strictly before its expiry |
| Certificates.WindowInsideGrant | internal/bastion/ca.go:69-82 | every instant of the certificate's window is before the grant's expiry, across floor rounding and unsigned conversion |
| Certificates.WindowExactly | internal/bastion/ca.go:80-81 | and the window is no smaller: from the second of issue to the second of the grant's expiry |
| Certificates.CertificateNeverOutlivesGrant | internal/bastion/ca.go:61-94 | in any store, at every instant of the window the grant is found under the certificate's key identifier unless it was deleted, whatever cleanups ran |
| Certificates.CertificatePrincipals | internal/bastion/ca.go:74-89 | throughout the window the principals of the certificate are exactly the users that its grant lets in at its target |
| Certificates.CertificateAcrossRestart | internal/bastion/ca.go:61-94 | so too over a file of an earlier process, whose grants were created before every clock reading of the run |
| Certificates.IssueStricterThanLookup | internal/bastion/ca.go:70 | issue refuses a grant that lookup returns exactly at the expiry instant |
| BoundedLog.WindowIsLast | internal/bastion/logger.go:37-42 | after any additions a log holds the last entries up to its limit, in order |
| BoundedLog.PagesCoverLog | internal/bastion/logger.go:46-70 | pages of any positive size concatenate to the whole log |
| BoundedLog.PageOutOfRange | internal/bastion/logger.go:50-66 | a negative offset, a limit of 0 or less and an offset past the end |
| BoundedLog.NewestIsReversedHistory | cmd/proxy/main.go:47-68 | reading k entries gives the last k of the full history, as far as kept, reversed; 0 or less reads all that is kept |
| BoundedLog.TrafficLog.Add | cmd/proxy/main.go:47-54 | append and cut to the limit |
| BoundedLog.TrafficLog.Get | cmd/proxy/main.go:56-68 | the most recent entries, newest first |
| SessionLog.LogStore.Add | internal/bastion/logger.go:31-43 | append and cut to the limit |
| SessionLog.LogStore.List | internal/bastion/logger.go:46-70 | the clamped page and the total |
| SessionLog.Logger.LogConnect | internal/bastion/logger.go:101-116 | records the start and appends a connect event with the same clock reading |
| SessionLog.Logger.LogDisconnect | internal/bastion/logger.go:119-140 | drops the start and appends a disconnect event with the elapsed time |
| SessionLog.Logger.LogCommand | internal/bastion/logger.go:143-153 | appends a command event and leaves the recorded starts alone |
| BastionProtocol.HandleDirectTCPIP | internal/bastion/proxy.go:22-60 | no events without a payload, a validated grant, accept and dial; otherwise one connect and one disconnect with the session's length |
| BastionProtocol.AddressParts | internal/bastion/proxy.go:44 | the dial address comes apart at its last colon into the host, bracketed iff it has colons, and the port's decimal numeral |
| BastionProtocol.StoreFollowsChanges | internal/bastion/grants.go:44-154 | in every interleaving the clock is the sum of its ticks and the grants are those that the changes alone make |
| BastionProtocol.ChannelArrived | internal/bastion/proxy.go:22-30 | a channel keeps the user, host and port it arrived with |
| BastionProtocol.ConnectTime | internal/bastion/logger.go:101-116 | a connect event carries the identifier and the clock of its session's start |
| BastionProtocol.DisconnectTime | internal/bastion/logger.go:119-140 | a disconnect event carries that identifier and the clock of its session's end |
| BastionProtocol.LogConnectJustified | internal/bastion/proxy.go:29-56 | every step that logs a connect comes after a validation of the same channel that found the grant stored, unexpired, held by that user and target-matching, and logs that grant |
| BastionProtocol.ConnectsAreValidated | internal/bastion/proxy.go:29-59 | in every interleaving each connect event of the log was written by such a step |
| BastionProtocol.StillStoredExactly | internal/bastion/grants.go:80-154 | a grant stored after some step is still stored iff no later step deletes it or cleans up after its expiry |
| BastionProtocol.EarlierNeverGenerated | internal/bastion/grants.go:214-216 | an identifier of an earlier process is none that the store generates once the run has begun, as that result asks |
| BastionProtocol.ConnectAfterRevocation | internal/bastion/proxy.go:29-56 | the grant that a connect logs is still stored then iff no step since the validation deleted it or cleaned up after its expiry |
| BastionProtocol.RevokedBeforeConnect | internal/bastion/proxy.go:29-56 | a run exists that logs a connect after its grant was deleted |
| BastionProtocol.SessionStartsExact | internal/bastion/logger.go:100-140 | with distinct session identifiers the recorded starts are exactly the open sessions with their start times |
| BastionProtocol.DisconnectsFollowConnects | internal/bastion/proxy.go:56-57 | each disconnect follows the connect of its session and carries the clock difference |
| Fleet.Manager.ValidateAgentIP | internal/fleet/fleet.go:58-73 | the registered agent of an address and its tier, crew by default |
| Fleet.Manager.CreateTenant | internal/fleet/fleet.go:83-94 | replaces the tenant and leaves both indexes alone |
| Fleet.Manager.SetCaptainName | internal/fleet/fleet.go:104-120 | renames the captain, creating the tenant if needed |
| Fleet.Manager.SetMode | internal/fleet/fleet.go:142-157 | sets the mode, creating the tenant if needed |
| Fleet.Manager.AddAgent | internal/fleet/fleet.go:172-194 | the tenant and both indexes after an addition |
| Fleet.Manager.RemoveAgent | internal/fleet/fleet.go:197-213 | the tenant and both indexes after a removal |
| Fleet.Manager.GetAgentsForAgent | internal/fleet/fleet.go:241-263 | the other agents of a tenant that is not isolated, once each, or the panic on an empty tenant |
| Fleet.Manager.CanCommunicate | internal/fleet/fleet.go:267-286 | same named tenant in fleet mode |
| Fleet.FleetModeWasSet | internal/fleet/fleet.go:83-194 | a tenant is in fleet mode only if it was set to it |
| Fleet.TalkNeedsFleetMode | internal/fleet/fleet.go:267-286 | from a new manager two agents may communicate only if one named tenant is indexed for both and was set to fleet mode |
| Fleet.KeyedRun | internal/fleet/fleet.go:172-213 | in every run keys agree with the records they lead to |
| Fleet.IndexSoundStep | internal/fleet/fleet.go:83-213 | an operation keeps the agent index sound iff it creates no tenant that agents are indexed under |
| Fleet.IndexSoundAlways | internal/fleet/fleet.go:83-213 | in every run of such operations the agent index names tenants that hold the agent, and peer lookup never panics |
| Fleet.FreshOrphansNone | internal/fleet/fleet.go:83-94 | creating a tenant that does not exist is such an operation |
| Fleet.RecreatedTenantPanics | internal/fleet/fleet.go:83-256 | after a tenant is re-created and put into fleet mode, peer lookup panics iff the agent was indexed under it |
| Fleet.RecreatedTenantRun | internal/fleet/fleet.go:83-256 | such a run exists |
| Fleet.CoherentStepExactly | internal/fleet/fleet.go:83-213 | each operation keeps both indexes exact inverses of the tenant maps iff its guard holds |
| Fleet.CoherentRunsExactly | internal/fleet/fleet.go:83-213 | a run is coherent throughout iff every operation meets its guard |
| Fleet.DisciplinedRunsCoherent | internal/fleet/fleet.go:83-213 | after every disciplined run both indexes are exact inverses of the tenant maps |
| Fleet.VisibilityExact | internal/fleet/fleet.go:241-286 | an agent sees exactly the others it can communicate with iff its tenant uses one of the two modes or holds it alone |
| Fleet.DisciplinedVisibility | internal/fleet/fleet.go:241-286 | so after every disciplined run, for every agent |
| Fleet.ReaddedAgentKeepsOldAddress | internal/fleet/fleet.go:186-193 | re-adding an agent leaves its old record registered iff it had an address and the new one differs |
| FleetConfig.ApplyConfig | internal/fleet/loader.go:70-104 | the nested loops perform exactly the operations that the document stands for |
| FleetConfig.ConfigMeansLastEntry | internal/fleet/loader.go:70-104 | on a fresh manager addresses, owners and tenants follow the last entry of the document, field by field; a tenant is in fleet mode iff that entry says `fleet` |
| FleetConfig.ConfigAgents | internal/fleet/loader.go:87-102 | and a tenant's agents are those of its last entry, each as listed last there |
| FleetConfig.TalkAfterConfig | internal/fleet/loader.go:70-104 | two agents may then communicate iff the last entries that list them are of one named tenant whose last entry says `fleet` |
| FleetConfig.IndexedAgentHeldExactly | internal/fleet/loader.go:70-104 | the tenant that the index names for an agent holds it iff the last entry of the last tenant listing it still lists it |
| FleetConfig.DroppedAgentStaysIndexed | internal/fleet/loader.go:71-103 | a document exists after which a dropped agent stays in both indexes |
| Modes.ModeManager.SetGlobalMode | internal/mode/mode.go:43-47 | sets the global mode and leaves every override |
| Modes.ModeManager.SetAgentMode | internal/mode/mode.go:61-65 | sets one agent's effective mode and no other's |
| Modes.ModeManager.ClearAgentMode | internal/mode/mode.go:68-72 | reverts one agent to the global mode and no other |
| Modes.ModeManager.AllAgentModes | internal/mode/mode.go:75-83 | the loop copies every override |
| Modes.ModeManager.ShouldBlock | internal/mode/mode.go:89-99 | audit never blocks, lockdown always, other modes follow the rules |
| Inspector.ExtractHost | internal/proxy/inspector.go:30-43 | the lowered host without its port |
| Inspector.PortStripped | internal/proxy/inspector.go:36-41 | a colon-free port is stripped from a host iff it holds no closing bracket |
| Inspector.HostNormalised | internal/proxy/inspector.go:30-43 | a host gives the same value with and without a port and in any case |
| Inspector.EmptyHostExactly | internal/proxy/inspector.go:31-41 | the empty host, where the URL's host stands in, gives the same with and without a port iff both are empty |
| Inspector.UrlHostStandsIn | internal/proxy/inspector.go:31-34 | a request without a host has that of its URL, read the same way |
| Inspector.VerdictIgnoresPortAndCase | internal/proxy/inspector.go:62-71 | so the rule verdict depends on neither |
| Inspector.PortlessHostKept | internal/proxy/inspector.go:36-41 | a host without a port comes through whole iff it has no colon or a closing bracket behind the last one; any other loses what follows that colon |
| Inspector.BareIPv6LosesGroup | internal/proxy/inspector.go:36-41 | so an unbracketed host with colons loses its last group |
| Inspector.CheckRequest | internal/proxy/inspector.go:61-96 | the rule verdict on host and tier combined with the mode of the token, and the reason |
| Inspector.DecisionFromRules | internal/proxy/inspector.go:61-96 | read off the raw rules, a request is blocked iff in lockdown, or outside audit and the first rule to speak, or else the default, blocks; and the reason names that rule |
| Inspector.ValidateSource | internal/proxy/handler.go:102-108 | without a registry every source is accepted as unknown |
| Inspector.ServeHTTP | internal/proxy/handler.go:78-129 | which sources are rejected, which requests blocked, and the label and reason logged |
| Verdicts.VerdictCombinesOneRuleSetAndOneMode | internal/proxy/handler.go:111-129 | in every interleaving with rule loads and mode changes a finished request combines the whole rule set of its own rule read with the mode of its own mode read, in order between its beginning and its answer, and the label says which |
| Verdicts.LockdownAlwaysBlocks | internal/mode/mode.go:89-99 | a token in lockdown from its request's beginning to its answer is always blocked |
| Verdicts.VerdictIsDirectReading | internal/rules/engine.go:96-114 | after any run the installed rule set decides as its raw rules read, if the domain patterns that take part are completely escaped |
| Verdicts.CurrentIsLast | internal/mode/mode.go:43-72 | in every run the installed rules are those of the last load and an agent's mode is its last override or else the last global mode |
| Verdicts.AnswerFromHistory | internal/proxy/handler.go:111-129 | in every interleaving the answer follows from the raw rules last loaded before the request's rule read and the mode last set before its mode read |
| ExecStore.Store.RegisterAgent | internal/api/handlers.go:591-603 | registers an active agent, replacing any of that name |
| ExecStore.Store.PauseAgent | internal/api/handlers.go:111-139 | pauses a known agent |
| ExecStore.Store.KillAgent | internal/api/handlers.go:142-171 | kills a known agent |
| ExecStore.Store.ResumeAgent | internal/api/handlers.go:174-207 | activates a known agent that is not killed |
| ExecStore.Store.CreateRuleHandler | internal/api/handlers.go:231-273 | stores a rule with a known action and a pattern or a domain under the identifier of that instant |
| ExecStore.SameInstantReplacesRule | internal/api/handlers.go:626-628 | a new rule takes the place of an earlier one iff both identifiers were taken in the same nanosecond |
| ExecStore.Store.DeleteRuleHandler | internal/api/handlers.go:276-302 | removes a known rule |
| ExecStore.Store.FindBlockingRule | internal/api/handlers.go:547-563 | some rule that blocks the command, or none iff there is none, in any map order |
| ExecStore.Store.AddLog | internal/api/handlers.go:572-588 | append and cut to ten thousand |
| ExecStore.Store.ExecCheckHandler | internal/api/handlers.go:510-569 | the answer, the counters, the agent and the log after a check |
| ExecStore.Store.ListLogs | internal/api/handlers.go:305-367 | the requested page of the selected entries and their number |
| ExecStore.Store.FilterLogs | internal/api/handlers.go:335-348 | the filtering loop computes the selection |
| ExecStore.Paginate | internal/api/handlers.go:350-359 | the clamped page, entry by entry |
| ExecStore.CheckDecidedExactly | internal/api/handlers.go:527-569 | a check is refused iff its agent is paused or killed, or some enabled blocking rule has a nonempty pattern that stands in the command; only the agent's last-seen time changes |
| ExecStore.StatusFollowsRequests | internal/api/handlers.go:111-206 | over every run an agent's status is what its registrations, pauses, kills and resumes make of it |
| ExecStore.CheckFollowsStanding | internal/api/handlers.go:527-544 | so in every run a check is answered from the status iff the requests before it left the agent paused or killed |
| ExecStore.RuleStep | internal/api/handlers.go:231-302 | which rules a request creates, keeps and removes |
| ExecStore.CreatedRuleBlocks | internal/api/handlers.go:546-563 | from the creation of an enabled blocking rule until its deletion or replacement every check of a command that holds its pattern is blocked |
| ExecStore.DeletedRuleIsGone | internal/api/handlers.go:276-302 | from its deletion until something is created under its identifier a rule is not in the store |
| ExecStore.CheckIndependentOfOrder | internal/api/handlers.go:546-569 | the answer, the counters and the agents do not depend on the order of the rule map |
| ExecStore.Accounting | internal/api/handlers.go:527-588 | over every run requests counted are blocked and allowed answers together, one log entry is written for each, and blocked ones are the blocked answers |
| ExecStore.LogFollowsWritten | internal/api/handlers.go:571-588 | over every run the log is what adding the written entries one by one leaves |
| ExecStore.EntryOfExactly | internal/api/handlers.go:571-588 | what the entry written for a check says |
| ExecStore.AccountingFromStart | internal/api/handlers.go:527-588 | from an empty store the counters are those totals and the log is the last ten thousand entries ever written, in order |
| ExecStore.PauseSticks | internal/api/handlers.go:123-138 | from a pause until the next resume or re-registration every check is blocked |
| ExecStore.KillSticks | internal/api/handlers.go:186-206 | from a kill until the next pause or re-registration every check is blocked and every resume refused |
| ExecStore.KilledStep | internal/api/handlers.go:111-206 | a handled request ends a kill iff it pauses the agent or registers it anew |
| ExecStore.KilledThroughoutExactly | internal/api/handlers.go:111-206 | an agent is killed throughout a run iff no request of the run does |
| ExecStore.PauseUndoesKill | internal/api/handlers.go:123-138 | after a kill, a pause and a resume leave the agent active |
| ExecStore.FilterKeepsSelected | internal/api/handlers.go:335-348 | the filter keeps exactly the selected entries with their multiplicity |
| ExecStore.PagesCoverSelection | internal/api/handlers.go:350-359 | pages of any positive size concatenate to the selected entries |

## Left out

- WildcardLimits.WildcardFaithfulExactly: an opening brace in a wildcard domain stays one way (DomainPatterns.WholeCorrect covers patterns without it), because counted repetition is not interpreted here; a letter escape, a group that begins with a question mark and a negated or nested class count as not compiling, where Go may compile them.
- WildcardLimits.WildcardCompilesExactly: no condition for groups, classes, bars, backslashes and braces in a wildcard domain.
- Engine.CompileRule: a rule whose unescaped domain pattern uses counted repetition, a brace, a letter escape, a negated or nested class or an inline flag is reported as not compiling, though Go may compile it.
- Engine.CompileRuleSet: inherits that.
- Engine.RuleEngine.LoadRules: inherits that.
- Engine.RuleEngine.LoadRulesFromBytes: inherits that.
- BastionProtocol.HandleDirectTCPIP: the bytes proxied between connect and disconnect are network input and output.
- Grants.GrantStore.Persist: JSON is the identity on grants; the code ignores whether the directory could be created, so a missing one is a write that fails.
- SessionLog.Logger.LogDisconnect: the duration is kept as a number, not as Go's text for it.
- ExecStore.Store.RegisterAgent: the list, status and grant endpoints of the same file are not modelled; they read or pass on to the grant store.
- Tenants and agents are values inside the manager's maps, so a tenant pointer kept by a caller, and changes made through it, are not captured.
- Characters above 127: Go folds more of them than ASCII case and refuses invalid UTF-8.
- Counted repetition, letter escapes and inline flags of Go's regular expressions: no emitted text for the patterns covered contains them, and the parser here marks them as uninterpreted.
- Overflow of 64-bit clock readings, counters and page bounds.
- Lock internals, HTTP forwarding, tunnelling, SSH handshakes, key handling and signing, the reverse proxy, the command line, the web pages and bearer-token checks.
- YAML, JSON, environment substitution and flag parsing.
