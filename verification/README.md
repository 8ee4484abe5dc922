# InProxy, modelled in Dafny

InProxy is a reverse proxy that is reconfigured while it runs. This project models the parts of it that
keep state or run concurrently, and proves what they promise. `dafny verify dfyconfig.toml` checks all of it.

- **UDP relay** (`UdpRelay`, `UdpShutdown`, `UdpSessions`). One listener's goroutines (accept loop, main loop, idle reaper,
  one reverse worker per session, and the thread that calls `stop`) as a step system over the shared session
  map, mutex, quit channel and WaitGroup. Results hold for every interleaving: open backend sockets are
  exactly the mapped sessions, clients never mix, idle time is bounded, shutdown always completes.
- **Reconcilers** (`Sockets`, `Forwarders`, `ForwardConflicts`, `DomainRouters`, `Dnat`, `DnatRuns`). Classes
  over an abstract socket table, port table and nat table in which binds and commands can fail.
- **Concurrent edits** (`Convergence`). Commit, unlock, fire, Apply, by any number of threads. The domain
  router converges under every interleaving; a forward or DNAT edit is sure to take effect under an exact
  condition.
- **Store and index** (`KeyedLists`, `Validation`, `RouteIndex`, `Stores`, `Decisions`). Lists compacted in
  place, validation, the two compiled indexes against plain searches of the lists, and who answers a request.
- **SNI peek and hand-over** (`SniPeek`, `SniListener`, `Relay`, `Passthrough`, `ProxyProtocol`). Byte-exact replay,
  the rendezvous between handlers and `Accept`, the two-way copy, the PROXY version 2 header and its decoder.
- **Requests** (`Limiter`, `PathRewrite`). The concurrency limit across reloads, and path rewriting.

A step system has a predicate `Enabled`, a function `Step` and a predicate `Trace`; `Trace(s, acts, t)` says
that the interleaving `acts` leads from `s` to `t`. Where the program updates an object in place, the model
is a class whose methods have the program's loops.

## What the code does that its comments do not say

- A concurrency limit is a limit per compiled generation. It bounds the whole route exactly while nobody
  under way arrived before the last reload (`Limiter.LimitHoldsExactly`).
- A reverse worker that ends on a read error leaves its session mapped: exactly such sessions have an open
  socket that nobody reads (`UdpSessions.SessionIsDeafExactly`). Their clients get no replies until the
  session is reaped, which a client puts off with everything it sends (`UdpSessions.DeafIsSilent`,
  `UdpSessions.DeafIsKeptAlive`).
- An edit that fails to compile or to be written stays in memory. The indexes are in sync exactly while the
  lists compile (`Stores.Recompiled`), and the failed edit can be tried again exactly if it updates a record
  under its own key (`Stores.RetryIsAcceptedExactly`). A stored domain that does not parse blocks every later
  site edit, and such a domain gets in (`Stores.BrokenDomainBlocksSites`, `Stores.BrokenDomainIsStored`).
- An edit of the domain ports that could not be written is sure to be served all the same, if no port is refused,
  exactly when it asks for the ports the last Apply read, or some Apply has still to read (`Convergence.UnsavedEditIsServedExactly`).
- Listen conflicts are compared as text. They miss a `tcp+udp` forward that shares its address with a plain one
  and one address in two spellings, such as `:2222` and `0.0.0.0:2222`, and nothing else
  (`ForwardConflicts.StoredForwardsCanRun`). A rename in place is refused (`Stores.RenameInPlaceIsRefused`).
- A read error on a UDP listener's socket ends its forwarding for good, although the listener stays active and is
  reported as running (`UdpSessions.ReadErrorEndsForwarding`).
- No name the prefix pattern accepts is a reserved one, so the reserved names are never what refuses a route
  (`Validation.ReservedIsNeverReached`).
- A forward or DNAT edit can be overtaken by an older snapshot: exactly when, at its commit, somebody still
  carries a different list (`Convergence.EditTakesEffectExactly`).
- Of two forwards of one name, possible only in a hand-edited file, the first is started and the last is
  compared: a listener whose forward differs from the last of its name, or whose last one is disabled, is
  stopped by every Apply (`Forwarders.Forwarder.Apply`, `Forwarders.DuplicateNamesFlap`).
- SNAT belongs to the backend, not to the rule: a rule without it still loses the client's address if an
  enabled rule with it has the same protocol and backend (`DnatRuns.SourceIsReplacedExactly`).
- A DNAT rule reported as failed can be forwarding all the same (`DnatRuns.FailedRuleMayForward`).
- Saving a record as it is stored can change or refuse it: a target such as `[ a]:80` is stored with a leading
  space, which the next validation trims. It happens exactly to addresses that begin or end with a space
  (`Validation.ForwardSettlesExactly`, `Validation.RuleSettlesExactly`, `Validation.DomainSettlesExactly`).

## Model

| member | source | states |
|---|---|---|
| UdpRelay.StepInv | forward.go:202-285 | every action of every goroutine keeps the control, socket, WaitGroup, log and time invariants together |
| UdpRelay.ReachableInv | forward.go:202-285 | the five invariants hold after every interleaving from a fresh listener of any protocol |
| UdpRelay.StepSocketsTied | forward.go:219-223 | dialling, touching and dropping sessions keep mapped and open the same thing, one client per socket |
| UdpRelay.StepCount | forward.go:208-210 | each action changes the WaitGroup count by exactly the change in live goroutines |
| UdpShutdown.OpenIsMapped | forward.go:202-274 | open backend sockets are exactly those in the session map, no two sessions share one, and the WaitGroup count is the number of live counted goroutines |
| UdpShutdown.AddNeverRacesWait | forward.go:208-256 | Add is only called while the count is positive and before Wait has returned |
| UdpShutdown.NothingLeaks | forward.go:276-285 | when stop has returned no socket is open, no session mapped and no counted goroutine alive |
| UdpShutdown.ClientsNeverMix | forward.go:243-272 | a reply to a client was read from a socket on which only that client's datagrams were ever written, reaping and redialling included |
| UdpShutdown.DatagramsAreForwarded | forward.go:232-273 | the datagrams received are, one by one and in order, passed unchanged to a backend socket for their sender, lost to a failed dial, a failed write or a closed socket, or in hand |
| UdpSessions.NothingIsLostOtherwise | forward.go:232-273 | in every run without a failed dial, a failed write or a reaped session no datagram is lost |
| UdpSessions.FailedWriteLosesOne | forward.go:272 | a failed write loses its one datagram and nothing else |
| UdpSessions.DialsExactly | forward.go:244-256 | a client with a session is found and never dialled for again, one without is dialled for, with either outcome |
| UdpSessions.ReadErrorEndsForwarding | forward.go:231-242 | a read error can end the main loop at any time, and after it nothing is received or written in the rest of the run |
| UdpSessions.AcceptsExactly | forward.go:133-142 | a TCP listener takes connections exactly until an accept has failed or stop has closed its socket |
| UdpSessions.SessionIsDeafExactly | forward.go:257-267 | in every run a mapped session's socket is open, and somebody reads from it if and only if its worker has met no read error |
| UdpSessions.DeafIsSilent | forward.go:260-266 | once a worker has ended, the rest of the run holds no read from its socket and no reply from it |
| UdpSessions.DeafSessionIsReached | forward.go:243-273 | a run from a fresh listener into a mapped, open session that nobody reads from |
| UdpSessions.DeafIsKeptAlive | forward.go:243-273 | in every run each datagram of a client with a deaf session makes that session young again, which puts off its reaping, and is written to the same deaf socket |
| UdpSessions.DeafTakesNext | forward.go:232-273 | while the listener is idle such a datagram can always be taken, and ends on the deaf socket |
| UdpSessions.RepliesAreInOrder | forward.go:257-267 | on each socket, each datagram read is, before the next, replied once and unchanged, or found unsendable because the listener is closed |
| UdpSessions.OpenListenerReplies | forward.go:260-266 | while the listener is open no reply is held back, so every datagram read till then was sent to its client |
| UdpSessions.ClosedListenerIsSilent | forward.go:260-285 | once it is closed no reply is sent any more |
| UdpSessions.ReplyComesBack | forward.go:260-266 | whatever a backend answers on a live session's socket can be read and goes to that session's client |
| UdpSessions.SessionEndsExactly | forward.go:219-240 | a session ends only in the teardown, or in a sweep that finds it idle for more than 90 s |
| UdpSessions.SilentClientIsReaped | forward.go:209-228 | a run in which a client falls silent and its session is swept away after a little more than 90 s |
| UdpShutdown.ReapedSessionsWereIdle | forward.go:219-223 | every touch of a session lies more than 90 s before its reaping |
| UdpShutdown.IdleIsBounded | forward.go:219-223 | while the last finished sweep began at most T ago no mapped session is idle for longer than 90 s + T |
| UdpSessions.IdleOverRuns | forward.go:209-228 | in every run whose ticks are at most T apart and whose sweeps, waiting for the lock included, take at most D, no mapped session is idle for longer than 90 s + T + D |
| UdpShutdown.StoppingLasts | forward.go:276-285 | once stop waits it goes on waiting or returns, and at most one more session can appear, for a packet already read |
| UdpShutdown.OwnStepsLower | forward.go:202-285 | while stop waits each own step either lowers what is left to do or keeps it and lowers the delay before progress |
| UdpShutdown.StepTodo | forward.go:202-285 | while stop waits no step of anybody, from inside or outside, raises what is left to do, and each progress step lowers it |
| UdpShutdown.StepDelay | forward.go:209-267 | only a tick and a datagram from a backend raise the delay; each sweep step and each reply lowers it |
| UdpShutdown.SomeoneCanStep | forward.go:276-285 | while stop waits some goroutine can take a step of its own: no deadlock between mutex, quit channel and WaitGroup |
| UdpShutdown.ProgressComes | forward.go:202-285 | from wherever stop waits, a progress step is enabled after a bounded number of sweep steps and replies |
| UdpShutdown.StopReachesItsWait | forward.go:276-284 | stop gets to its wait unaided, with both listening sockets closed |
| UdpShutdown.StopCanReturn | forward.go:276-285 | from its wait stop can always be brought to return |
| UdpShutdown.RunAccount | forward.go:202-285 | over a whole run progress is paid for by what was left to do, and repeated steps by the delay, ticks and backend datagrams |
| UdpShutdown.ShutdownCompletes | forward.go:276-285 | after stop starts to wait every interleaving holds a bounded number of progress steps, whatever arrives; sweep steps and replies are bounded by ticks and backend datagrams; and when nothing is left to do, or no own step is, stop has returned with everything closed |
| Sockets.SocketTable.Bind | forward.go:121-126 | a bind succeeds exactly if the address clashes with nothing held or foreign on its protocol and is not refused |
| Forwarders.FwdListener.BeginTCP | forward.go:121-131 | opens the TCP socket or holds nothing |
| Forwarders.FwdListener.BeginUDP | forward.go:186-200 | fails without binding when the target does not resolve, otherwise opens the UDP socket or holds nothing |
| Forwarders.FwdListener.Stop | forward.go:276-285 | closes exactly the sockets held, whichever of the two are open, and may be called once |
| Forwarders.StartListener | forward.go:102-117 | a listener with all the sockets its protocol asks for, or none and the table unchanged, even when only the second bind failed |
| Forwarders.WantOf | forward.go:35-38 | the list looked up by name, the last of several forwards of one name winning |
| Forwarders.LastOfAt | forward.go:35-38 | the entry of a name is its last forward in the list |
| Forwarders.SameConfigExactly | forward.go:42 | a listener is right for a forward exactly if the two differ at most in name, notes and being enabled |
| Forwarders.SocketsExactly | forward.go:104-115 | tcp+udp asks for both sockets, udp for one, anything else, the empty protocol too, for TCP |
| Forwarders.SatisfiableIsStartable | forward.go:58-65 | if the desired sockets fit together, a missing forward can always be started once the stale listeners are gone |
| Forwarders.KeptFacts | forward.go:40-46 | what survives the stop loop is asked for, and when every listener is wanted all of them survive |
| Forwarders.Forwarder.StopStale | forward.go:40-46 | stops exactly the listeners whose forward is gone, disabled or changed |
| Forwarders.Forwarder.StartMissing | forward.go:48-67 | goes through the forwards in order, never stopping anything; what then does not run was refused for a reason that holds, and the statuses say so |
| Forwarders.Forwarder.Apply | forward.go:31-68 | for every list: a listener survives exactly if the last forward of its name is enabled and has its protocol, listen address, target and PROXY setting; everything that runs has these four of an enabled forward of its name; what does not run was refused for a reason that holds; each status is right about the last forward of its name; the sockets held are the disjoint union of the active listeners'; satisfiable forwards all come up from any earlier state; nothing to do means no socket call |
| Forwarders.DistinctAreSettled | forward.go:49-66 | with distinct names each forward then runs as configured, is disabled, or has failed for a reason that holds |
| Forwarders.Forwarder.Shutdown | forward.go:82-89 | no listener and no socket is left |
| Forwarders.DuplicateNamesFlap | forward.go:35-66 | with two differing forwards of one name, a listener that runs just as asked for is stopped by every Apply, and the status is about the last |
| Forwarders.FlapIsReached | forward.go:31-68 | from an empty forwarder, one Apply starts the first of two such forwards and an Apply of both stops it |
| Forwarders.Reassign | forward.go:39-66 | one Apply carries out any reassignment, address swaps and cycles included, and a second makes no socket call |
| ForwardConflicts.TextCheckSufficesExactly | config.go:552-558 | stored forwards want one and the same socket twice if and only if an enabled tcp+udp forward shares its listen text with an enabled plain one |
| ForwardConflicts.StoredForwardsCanRun | config.go:552-558 | whatever addresses the system takes to clash, stored forwards that could each run alone can all run at once if and only if no such pair and no two clashing spellings on one protocol are enabled |
| ForwardConflicts.SpellingsAreMissed | config.go:554 | ":2222" and "0.0.0.0:2222" are both accepted and cannot run together |
| ForwardConflicts.MixedPairsAreMissed | config.go:554 | a tcp+udp and a tcp forward on ":2222" are both accepted and cannot run together |
| ForwardConflicts.PairIsStored | config.go:541-590 | two additions to an empty store succeed and leave either pair in memory and in the file |
| DomainRouters.StartPort | domains.go:258-262 | a server on the port, or nothing if the port cannot be bound |
| DomainRouters.DomainRouter.DesiredExactly | domains.go:233-238 | the ports wanted are those of enabled forwards other than the main and the HTTP port |
| DomainRouters.DomainRouter.StopUnwanted | domains.go:239-244 | exactly the wanted ports among those served stay, with the same servers |
| DomainRouters.DomainRouter.StartWanted | domains.go:245-255 | exactly the wanted ports the system does not refuse are added |
| DomainRouters.DomainRouter.Apply | domains.go:230-256 | the ports served are the indexed ports but for the main and HTTP port, less those refused; kept ports keep their server; nothing to do means no socket call |
| DomainRouters.DomainRouter.Shutdown | domains.go:306-313 | no port is served or held |
| Convergence.MoveKeepsInv | config.go:803-845 | each move keeps the invariant that an index other than the one the last Apply read has an Apply pending |
| Convergence.RouterConverges | domains.go:230-256 | under every interleaving of edits, when none is on its way and no failed write is outstanding, exactly the extra ports of the last edit are served, less those refused |
| Convergence.EditIsServed | config.go:803-808 | from any quiet state an edit can be made and brought to its end, and its ports are then served |
| Convergence.SomebodyMoves | domains.go:230-256 | while an edit is on its way some thread can move on: no deadlock between the store and the router |
| Convergence.QuietComes | domains.go:230-256 | once nobody edits any more, all Applies are over after exactly the moves that are left |
| Convergence.UnsavedEditIsNotServed | config.go:803-806 | a run in which a failed write leaves an indexed port unserved, because nobody is told |
| Convergence.UnsavedEditIsServedExactly | config.go:803-806 | with nothing refused, an edit that could not be written is sure to be served all the same if and only if it asks for the ports the last Apply read, or some Apply has still to read |
| Convergence.EditTakesEffectExactly | config.go:619-628 | an edit is sure to end up applied if and only if, when it commits, nobody carries a snapshot of a different list |
| Convergence.OlderSnapshotWins | config.go:619-628 | a run of two threads that ends with the older list applied |
| Convergence.UnsavedEditTakesEffectExactly | config.go:583-588 | a forward or DNAT edit that could not be written is sure to be applied all the same if and only if every carried snapshot is that list and, with nobody on the way, it is the one applied last |
| Dnat.NatTable.Run | dnat.go:147-154 | a command works exactly if the kernel can carry it out and does not refuse it; checks are truthful |
| Dnat.DNATManager.EnsureJump | dnat.go:119-125 | on success the jump is there, on failure nothing has changed, and no other chain is touched |
| Dnat.DNATManager.EnsureScaffolding | dnat.go:105-115 | on success both hooks are there; it stops at the first that fails and touches no foreign chain |
| Dnat.DNATManager.ApplyRule | dnat.go:83-101 | on success the redirection, and with SNAT the masquerade, is there; it stops at the first failure and touches only the own chains |
| Dnat.DNATManager.Apply | dnat.go:42-78 | the kernel and a status for every rule after one Apply, none of them active on the scaffolding error path, with every other chain untouched |
| Dnat.AllFailedAt | dnat.go:47-58 | on that path the last rule of a name decides: failed if enabled, else disabled |
| Dnat.DNATManager.Shutdown | dnat.go:129-134 | each own chain is empty unless its flush fails; the hooks and all other chains stay |
| DnatRuns.RuleAddedAppends | dnat.go:83-101 | whichever commands fail, a rule only appends to the two own chains, and succeeds exactly if all its commands did |
| DnatRuns.FailedRuleMayForward | dnat.go:83-101 | a failed rule forwards if and only if its redirection was accepted and its masquerading was not |
| DnatRuns.FailedRuleForwards | dnat.go:83-101 | a rule whose masquerade is refused: it is reported as failed and its packets are redirected |
| DnatRuns.StatusExactly | dnat.go:64-77 | the status of a name is that of its last rule, active if and only if every command of that rule worked |
| DnatRuns.JumpedHooks | dnat.go:119-125 | afterwards exactly one jump leads to the chain and nothing else in the parent has moved |
| DnatRuns.ScaffoldedHooks | dnat.go:105-115 | both chains exist and are hooked once, a new PREROUTING hook comes first and a new POSTROUTING hook last, and everything foreign is untouched |
| DnatRuns.ApplyRebuilds | dnat.go:42-78 | the own chains are exactly the enabled rules in order, each is reached by one jump, and every foreign rule and chain is in place and in order |
| DnatRuns.RunKeepsForeign | dnat.go:42-134 | any run of Apply and Shutdown leaves foreign rules alone and the kernel ready for the next |
| DnatRuns.RunEndsWith | dnat.go:42-134 | the own chains depend only on the last operation of a run |
| DnatRuns.ChainIsLookup | config.go:653-658 | with unique (proto, port), first match in the chain is a lookup in the rule list for every packet |
| DnatRuns.SourceIsReplacedExactly | dnat.go:90-99 | traffic to a backend is masqueraded if and only if some enabled SNAT rule has that protocol and backend, whichever rule forwarded it |
| DnatRuns.SourceIsLostBesideSnat | dnat.go:90-99 | two rules the store accepts, of which the one without SNAT has its traffic masqueraded |
| KeyedLists.UpsertKeepsUnique | config.go:545-582 | an accepted upsert keeps keys unique and clashing records apart, and the record is there |
| KeyedLists.UpsertChangesOne | config.go:559-577 | an accepted addition comes last and an accepted update replaces its one record in place; every other record stays where it is |
| KeyedLists.UpsertOutcomeExactly | config.go:545-582 | an upsert is accepted, or gets each of its refusals, if and only if the records say so: a clash, a key already there, an old key not there |
| KeyedLists.EditsKeepUnique | config.go:541-616 | every run of upserts and deletes does, a refused edit changing nothing |
| KeyedLists.EditsOneByOne | config.go:541-616 | the next edit of a run works on what the earlier ones left, and changes nothing if refused |
| KeyedLists.EditsKeepAll | config.go:541-616 | what holds of every record put holds of every record stored |
| KeyedLists.Compact | config.go:595-603 | the in-place compaction is the order-preserving filter, and changes no element if nothing matches |
| KeyedLists.KeyedList.Snapshot | config.go:532-538 | a fresh copy of the list |
| KeyedLists.KeyedList.Upsert | config.go:545-582 | add at the end, replace the one record in place and leave all others, or refuse with the list untouched |
| KeyedLists.KeyedList.Delete | config.go:593-608 | the filtered list in the same array, or a refusal with the array untouched |
| KeyedLists.SnapshotSurvives | config.go:532-616 | a list handed out earlier is disturbed by no later upsert or deletion, whatever its outcome |
| Validation.CheckAll | config.go:358-371 | the loop with the seen map accepts exactly lists of good items with distinct keys |
| Validation.ValidateSite | config.go:352-373 | exactly if host, routes and distinct prefixes pass, the site with host, prefixes, targets and notes normalized and every other field kept |
| Validation.SiteSettles | config.go:352-373 | validating a validated site accepts it unchanged |
| Validation.GoodRoutesAreValid | config.go:361-370 | accepted prefixes contain no slash and are distinct |
| Validation.TrimExactly | config.go:361-363 | trimming takes off what is to be dropped at both ends and nothing else |
| Validation.PatternByExample | config.go:113 | prefixes and names the pattern accepts and refuses |
| Validation.ReservedIsNeverReached | config.go:113-116 | no name the pattern accepts is reserved, so that check never refuses anything |
| Decisions.HealthHidesNoRoute | main.go:81-85 | the health path is never one that a validated route asks for |
| Validation.NormalizeForward | config.go:859-883 | the steps of the loop body clear the TLS settings that do not apply |
| Validation.ValidateDomain | config.go:848-886 | exactly if host, ports, targets and distinct ports pass, the domain with the TLS settings that do not apply cleared and every other field kept |
| Validation.DomainSettlesExactly | config.go:848-886 | a validated domain is validated to itself if and only if none of its targets begins or ends with a space |
| Validation.ValidatedForwardsAreConsistent | config.go:864-883 | port 80 is plain, passthrough carries no backend TLS settings, ports are distinct |
| Validation.ValidForward | config.go:889-913 | an accepted forward has a safe name and one of three protocols, keeps its flags, and wants a socket |
| Validation.ValidateForward | config.go:889-926 | exactly if name, protocol, listen address and target pass, the forward with these normalized, an empty protocol read as tcp, and every other field kept |
| Validation.ListensExactly | config.go:917-926 | a bare port stands for all interfaces, an address for itself, and an empty text is refused |
| Validation.ForwardSettlesExactly | config.go:889-943 | a validated forward is given back if and only if neither of its addresses begins or ends with a space |
| Validation.ValidRule | config.go:731-750 | an accepted rule has a safe name, tcp or udp, and a port from 1 to 65535 |
| Validation.ValidateDNAT | config.go:731-750 | exactly if name, protocol, port and target pass, the rule with name, protocol and target normalized and every other field kept |
| Validation.RuleSettlesExactly | config.go:731-750 | a validated rule is given back if and only if its target does not begin or end with a space |
| Validation.BracketedTargetChanges | config.go:930-943 | the target "[ a]:80" is stored as " a:80", which a second validation turns into "a:80" |
| Validation.BracketedTargetIsRefused | config.go:930-943 | the target "[ ]:80" is stored as " :80", which a second validation refuses |
| RouteIndex.SortedSorts | config.go:424-427 | the sort is a permutation, longest prefix first, configured order among equals |
| RouteIndex.IndexAgreesWithList | config.go:270-282 | the first match in the sorted enabled routes is the longest enabled match of the configured list, ties to the earliest, and none if none matches |
| RouteIndex.BestIsUnique | config.go:270-282 | that answer is unique |
| RouteIndex.SegmentDecides | config.go:276-277 | a prefix without slash matches if and only if it is the first segment of the path |
| RouteIndex.AtMostOneMatches | config.go:352-373 | of validated routes at most one matches a path |
| RouteIndex.SegmentRoutes | config.go:270-282 | paths with the same first segment get the same answer |
| RouteIndex.MatchSiteIsPlainSearch | config.go:270-282 | the indexed lookup is the plain search of the configured sites, for all hosts and paths |
| RouteIndex.MatchDomainIsPlainSearch | config.go:465-474 | the indexed lookup is the plain search of the configured domains, for all hosts and ports |
| RouteIndex.LowerExactly | config.go:273 | lower-casing turns capital letters into small ones and keeps everything else |
| RouteIndex.BuildsExactly | config.go:434-453 | which address must parse: none for a disabled or passed-through forward, http on port 80, http or https elsewhere as the backend setting says |
| RouteIndex.PortsAreEnabledPorts | config.go:493-502 | the indexed ports are the ports of enabled forwards |
| RouteIndex.TerminateHostIsPlainSearch | config.go:479-489 | holds exactly for hosts with an enabled terminating forward |
| Stores.CompileRoutes | config.go:409-427 | the sorted enabled routes, or an error exactly if an enabled target does not parse |
| Stores.CompileSites | config.go:407-430 | the whole site index, or an error |
| Stores.CompileForwards | config.go:434-458 | one domain's forwards on top of those before, or an error |
| Stores.CompileDomains | config.go:432-461 | the whole domain index, or an error |
| Stores.Store.constructor | config.go:136-160 | on the first start the store is empty, valid, written and in sync |
| Stores.Store.RecompileLocked | config.go:406-462 | both indexes are rebuilt; a domain error leaves the new site index beside the old domain index; the indexes are those of the lists if and only if the lists can be compiled |
| Stores.Store.PersistLocked | config.go:504-527 | the file becomes the lists in memory, or stays |
| Stores.Store.CommitLocked | config.go:399-404 | in sync if and only if the lists compile; written only if everything worked; if compiling fails the domain index is the old one, and the site index the new one exactly if the sites compiled |
| Stores.Recompiled | config.go:406-462 | whatever was indexed before, compiling as far as it gets leaves indexes that agree with the lists exactly if the lists compile |
| Stores.SitesParseExactly | config.go:407-430 | a site index holds only parsing targets if and only if its list can be compiled |
| Stores.DomainsParseExactly | config.go:432-461 | the same for the domain index |
| Stores.Store.UpsertSite | config.go:295-329 | the edited list, which of five outcomes occurs and when, and what memory, both indexes and the file then hold; refusals change nothing; while the stored sites compile the domain index never changes |
| Stores.Store.DeleteSite | config.go:332-349 | the same for a deletion, in the same array |
| Stores.Store.UpsertDomain | config.go:768-810 | the same for domains; the listener is fired exactly on success |
| Stores.Store.DeleteDomain | config.go:813-836 | the same for a deletion, in the same array |
| Stores.Store.UpsertForward | config.go:541-590 | the same for forwards, which have no index; fired exactly on success |
| Stores.ForwardOutcomeExactly | config.go:545-582 | a forward is refused for its address exactly if another name has the same protocol and listen text, and otherwise accepted as the names demand |
| Stores.Store.DeleteForward | config.go:593-616 | the same for a deletion, in the same array |
| Stores.Store.UpsertDNAT | config.go:642-691 | the same for DNAT rules |
| Stores.RuleOutcomeExactly | config.go:646-683 | a rule is refused for its port exactly if another name has the same protocol and port, and otherwise accepted as the names demand |
| Stores.Store.DeleteDNAT | config.go:694-717 | the same for a deletion, in the same array |
| Stores.Store.MatchSite | config.go:270-282 | after a successful commit the loop returns the plain search's answer |
| Stores.Store.IsTerminateHost | config.go:479-489 | the loop decides whether some indexed port terminates the host |
| Stores.BrokenDomainBlocksSites | config.go:434-453 | while a stored domain does not build, every site addition, update and deletion fails, the file and the domain index stay as they were and the store is out of sync |
| Stores.BrokenDomainIsStored | config.go:768-806 | a run from an empty store: a domain with target h:+80 passes validation, fails to compile, is kept in memory, and blocks the next site edit |
| Stores.CommittedLookupsAgree | config.go:399-404 | after a successful commit both lookups are plain searches of the lists in memory |
| Stores.AddThenDelete | config.go:593-608 | deleting what was just added gives the old list back in order |
| Stores.RetryIsAcceptedExactly | config.go:541-616 | an upsert or deletion that reached memory is accepted again if and only if it updates a record under its own key |
| Stores.RenameInPlaceIsRefused | config.go:552-558 | a new name on an unchanged listen address is refused |
| Decisions.ServedHostsHaveCertificates | main.go:80-121 | every host the HTTPS handler serves passes the certificate policy |
| Decisions.PolicyExactly | main.go:115-120 | the policy admits exactly the main host, the sites, and domains with an enabled terminating forward |
| Decisions.HandlerExactly | main.go:80-98 | a site's best route wins, the domain answers only if no route matches and it terminates on the main port, and the health path is nobody's |
| Decisions.MainPortExactly | main.go:181-186 | the main port passes to a backend exactly if such a passthrough forward is configured there |
| Decisions.MatchedHasProxy | config.go:439-453 | a matched forward has a proxy exactly if it is on port 80 or terminates |
| Decisions.PassthroughIsNotTerminated | main.go:181-186 | a host the main port passes through is never also answered by its domain proxy |
| Decisions.ExtraPortExactly | domains.go:263-275 | an extra port passes to a backend, terminates or drops exactly according to the forward configured for the host and the certificate source |
| Decisions.AcceptedIsServed | domains.go:277-283 | what an extra port terminates is then served, by the forward configured there |
| Decisions.PlainPortExactly | main.go:207-213 | the plain HTTP port proxies exactly the hosts with an enabled forward on it that is on port 80 or terminates |
| Decisions.ValidatedEditsStayUnique | config.go:768-836 | after any run of validated edits hosts are unique up to case and ports unique per domain |
| Decisions.ValidatedSitesMatchOnce | config.go:295-349 | after any run of validated edits hosts are unique and each site's prefixes distinct and without slash |
| Decisions.ValidatedSitesBuild | config.go:382-396 | after any run of validated site edits every site compiles, since the same parse decides both times |
| SniPeek.PeekConn.Read | domains.go:69-75 | one read of the connection, recorded and still accounted for |
| SniPeek.PrefixConn.Read | domains.go:86-92 | the recorded bytes first, as many as asked for and without touching the connection, then one read of the connection each |
| SniPeek.PeekClientHelloSNI | domains.go:97-106 | the peek goes on until the library wants no more, a read has failed or its patience is used up; the recorded bytes are exactly those consumed, for any chunking, the name is what the library finds in them, and nothing is written to the client |
| SniPeek.ReadAll | domains.go:86-92 | any sequence of buffer sizes reads the same bytes, and none of the recorded ones is held back |
| SniPeek.PeekThenServe | domains.go:136-153 | the consumer of an accepted connection sees the client's stream from its first byte, and the client has been sent nothing |
| SniListener.ConnectionsAreConserved | domains.go:119-167 | each accepted connection is in exactly one place, none is delivered twice, and the done channel is closed at most once |
| SniListener.VerdictsAreFollowed | domains.go:136-153 | every step keeps each connection where its verdict allows it to be |
| SniListener.ReachableFollows | domains.go:136-153 | a dropped connection is closed, a passed-through one is spliced until it is closed, and an accepted one is parked or delivered, or closed after done |
| SniListener.PlacesExactly | domains.go:125-167 | in every run a connection is closed exactly if it was dropped, its splice ended or its handler gave up, and delivered exactly if it was handed over; the inner listener is closed exactly by Close, and done by Close or the end of the loop |
| SniListener.OpenListenerServes | domains.go:146-162 | while done is open no Accept fails and no handler gives up |
| SniListener.ParkedCanBeDelivered | domains.go:146-162 | a parked connection and a waiting caller can always meet |
| SniListener.ConnectionIsServed | domains.go:125-162 | a run from accepting a connection to handing it over |
| SniListener.NothingIsLost | domains.go:119-167 | connections accepted are those delivered, closed or still worked on |
| SniListener.OwnStepsAreBounded | domains.go:125-167 | after Close the listener's own steps are bounded by the work left and the calls from outside |
| SniListener.CloseDrains | domains.go:125-167 | after Close every handler finishes and every caller of Accept is answered, in any interleaving |
| Relay.StepInv | domains.go:173-205 | every step keeps what was delivered and is in hand equal to header, replayed bytes and stream read so far |
| Relay.DeliveredIsPrefix | domains.go:173-205 | the backend has received a prefix of header, replayed bytes and the client's later bytes, the client a prefix of the backend's, in every interleaving |
| Relay.CleanEndDeliversAll | forward.go:163-175 | without errors both directions have arrived in full before anything is closed |
| Relay.HalfCloseKeepsOther | domains.go:193-204 | the end of one direction closes nothing and never blocks the other |
| Relay.OtherSideUntouched | domains.go:193-204 | no step of one direction changes the other, or closes anything |
| Relay.CleanExactly | domains.go:173-205 | a run is clean if and only if no dial, write or copy in it failed |
| Relay.SentIsDelivered | domains.go:193-200 | what a peer sends in a direction still copied can be brought across |
| Relay.EndIsDelivered | domains.go:193-200 | and so can its end, as a half-close |
| Relay.RelayCanFinish | domains.go:193-204 | once both ends have nothing more to send, a relay under way can come to a clean end |
| Passthrough.SpliceAfterPeek | domains.go:136-205 | however the ClientHello arrives and whatever the interleaving afterwards, the backend receives the PROXY header, if any, and the client's stream from its first byte, all of it if nothing fails, and a receiver of the header reads both endpoints and then exactly that stream |
| ProxyProtocol.ProxyProtoV2Header | domains.go:37-57 | no header exactly for addresses that are not TCP, and otherwise, for usable addresses, bytes that decode to both endpoints |
| ProxyProtocol.HeaderRoundTrip | domains.go:37-57 | an independent decoder gets back both endpoints, 28 or 52 bytes are taken, and the payload is intact |
| ProxyProtocol.FormsExactly | domains.go:45-53 | the four- and sixteen-byte forms of an address, byte by byte |
| ProxyProtocol.HeaderDecodesExactly | domains.go:43-54 | the header decodes if and only if both IPs are 4 or 16 bytes long |
| Limiter.StepInv | proxy.go:124-135 | each action keeps the tokens of each generation equal to the requests it serves |
| Limiter.RequestsMoveExactly | proxy.go:124-135 | a request waits if it finds a limit and is served at once otherwise, by the generation it found, and is gone when cancelled or finished |
| Limiter.LimitHoldsPerGeneration | proxy.go:124-135 | a limited generation has the limit it was configured with, holds one token per request it serves, and has all slots back once drained |
| Limiter.LimitsAreConfigured | config.go:418-421 | in every run each generation is limited exactly if its configured number is positive, and then serves at most so many requests at once |
| Limiter.ReleaseNeverBlocks | proxy.go:128 | giving a slot back never blocks, after any number of reloads |
| Limiter.LimitHoldsOnceDrained | config.go:418-421 | once earlier generations have drained, the route serves at most the number it is configured with |
| Limiter.WaitingIsForSomebody | proxy.go:126-132 | a waiting request can give up, and can enter or is waiting for one of its own generation that can finish |
| Limiter.LimitHoldsExactly | config.go:418-421 | until the next reload the whole route is sure to keep its configured number if and only if nobody under way arrived before the last one |
| Limiter.ReloadLeavesOneTooMany | config.go:418-421 | a run with a limit of one, a request under way and a reload, after which two requests can be served at once |
| PathRewrite.Direct | proxy.go:38-45 | for a path MatchSite accepts, the backend path is the target path without its final slash, then the whole path or what is left of it |
| PathRewrite.JoinHasOneSlash | proxy.go:138-151 | at the seam stands the slash that starts the second part, or one put there for it, and a slash ending the first part is not repeated; an empty first part adds nothing |
| PathRewrite.StripIsClean | proxy.go:38-44 | for a path MatchSite accepts, stripping leaves nothing or a path |
| PathRewrite.RewriteJoinsOnce | proxy.go:38-45 | the backend path is target path, one slash, and the remainder |
| PathRewrite.RewriteIsInjective | proxy.go:38-45 | two accepted paths are rewritten alike if and only if they are equal or are /p and /p/ with the prefix stripped |
| PathRewrite.StripCutsExactly | config.go:276-277 | stripping a textual prefix keeps segments whole if and only if MatchSite's condition holds |

## Left out

- Dnat.NatTable.Run: one command at a time on chains that only this process changes during a call; several jumps to an own chain at the start are not covered by the lemmas about runs.
- Sockets.SocketTable.Bind: what the environment refuses is fixed during one call; the process's other sockets count as foreign.
- Validation.ValidateSite: case folding and trimming are ASCII only; a refused edit may have trimmed strings in the caller's own route list, which is not modelled.
- Validation.ValidateDomain: case folding and trimming are ASCII only.
- Stores.Store.constructor: loading and migrating an existing file is not modelled, only the first start.
- Validation.ForwardSettlesExactly: host:port normalization is a parameter; that its results are fixed points with a colon is assumed of it (`Normalizes`), here and for domains and rules.
- Library calls: host patterns, host:port normalization, url.Parse, the TLS handshake, the stable sort, JSON and file writing are parameters or plain functions.
- The five concurrent systems (UDP relay, SNI listener, relay, limiter, edits) are step systems on values; Go's scheduler and memory model are not modelled beyond interleaving.
- The relay's connections are not counted by the listener's WaitGroup, as in the program, so nothing is said about them after stop.
- A UDP datagram counts as written when the write to its socket succeeds; truncation at 65535 bytes and delivery on the network are not modelled. The 30 s ticker is an event that may come at any time.
- The sorted result of DomainPorts is modelled as a set, since the only caller makes a set of it.
- The HTTP and TLS servers behind a port, hop-by-hop headers, error messages, logging and Status snapshots.
- Administration pages, authentication, certificates, environment parsing and signal handling.
