# mdnsserve configuration loader, in Dafny

mdnsserve reads a YAML file that maps mDNS group names to lists of
services, validates each entry and registers the groups and services with
mdnsd through the mdns client library. This project models that
configuration compiler and the small helpers it depends on:

- `Yaml` (yaml.dfy): libyaml's node table (1-based node indices; an index
  outside the table yields no node) and the parser as a class whose state is
  the stream of documents still to be loaded.
- `Libc` (libc.dfy): `strtonum` with its three errors and BSD `inet_pton`
  for IPv4 as character-by-character scanners.
- `Mdns` (mdns.dfy): the service descriptor, the library calls, the
  diagnostic lines, the causes of a fatal exit, the session and the log.
  Each library call succeeds or fails as decided by a `Library`, a function
  of the whole call history; the lemmas hold for every such function, except
  the worked configurations in `Scenarios`, which use a library that
  accepts every call.
- `ServiceCompiler` (service.dfy): `add_service`. `Compile` gives the verdict
  on one item (fatal, skip with a warning, or accept a descriptor),
  `ServiceEffect` what handling that verdict adds to the trace, and the
  imperative `AddService` is proved to have exactly that effect. A
  declarative reading of an entry (`AllPairsOk`, `LastValue`, `Describes`)
  characterises the accepted descriptors.
- `GroupCompiler` (group.dfy): `add_group`, in the same three layers.
- `DocumentLoader` (loader.dfy): the document loop of `main`.
- `GroupHook` (hook.dfy): `mdnsserve_group_hook`.
- `Compat` (compat.dfy): `timespeccmp`, `timespecsub` (a method writing the
  fields of a `Timespec` object in place) and `LINK_STATE_IS_UP`.
- `Ports` (ports.dfy): port texts at and beyond the edges of the range
  `add_service` accepts.
- `Scenarios` (scenarios.dfy): whole runs on small configurations.

Everything observable is a `Trace`: the library calls made, the diagnostic
lines written and the fatal exit, after which nothing more happens. `add_group`
refuses group names of `MAXHOSTNAMELEN` (256, mdnsd.h:26-28) bytes or more,
so names have 1 to 255 bytes.
`LINK_STATE_UP` is 4, its value in OpenBSD's `<net/if.h>`.

## Model

| member | source | states |
|---|---|---|
| Libc.StrToNum | mdnsserve/mdnsserve.c:280-289 | strtonum(value, 0, UINT16_MAX): a number it accepts lies within the bounds |
| Libc.StrToNumOfDigits | mdnsserve/mdnsserve.c:280-289 | a plain run of digits is read as its decimal value and then range-checked |
| Libc.StrToNumOfDecimal | mdnsserve/mdnsserve.c:280-289 | the decimal text of a number in range parses back to it; above the upper bound it is "too large" |
| Libc.StrToNumShape | mdnsserve/mdnsserve.c:280-289 | an accepted port text ends in a non-empty run of decimal digits |
| Libc.PtonOfFormat | mdnsserve/mdnsserve.c:271-279 | inet_pton accepts the dotted-quad text of every IPv4 address and yields that address |
| ServiceCompiler.PortPairStep | mdnsserve/mdnsserve.c:280-289 | a "port" pair whose value strtonum accepts as n sets the port to n and lets the pass go on |
| ServiceCompiler.ScanPairs | mdnsserve/mdnsserve.c:236-292 | a pass over the pairs that stops never accepts the item and never blames a missing item |
| ServiceCompiler.Compile | mdnsserve/mdnsserve.c:217-313 | the verdict blames a missing item exactly when the item index led nowhere; a non-mapping item is skipped |
| ServiceCompiler.ServiceEffect | mdnsserve/mdnsserve.c:217-341 | fatal exactly for an unreadable node; otherwise exactly one line, about this item and its verdict (the skip with its fault; for an accepted item the "added" notice or the refused initialisation or addition); calls only for this group and only for an accepted item: its initialisation, then its addition with the same descriptor only if the initialisation succeeded; the "added" line exactly when both calls succeed |
| ServiceCompiler.AddService | mdnsserve/mdnsserve.c:217-341 | the function's calls, lines and exit are exactly those ServiceEffect derives from the verdict |
| ServiceCompiler.RegisterService | mdnsserve/mdnsserve.c:294-341 | the checks after the pass and the two library calls have exactly the effect ServiceEffect derives from Finish's verdict on the slots |
| ServiceCompiler.ScanAllOk | mdnsserve/mdnsserve.c:265-291 | when every pair passes, each slot ends with the value of the last pair with its key; unknown keys change nothing |
| ServiceCompiler.ScanNextOk | mdnsserve/mdnsserve.c:236-292 | a pass that does not stop read only pairs that pass every check |
| ServiceCompiler.AcceptedIff | mdnsserve/mdnsserve.c:236-325 | an item is accepted with descriptor svc if and only if all its pairs pass and svc is the service they describe (last value per key, port 0 and empty text by default, host exactly with both name and address) |
| ServiceCompiler.FinishDescribes | mdnsserve/mdnsserve.c:294-316 | the checks after the pass accept exactly the described service |
| ServiceCompiler.AcceptedNamesNonEmpty | mdnsserve/mdnsserve.c:251-270 | an accepted descriptor has a non-empty service name, and a non-empty host name when it has a host |
| ServiceCompiler.MissingServiceRejected | mdnsserve/mdnsserve.c:294-299 | without a service key the item is never accepted, and is skipped for that reason when its pairs pass |
| ServiceCompiler.BadProtocolRejected | mdnsserve/mdnsserve.c:301-306 | a protocol other than exactly "tcp" or "udp", or none, is never accepted |
| ServiceCompiler.HostWithoutAddressRejected | mdnsserve/mdnsserve.c:308-313 | exactly one of host name and address is never accepted |
| ServiceCompiler.FailingPairStops | mdnsserve/mdnsserve.c:241-289 | a pair that fails a check stops the pass with the verdict of the first check it fails, in source order: a key index leading nowhere is fatal, then a value index leading nowhere is fatal, then a non-scalar key, a non-scalar value, a bad address, a bad port with strtonum's error |
| ServiceCompiler.StopIsFinal | mdnsserve/mdnsserve.c:236-292 | once the pass has stopped, later pairs change nothing |
| ServiceCompiler.FirstBadPairDecides | mdnsserve/mdnsserve.c:236-292 | the first failing pair decides the verdict, as FailingPairStops states it; the pairs after it are not examined |
| GroupCompiler.ItemsEffect | mdnsserve/mdnsserve.c:210-211 | the items add only service calls for this group, and one line per item when none is fatal |
| GroupCompiler.GroupEffect | mdnsserve/mdnsserve.c:173-215 | only group calls are added; a key index leading nowhere is fatal, then a value index leading nowhere, with nothing else added; an entry that is not admitted adds one line, no call and no exit |
| GroupCompiler.AddItems | mdnsserve/mdnsserve.c:210-211 | the loop over the group's items, numbered from 1, has exactly ItemsEffect's calls, lines and exit |
| GroupCompiler.AddGroup | mdnsserve/mdnsserve.c:173-215 | the function's calls, lines and exit are exactly GroupEffect's |
| GroupCompiler.OneLinePerItem | mdnsserve/mdnsserve.c:210-211 | items are handled in order: line k is about items[k], numbered first + k, and reports what that item's verdict led to |
| GroupCompiler.SkippedItemsCallNothing | mdnsserve/mdnsserve.c:210-211 | items that are all skipped make no call and are never fatal |
| GroupCompiler.DefinedOnlyIfAdmitted | mdnsserve/mdnsserve.c:184-207 | a group makes calls only if its name is a scalar of 1 to 255 bytes and its value a sequence, and then the definition comes first |
| GroupCompiler.GroupCallOrder | mdnsserve/mdnsserve.c:207-214 | a group that is not fatal: definition first, commit last, only its own service calls between, line k about items[k], numbered k + 1, reporting what its verdict led to |
| GroupCompiler.CommitEvenIfAllSkipped | mdnsserve/mdnsserve.c:207-214 | when every item is skipped the calls are exactly the definition and the commit, and the group is fatal with a commit failure exactly when the commit is refused |
| GroupCompiler.DefineRefusedIsFatal | mdnsserve/mdnsserve.c:207-208 | a refused definition is fatal with no item attempted |
| GroupCompiler.CommitRefusedIsFatal | mdnsserve/mdnsserve.c:207-214 | once the definition is accepted and no item is fatal, the commit is the last call and the group is fatal, with a commit failure, exactly when the commit is refused |
| GroupCompiler.CommitFailureFollowsRefusedCommit | mdnsserve/mdnsserve.c:213-214 | a commit failure is reported only after a refused commit that is the last call |
| GroupCompiler.GroupFatalCauses | mdnsserve/mdnsserve.c:175-214 | a group is fatal only through a node lookup, its definition or its commit, never through a refused service |
| GroupCompiler.ItemsFatalCauses | mdnsserve/mdnsserve.c:210-211 | items are fatal only through a missing node |
| DocumentLoader.OpenEffect | mdnsserve/mdnsserve.c:108-120 | the open comes first; a refused open is fatal; otherwise the hook is registered and the connection noted |
| DocumentLoader.PairsEffect | mdnsserve/mdnsserve.c:122-123 | the entries of a root mapping extend the trace; nothing happens after a fatal exit |
| DocumentLoader.PairsEffectSnoc | mdnsserve/mdnsserve.c:122-123 | the entries of a root mapping go to add_group one after the other, in order: the entry after the first n is handled by GroupEffect with index first + n, on the trace the first n left |
| DocumentLoader.Run | mdnsserve/mdnsserve.c:92-126 | the document loop extends the trace; nothing happens after a fatal exit |
| DocumentLoader.AddGroups | mdnsserve/mdnsserve.c:122-123 | the loop over one root mapping has exactly PairsEffect's effect, entries numbered from 1 |
| DocumentLoader.LoadConfig | mdnsserve/mdnsserve.c:92-126 | the loop's calls, lines and exit are exactly Run's from the start of the stream |
| DocumentLoader.PairsMakeGroupCalls | mdnsserve/mdnsserve.c:122-123 | the entries of a root mapping issue group calls only |
| DocumentLoader.LaterDocumentsMakeGroupCalls | mdnsserve/mdnsserve.c:92-126 | once the session is open the loop issues group calls only |
| DocumentLoader.FirstMappingOpens | mdnsserve/mdnsserve.c:108-123 | the first loaded document whose root is a mapping, even an empty one, opens the session: Open is the first new call, before any entry is handled |
| DocumentLoader.SessionOrder | mdnsserve/mdnsserve.c:108-123 | the session is opened at most once and before any group: no call, a refused open, or open and hook followed by group calls only |
| DocumentLoader.RootlessFirstDocumentOpensNothing | mdnsserve/mdnsserve.c:98-101 | an empty stream, or a first document without a root, opens nothing and writes nothing |
| DocumentLoader.RootlessDocumentEndsLoop | mdnsserve/mdnsserve.c:98-101 | a document without a root ends the loop: what follows it is never examined |
| DocumentLoader.BadDocumentIsFatal | mdnsserve/mdnsserve.c:95-106 | a parse error or a non-mapping root is fatal unless an earlier document was, and adds no call and no line: the trace is the earlier documents' with that exit, so the session is never opened for it |
| GroupHook.Hook | mdnsserve/mdnsserve.c:343-374 | only "not found" shuts down, for that group; errors and unknown codes are warnings, probing and announcing debug lines, publication a notice; each line reports its own event |
| GroupHook.ReportsIdentifyEvent | mdnsserve/mdnsserve.c:345-373 | two events that continue with the same report are the same event |
| Compat.NormalOrder | openbsd-compat/openbsd-compat.h:23-26 | for normal timespecs the seconds order the instants whenever they differ |
| Compat.TimespecCmp | openbsd-compat/openbsd-compat.h:23-26 | on normal timespecs the comparison is that of the instants denoted |
| Compat.CmpNeedsNormalInputs | openbsd-compat/openbsd-compat.h:23-26 | on a timespec that is not normal the comparison can disagree with the instants |
| Compat.Diff | openbsd-compat/openbsd-compat.h:30-38 | the difference preserves the total nanoseconds, is normal for normal inputs, and borrows one second exactly when the nanoseconds went negative |
| Compat.NormalUnique | openbsd-compat/openbsd-compat.h:30-38 | a normal timespec is determined by its instant |
| Compat.DiffIsNormalForm | openbsd-compat/openbsd-compat.h:30-38 | for normal inputs the difference is the only normal timespec for the difference of the instants |
| Compat.EarlierIffNegativeDiff | openbsd-compat/openbsd-compat.h:23-38 | for normal inputs the first is earlier exactly when the difference has negative seconds |
| Compat.TimespecSub | openbsd-compat/openbsd-compat.h:30-38 | writes only the result object, which holds the difference of the old inputs even when it is one of them |
| Compat.LinkStatesUp | openbsd-compat/openbsd-compat.h:19 | up and its duplex variants are up; unknown, invalid, down and keepalive-down are not |
| Scenarios.PrinterEntryAccepted | mdnsserve/mdnsserve.c:217-325 | an entry with service, protocol and a port text strtonum reads as 631 is accepted with empty text and no host |
| Scenarios.PrinterGroup | mdnsserve/mdnsserve.c:173-215 | that entry's group is defined, the service initialised and added, and the group committed, in that order |
| Scenarios.PrinterRun | mdnsserve/mdnsserve.c:92-126 | a one-group configuration: open, hook, define, initialise, add, commit, in that order |
| Scenarios.HostOnlyRun | mdnsserve/mdnsserve.c:308-313 | an entry with a host name and no address is skipped, and its group is still defined and committed |
| Scenarios.GroupsInDocumentOrder | mdnsserve/mdnsserve.c:92-126 | two documents with one group each: the session is opened once and each group is defined and committed, in document order |
| Scenarios.IndicesRestartPerDocument | mdnsserve/mdnsserve.c:122-123 | with two documents of two entries each the session is opened once and each document reports its entries as 1 then 2 |
| Scenarios.BadKeyEntries | mdnsserve/mdnsserve.c:184-188 | a mapping of two entries with non-scalar keys yields two warnings, numbered 1 and 2 in document order |
| Ports.PortOf631 | mdnsserve/mdnsserve.c:280-289 | the text "631" is read as port 631 |
| Ports.PortZero | mdnsserve/mdnsserve.c:280-289 | port 0 is accepted |
| Ports.PortMax | mdnsserve/mdnsserve.c:280-289 | port 65535 is accepted |
| Ports.PortTooLarge | mdnsserve/mdnsserve.c:280-289 | port 65536 is too large |
| Ports.PortNotNumeric | mdnsserve/mdnsserve.c:280-289 | "abc" is invalid |

## Left out

- Command line handling, the privilege drop and chroot, and the `mdns_read` loop after loading (mdnsserve/mdnsserve.c outside lines 92-126), and `log_init` and `daemon` when the session is opened (mdnsserve/mdnsserve.c:114-116): process setup and I/O.
- libyaml's parser: a stream is given as the sequence of load results, a document as its node table. Line and column marks in messages are not modelled.
- The mdns client library: its calls are recorded in the trace and their success comes from the `Library` parameter; `mdns_service_init` is recorded as a call like the others, though it builds a local structure.
- Message wording and log levels of the configuration diagnostics: a `Diag` records what a line reports, not its text; the `inet_ntop` rendering in the "added" notice is left out.
- Strings are sequences of characters; scalars with embedded NUL bytes (which `strcmp` would cut short) are not modelled.
- Compat.TimespecSub: the overflow of `time_t` and `long` is not modelled; fields are unbounded integers.
- GroupHook.Hook: the numeric codes of the group events (defined by the mdns client library's header) are not part of this model; `Other` stands for every unnamed code.
- `T_NSEC` and `IFT_CARP` in openbsd-compat/openbsd-compat.h: constants the loader does not use.
- The empty stream: the loop ends with the session unopened (`RootlessFirstDocumentOpensNothing`); what `mdns_read` then does with an unopened session is outside the model.
- Compat.LinkStatesUp: the named link-state values (`LINK_STATE_UP` is 4) are those of OpenBSD's `<net/if.h>`; the fallback macro is compiled only on systems whose headers lack it, where the values come from that system's header, which is not part of this model.
- Libc.InetPton4: follows OpenBSD's `inet_pton4`, which accepts octets with leading zeros ("01.2.3.4"); the C libraries of other systems, which reject them, are not modelled.
- `MAXHOSTNAMELEN` is fixed at 256, OpenBSD's value (the bound mdnsd.h:26-28 describes); other systems define it differently (64 with glibc), and the platform dependence is not modelled.
- One character of a Dafny string stands for one byte of the C string; multi-byte encodings are not modelled, so the 255-byte bound on group names and the empty-scalar checks count characters.
