# Verified models of the package manager core

Dafny models of the parts of this code base where state, order or parsing decides the result:
the two-thread repository loader, the lock object and the progress states, the cache of considered
packages and the filters above it, the command line parser, and four text and version cores.
`dafny verify dfyconfig.toml` checks everything.

## What is modelled

**Repository loader** (`RepoLoader.dfy`). A step system with one program counter per thread: locking,
testing, waiting, pushing, unlocking, notifying, loading, counting, storing the exception, raising
the flag and joining are separate steps, and a schedule chooses the thread that steps next, with
spurious wake-ups. `Inv` holds in every state of every schedule; from it follow safety, the absence
of lost wake-ups and deadlocks, a bound on every run, and the refinement of the single-threaded loop.
That loop is commented out in the source and differs in one respect: it lets `skip_if_unavailable`
swallow a failure to load into the sack. `AgreesOnReturning` says exactly when the two forms agree on
returning normally, `SwallowedSackFailure` is an example where they do not, and `RefinesSequential`
compares the outcomes when the sack accepts the repositories the loader can get to see. The exception of
a failed load is stored before the flag is raised, and between the two main may still go on to the next
repository: `FailureIsThrown` says exactly when it does not.

**Locks** (`LockTable.dfy`, `LockAccounting.dfy`, `LockFiles.dfy`). The class `DnfLock` is proved against
`Take` and `Release` on values; histories of these are what the accounting theorems are about.
`BalancedExactly` says that counts and balances agree through a history exactly when it never fails to
delete a lock file that has to go; `ReleaseKeepsValid` is the same for one release. `LockFiles` lets any number of processes share a directory, start, exit and crash; a take
is one step there, and `LookThenWriteRaces` says what would happen if it were not.

**Progress states** (`StateSpec.dfy`, `DnfStates.dfy`, `StateLocks.dfy`, `StateProgress.dfy`, `StateRuns.dfy`).
States are objects linked to a child and to the parent that listens to it. Each method of
`DnfStates.DnfState` is proved to do to the whole chain, and to the lock table, what the function of
the same name in `StateSpec` says; the invariants are proved about those functions and lifted to runs
of calls, with calls of other threads on the lock object between them. Weights are C ints that are
added as unsigned numbers, so more weights are accepted than add up to 100: `SetStepsGoodExactly` says
for which of them the invariant holds, and `WrappedWeights` is an example where it does not.

**Considered packages** (`Bitmaps.dfy`, `DnfSack.dfy`, `PackageFilter.dfy`). `Valid()` says that the cached bitmap
denotes the wanted solvables whenever the flag claims so; every method keeps it. `FilterPackages` puts
configuration, module excludes and query together.

**Command line** (`ArgumentGrammar.dfy`, `ArgumentParsers.dfy`, `ArgumentConflicts.dfy`, `ArgumentSpelling.dfy`,
`ArgumentPlaces.dfy`, `ArgumentSafety.dfy`, `ArgumentMeaning.dfy`). The arguments refer to each other by index, so the graph of commands may be cyclic.
The class `ArgumentParser` is proved to compute the functions of `ArgumentGrammar`, and those have the
properties one expects of an option parser, but for one: the place in a group of short options survives
the argument when a letter is not declared, and a later argument may then be read beyond its end.
`SafeExactly` says for which grammars no command line does that, positional arguments and conflict
groups included: a command is safe unless some group of a flag and an undeclared letter can come, after
some of the positional arguments, where it is either past the last one or taken by one that leaves
something to read. Without conflicts of positional arguments that means no flags with a short name, or
every letter declared, or a first positional argument that takes all that is left
(`SafeWithoutConflicts`). `TwoArguments` says which second argument is overrun after a given group, and
`StaysInside` that it takes a group that is declared in part only. As in the source, the
argument after the values of a positional argument is skipped, and a flag refuses `--name=VALUE`
(`LongSpellingExactly`).

**Text and versions** (`Substitution.dfy`, `Nsvcap.dfy`, `Evr.dfy`, `UpgradeSelection.dfy`). Substitution of variables
against an independent grammar of texts; the 16 forms of module specifications as regular
expressions; splitting of EVR strings in a buffer; selection of the package that is upgraded or
downgraded.

The methods that change objects state their new state in full, mostly as a function of the old one;
what that function means is the subject of the lemmas in the table. A row that begins with "corollary"
or "helper" follows in a step or two from the contracts around it.

## Model

| member | source | states |
|---|---|---|
| RepoLoader.ReachableInv | microdnf/context.cpp:184-276 | the joint invariant of vector, mutex, exception and both threads holds in every state of every schedule |
| RepoLoader.Safety | microdnf/context.cpp:193-268 | the vector is the prepared repositories in order with at most one end mark, at its end, within its reserved size; reads are in range; the mutex excludes; on rethrow the exception is set and the repository to name is in the vector |
| RepoLoader.NoLostWakeUp | microdnf/context.cpp:196-246 | a sleeping loader with an unread item is about to be notified |
| RepoLoader.NoDeadlock | microdnf/context.cpp:196-246 | until the call is over, one of the two threads can step without a spurious wake-up |
| RepoLoader.JoinedOnce | microdnf/context.cpp:222-246 | on every way out, thrown or not, the loader has ended and has been joined exactly once |
| RepoLoader.StepWorks | microdnf/context.cpp:196-276 | every step takes from a measure; only spurious wake-ups give some back |
| RepoLoader.RunsAreBounded | microdnf/context.cpp:196-276 | the length of every run is at most linear in the repositories and the spurious wake-ups |
| RepoLoader.RunsCanFinish | microdnf/context.cpp:196-276 | from every reachable state the two threads alone bring the call to its end |
| RepoLoader.LoadSequentially | microdnf/context.cpp:278-295 | the single-threaded loop computes SequentialFrom, and completes exactly when every repository loads or may be skipped |
| RepoLoader.FinalSack | microdnf/context.cpp:248-276 | what the sack has received when the call returns, throws for a preparation or throws for a load; in the last case all that it received was accepted, so the exception names the first rejected repository |
| RepoLoader.FailureIsThrown | microdnf/context.cpp:233-256 | a load has failed and main is about to look at the flag: every finished continuation throws that failure and main touches no other repository, exactly when the loader has raised the flag or no repository is left |
| RepoLoader.FlagStopsLoading | microdnf/context.cpp:202-216 | once either thread has raised the flag, the loader finishes the load it is at, if any, and starts no other |
| RepoLoader.RefinesSequential | microdnf/context.cpp:196-295 | on every schedule, if the sack accepts the prepared repositories before the first fatal one, the outcome is that of the single-threaded loop: the same repositories in the same order, or the same failure with a prefix loaded |
| RepoLoader.ReturnsExactlyWhen | microdnf/context.cpp:240-276 | the call returns normally exactly when all are prepared or may be skipped and all prepared ones load |
| RepoLoader.AgreesOnReturning | microdnf/context.cpp:196-295 | the threaded call and the single-threaded text agree on returning normally exactly when the latter does not skip a repository that the sack rejects |
| RepoLoader.SwallowedSackFailure | microdnf/context.cpp:278-295 | example: a skippable repository the sack rejects: the single-threaded text completes, the threaded call always throws |
| LockTable.DnfLock.GetItemByTypeMode | dnf-4/libdnf/dnf-lock.cpp:162-177 | finds the first item of a type and mode |
| LockTable.DnfLock.GetItemById | dnf-4/libdnf/dnf-lock.cpp:182-195 | finds the item of an id |
| LockTable.DnfLock.CreateItem | dnf-4/libdnf/dnf-lock.cpp:201-215 | appends an item with a new id and count 1 |
| LockTable.DnfLock.GetState | dnf-4/libdnf/dnf-lock.cpp:332-345 | the sum of the type bits of all items |
| LockTable.DnfLock.TakeLock | dnf-4/libdnf/dnf-lock.cpp:372-476 | the new table and the id are those of Take, whose success TakeJoins and TakeCreates decide |
| LockTable.DnfLock.ReleaseLock | dnf-4/libdnf/dnf-lock.cpp:491-561 | the new table and the result are those of Release, also when the deletion fails |
| LockAccounting.TakeAccounts | dnf-4/libdnf/dnf-lock.cpp:391-476 | a take that succeeds returns an id the thread owns, new or owned before, and raises its count alone by one; an error changes nothing |
| LockAccounting.TakeJoins | dnf-4/libdnf/dnf-lock.cpp:394-471 | where there is an item of the type and mode, or for a thread take the process lock of the type, a take succeeds exactly for its owner, raises its count and returns its id |
| LockAccounting.TakeCreates | dnf-4/libdnf/dnf-lock.cpp:403-450 | where there is none, a thread take always succeeds, a process take exactly when the file can be claimed, and a new item of the thread is appended |
| LockAccounting.TakeKeepsValid | dnf-4/libdnf/dnf-lock.cpp:391-476 | helper: ids and kinds stay unique through a take |
| LockAccounting.ReleaseAccounts | dnf-4/libdnf/dnf-lock.cpp:501-560 | a release succeeds exactly for the owner of a present id whose file can go; it lowers that count alone, and the id is gone at 0 |
| LockAccounting.ReleaseKeepsValid | dnf-4/libdnf/dnf-lock.cpp:525-545 | the table stays valid exactly unless deleting the lock file fails |
| LockAccounting.RefcountIsBalance | dnf-4/libdnf/dnf-lock.cpp:464-550 | as long as no deletion of a lock file fails, the count of an id is successful takes minus successful releases of it |
| LockAccounting.BalancedExactly | dnf-4/libdnf/dnf-lock.cpp:464-550 | over every history: counts and balances agree all the way, and the table stays valid all the way, exactly when no deletion of a lock file that has to go fails |
| LockAccounting.FailureShows | dnf-4/libdnf/dnf-lock.cpp:525-545 | the first failure leaves a count of 0 where the balance is 1 |
| LockAccounting.ReleasedIdsStayDead | dnf-4/libdnf/dnf-lock.cpp:201-215 | an id that was fully released is never returned by a take nor accepted by a release again, in any history without a failed deletion |
| LockAccounting.StateIsBitSetExactlyWhen | dnf-4/libdnf/dnf-lock.cpp:332-345 | the reported sum is the bit set of held types exactly when no type is held in both modes |
| LockAccounting.BothModesAtOnce | dnf-4/libdnf/dnf-lock.cpp:394-450 | a process take ignores thread items: in every valid table with a thread lock of a type, a claimable process take leaves both modes held and the reported sum wrong |
| LockFiles.ReachableInv | dnf-4/libdnf/dnf-lock.cpp:391-561 | in every run of takes, releases, starts, exits and crashes, the process items of every running process are backed by files with its pid |
| LockFiles.MutualExclusion | dnf-4/libdnf/dnf-lock.cpp:391-560 | in every run with crashes, stale files and reused pids, at most one running process holds a process lock of a type, and each type and mode has one item in a process |
| LockFiles.CrashFreesTheLock | dnf-4/libdnf/dnf-lock.cpp:404-449 | others cannot take a held process lock, and can as soon as the holder is gone without releasing it |
| LockFiles.ReleaseFreesTheLock | dnf-4/libdnf/dnf-lock.cpp:522-552 | the release of a process lock by its owner keeps it while it was taken more than once, and else any other process can take it |
| LockFiles.FilesStay | dnf-4/libdnf/dnf-lock.cpp:431-441 | helper: without permission to write no process lock is taken, and a process that ends leaves its files behind |
| LockFiles.LookThenWriteRaces | dnf-4/libdnf/dnf-lock.cpp:404-449 | in every reachable system, two processes that look at the directory before either writes both hold the lock exactly when it was free to take: a take has to be one step |
| DnfStates.DnfState.TakeLock | dnf-4/libdnf/dnf-state.cpp:338-359 | stores the id of a successful take, on the chain of objects |
| DnfStates.DnfState.ReleaseLocks | dnf-4/libdnf/dnf-state.cpp:546-565 | releases the locks of the children first, then its own, on the chain of objects |
| DnfStates.DnfState.SetPercentage | dnf-4/libdnf/dnf-state.cpp:580-638 | rejects a percentage that does not rise, drops the locks at 100, emits, and the parents follow |
| DnfStates.DnfState.ChildPercentageChanged | dnf-4/libdnf/dnf-state.cpp:806-864 | derives the own percentage from the child's, by weights or by equal steps |
| DnfStates.DnfState.ParentPercentage | dnf-4/libdnf/dnf-state.cpp:814-861 | what a parent derives, if anything, from a percentage of its child; the products of the weighted form are unsigned |
| DnfStates.DnfState.SetNumberSteps | dnf-4/libdnf/dnf-state.cpp:1095-1130 | sets the steps once |
| DnfStates.DnfState.SetSteps | dnf-4/libdnf/dnf-state.cpp:1151-1215 | accepts C ints whose unsigned sum is 100 and stores their prefix sums |
| DnfStates.DnfState.SaveWeights | dnf-4/libdnf/dnf-state.cpp:1199-1214 | the stored data are the prefix sums of the weights in unsigned arithmetic |
| DnfStates.DnfState.DonePercentage | dnf-4/libdnf/dnf-state.cpp:1379-1386 | the percentage of the steps counted so far, by weights or by equal steps |
| DnfStates.DnfState.Done | dnf-4/libdnf/dnf-state.cpp:1312-1400 | counts a step, sets its percentage and resets the child |
| DnfStates.DnfState.Finished | dnf-4/libdnf/dnf-state.cpp:1415-1437 | jumps to the last step and 100 |
| DnfStates.DnfState.Finalize | dnf-4/libdnf/dnf-state.cpp:148-170 | a state that goes away releases and resets what it has |
| DnfStates.DnfState.Reset | dnf-4/libdnf/dnf-state.cpp:925-981 | clears progress, weights, locks and the child |
| DnfStates.DnfState.GetChild | dnf-4/libdnf/dnf-state.cpp:1007-1076 | replaces the child by a new one that reports here |
| StateLocks.ReleaseIdsLowers | dnf-4/libdnf/dnf-state.cpp:546-565 | releasing stored ids succeeds and lowers each count by its multiplicity |
| StateLocks.ReleaseStops | dnf-4/libdnf/dnf-state.cpp:555-561 | ids are released in order and none after the first that fails |
| StateLocks.ReleaseForgets | dnf-4/libdnf/dnf-state.cpp:555-564 | a state forgets its ids exactly when all were released |
| StateLocks.ReleaseLocksConserves | dnf-4/libdnf/dnf-state.cpp:546-565 | succeeds, empties the sub-chain, and lowers each count by exactly the share stored there |
| StateLocks.TakeLockConserves | dnf-4/libdnf/dnf-state.cpp:338-359 | storing the id of a take keeps counts and stored ids balanced |
| StateRuns.TakeLockStores | dnf-4/libdnf/dnf-state.cpp:338-359 | a take through a state succeeds exactly when the lock object grants it, adds that id to the state and nothing else, and the thread has it once more |
| StateLocks.SetPercentageConserves | dnf-4/libdnf/dnf-state.cpp:580-638 | counts and stored ids stay balanced while a percentage climbs the chain and drops locks at 100 |
| StateLocks.ChildPercentageChangedConserves | dnf-4/libdnf/dnf-state.cpp:806-864 | the same while a parent follows its child |
| StateLocks.FinalizeConserves | dnf-4/libdnf/dnf-state.cpp:148-169 | and when a state goes away with its locks |
| StateLocks.ResetConserves | dnf-4/libdnf/dnf-state.cpp:925-981 | and through a reset |
| StateLocks.FinishedConserves | dnf-4/libdnf/dnf-state.cpp:1415-1437 | and through finishing early |
| StateLocks.GetChildConserves | dnf-4/libdnf/dnf-state.cpp:1020-1032 | and through the replacement of a child |
| StateLocks.DoneConserves | dnf-4/libdnf/dnf-state.cpp:1362-1399 | and through a done step |
| StateLocks.ForeignConserves | dnf-4/libdnf/dnf-lock.cpp:372-561 | and through any take or release of another thread |
| StateProgress.ParentStaysInBand | dnf-4/libdnf/dnf-state.cpp:806-864 | what a state derives from its child lies between its current and its next prefix sum |
| StateProgress.ParentPercentageExactly | dnf-4/libdnf/dnf-state.cpp:814-861 | exactly when a state ignores its child, and otherwise: the percentage of the child with one step, 100 current + p over the steps rounded down with equal steps, and the point between its two prefix sums rounded down with weights |
| StateProgress.EqualSteps | dnf-4/libdnf/dnf-state.cpp:365-376 | the percentage after k of n equal steps is 100 k / n rounded down |
| StateProgress.ChainFollows | dnf-4/libdnf/dnf-state.cpp:610-638 | a percentage that rises is emitted, and every state outside, as far as the one inside it changed, takes and emits what it derives from it if that is more than it has |
| StateProgress.RefusedChanges | dnf-4/libdnf/dnf-state.cpp:584-608 | a percentage that does not rise or exceeds 100 is refused, a state that does not report ignores it, and neither changes anything |
| StateProgress.SetPercentageSound | dnf-4/libdnf/dnf-state.cpp:580-638 | an acceptable percentage leaves every state of the chain in its band and rising |
| StateProgress.ChildPercentageChangedSound | dnf-4/libdnf/dnf-state.cpp:806-864 | whatever a child emits, every state above stays in the band of its step and rising |
| StateProgress.SetPercentageTakes | dnf-4/libdnf/dnf-state.cpp:606-638 | the state shows the larger percentage, and at 100 nothing below holds a lock |
| StateRuns.DoneLands | dnf-4/libdnf/dnf-state.cpp:1362-1399 | a done step lands exactly on its prefix sum, on 100 after the last one, and leaves a new child |
| StateRuns.DoneExactly | dnf-4/libdnf/dnf-state.cpp:1325-1360 | a done step is refused, without effect, exactly when no steps were set or all are done |
| StateRuns.FinishedLands | dnf-4/libdnf/dnf-state.cpp:1424-1436 | finishing early counts all steps, shows 100 and leaves no lock below; when all steps are done it changes nothing |
| StateRuns.SetNumberStepsExactly | dnf-4/libdnf/dnf-state.cpp:1095-1130 | when a number of steps is refused or ignored, and that otherwise it is the only thing that changes |
| StateRuns.PrefixIsTotal | dnf-4/libdnf/dnf-state.cpp:1199-1213 | the prefix sums of a state with weights that add up are the totals of its first weights |
| StateRuns.TotalMeans | dnf-4/libdnf/dnf-state.cpp:1167-1177 | helper: what a total is: of one weight the weight, of two sequences the sum |
| StateRuns.ResetFresh | dnf-4/libdnf/dnf-state.cpp:925-981 | a reset state equals a new one and its chain ends with it |
| StateRuns.GetChildGood | dnf-4/libdnf/dnf-state.cpp:1007-1076 | a new child takes the place of the old one and all below it, and the chain stays good; a state that does not report stays as it is |
| StateRuns.WeightedExactly | dnf-4/libdnf/dnf-state.cpp:1166-1214 | of the accepted weights, the stored sums rise to 100 exactly for those that are not negative and really add up to 100 |
| StateRuns.SetStepsSoundExactly | dnf-4/libdnf/dnf-state.cpp:1151-1214 | weights are refused without effect unless their unsigned sum is 100, and the state is then sound exactly when they are not negative and add up |
| StateRuns.SetStepsGoodExactly | dnf-4/libdnf/dnf-state.cpp:1151-1214 | the invariant of the whole chain survives setting steps exactly when the weights are refused or really add up |
| StateRuns.WrappedWeights | dnf-4/libdnf/dnf-state.cpp:1175-1214 | example: weights that reach 100 only by wrap-around are accepted, and the first done step then shows 0 |
| StateRuns.PerformConserves | dnf-4/libdnf/dnf-state.cpp:338-1437 | every call, used in any way, keeps counts and stored ids balanced |
| StateRuns.PerformGood | dnf-4/libdnf/dnf-state.cpp:580-1437 | every documented call keeps all states in their bands and rising |
| StateRuns.LockConservation | dnf-4/libdnf/dnf-state.cpp:338-359 | in every run of calls, with other threads between them, each count the thread owns is the number of times its id is stored in the chain |
| StateRuns.ProgressInvariant | dnf-4/libdnf/dnf-state.cpp:580-864 | in every run of documented calls, with accepted weights that really add up, each state is in its band and emits strictly rising percentages up to 100 |
| DnfSacks.DnfSack.RecomputeConsideredMap | dnf-4/libdnf/dnf-sack.cpp:326-376 | the map denotes the wanted solvables under any flags; there is none exactly when nothing applies |
| DnfSacks.DnfSack.WithFreeRepos | dnf-4/libdnf/dnf-sack.cpp:355-374 | included ids and all solvables of repositories that do not use includes |
| DnfSacks.DnfSack.RecomputeConsidered | dnf-4/libdnf/dnf-sack.cpp:386-396 | afterwards the cache is up to date and right |
| DnfSacks.DnfSack.AddExcludesOrIncludes | dnf-4/libdnf/dnf-sack.cpp:1242-1257 | adds exactly the given ids and keeps the cache agreement |
| DnfSacks.DnfSack.RemoveExcludesOrIncludes | dnf-4/libdnf/dnf-sack.cpp:1307-1316 | removes exactly the given ids and keeps the cache agreement |
| DnfSacks.DnfSack.SetExcludesOrIncludes | dnf-4/libdnf/dnf-sack.cpp:1366-1380 | replaces the map and keeps the cache agreement |
| DnfSacks.DnfSack.SetModuleIncludes | dnf-4/libdnf/dnf-sack.cpp:1382-1393 | does not touch what is considered |
| DnfSacks.DnfSack.SetUseIncludes | dnf-4/libdnf/dnf-sack.cpp:1563-1590 | sets the flag of the named or of all repositories, an unknown name changes nothing, and keeps the cache agreement |
| DnfSacks.DnfSack.SetConsideredToUpdate | dnf-4/libdnf/dnf-sack.cpp:1615-1620 | only gives up the claim that the cache is up to date |
| DnfSacks.MarkAll | dnf-4/libdnf/dnf-sack.cpp:1675-1682 | sets or clears exactly the bits of the given solvables |
| DnfSacks.DnfSack.RepoEnabled | dnf-4/libdnf/dnf-sack.cpp:1658-1685 | exactly the solvables of the repository enter or leave the repository excludes, and keeps the cache agreement |
| DnfSacks.DnfSack.LoadRepo | dnf-4/libdnf/dnf-sack.cpp:1792-1905 | a successful load grows the pool and keeps the cache agreement |
| DnfSacks.SameIncludesDenote | dnf-4/libdnf/dnf-sack.cpp:354-357 | helper: growing the includes map does not change what the cache has to denote |
| PackageFilter.ProcessRepos | dnf-4/libdnf/dnf-sack.cpp:1988-2020 | collects what the enabled repositories include and exclude and marks those whose includes match |
| PackageFilter.ProcessExcludes | dnf-4/libdnf/dnf-sack.cpp:1979-2051 | the includes and excludes of the sack grow by exactly those configured |
| PackageFilter.CollectMatches | dnf-4/libdnf/dnf-sack.cpp:2003-2011 | adds exactly what the matching patterns find, and says whether one matches |
| PackageFilter.CollectNevras | dnf-4/libdnf/dnf-sack.cpp:2229-2246 | artifacts of active and of other modules |
| PackageFilter.CollectNames | dnf-4/libdnf/dnf-sack.cpp:2253-2261 | exactly the names of the artifacts that can be parsed |
| PackageFilter.SetModuleExcludes | dnf-4/libdnf/dnf-sack.cpp:2249-2299 | exactly which packages become module-excluded |
| PackageFilter.FilterPackages | dnf-4/libdnf/dnf-sack.cpp:1979-2299 | end to end, on any sack: exactly the packages that are seen, exactly those that are module-excluded, and exactly which repositories are made to use includes |
| PackageFilter.ConfigMeans | dnf-4/libdnf/dnf-sack.cpp:1979-2051 | what counts as excluded and included by a configuration, in full |
| PackageFilter.MaskedMeans | dnf-4/libdnf/dnf-sack.cpp:2252-2297 | the union of the three queries in terms of modules, artifacts, names and what packages provide |
| PackageFilter.NeverMasked | dnf-4/libdnf/dnf-sack.cpp:2273-2293 | corollary: artifacts of active modules and packages of system, command line and hotfix repositories are never module-excluded |
| ArgumentParsers.ArgumentParser.HasConflict | microdnf/argument_parser.cpp:31-40 | finds a parsed argument of the conflict group other than this one |
| ArgumentParsers.ArgumentParser.ParsePositional | microdnf/argument_parser.cpp:89-112 | stores the first values, keeps the rest of a longer list, and counts |
| ArgumentParsers.ArgumentParser.SetValues | microdnf/argument_parser.cpp:99-106 | the first places of the list hold the arguments, the places after them what they held |
| ArgumentParsers.ArgumentParser.ParseLong | microdnf/argument_parser.cpp:114-149 | the outcome, consumed arguments and new state of a long option |
| ArgumentParsers.ArgumentParser.ParseShort | microdnf/argument_parser.cpp:152-184 | the same for a short option in its group |
| ArgumentParsers.ArgumentParser.FindOption | microdnf/argument_parser.cpp:218-247 | how an argument is read at a place in its letters |
| ArgumentParsers.ArgumentParser.FindSubcommand | microdnf/argument_parser.cpp:249-262 | the first sub-command with this name, and no other |
| ArgumentParsers.ArgumentParser.ParseCommand | microdnf/argument_parser.cpp:213-276 | ends for every argv and every graph of commands, stays within argv, and computes ArgumentGrammar.ParseCommand |
| ArgumentMeaning.ReadExactly | microdnf/argument_parser.cpp:218-247 | the option that is read is the first that the argument names, by its long name up to an equals sign or by the letter at the place; if none is read, it names none |
| ArgumentMeaning.ValueOption | microdnf/argument_parser.cpp:114-149 | --name VALUE stores VALUE in the linked option, counts the option once, changes nothing else, and the rest is read after it |
| ArgumentMeaning.FlagOption | microdnf/argument_parser.cpp:135-148 | --name of a flag stores the constant of the flag in the same way |
| ArgumentMeaning.OptionThrows | microdnf/argument_parser.cpp:115-134 | when an option throws: in conflict, without the value it takes, or with one it does not take; nothing has changed then |
| ArgumentMeaning.PositionalExactly | microdnf/argument_parser.cpp:89-98 | how many arguments a positional argument takes, and when it throws |
| ArgumentMeaning.Taken | microdnf/argument_parser.cpp:99-111 | the values land in the first places of its list, it is counted once, and nothing else changes |
| ArgumentMeaning.PositionalArguments | microdnf/argument_parser.cpp:264-273 | an argument that names neither an option nor a sub-command goes to the next positional argument and one more is skipped; without one left it is skipped |
| ArgumentMeaning.SubCommand | microdnf/argument_parser.cpp:248-263 | the name of a sub-command hands the rest to the first sub-command of that name, or throws when the command is in conflict |
| ArgumentMeaning.CommandCounted | microdnf/argument_parser.cpp:213-276 | a command that was parsed is counted once after all it has read, and one that threw is not |
| ArgumentSpelling.GroupSpelling | microdnf/argument_parser.cpp:152-184 | a group of declared letters reads like its options on their own, in every state and before any further arguments |
| ArgumentSpelling.ShortValueSpelling | microdnf/argument_parser.cpp:160-170 | -xVALUE reads like -x VALUE |
| ArgumentSpelling.LongSpelling | microdnf/argument_parser.cpp:120-135 | --name=VALUE reads like --name VALUE |
| ArgumentSpelling.LongSpellingExactly | microdnf/argument_parser.cpp:119-139 | the two spellings agree exactly when the option takes a value or is in conflict |
| ArgumentSpelling.LongOrShort | microdnf/argument_parser.cpp:114-184 | the long and the short name of an option read alike |
| ArgumentSpelling.SpellingDoesNotMatter | microdnf/argument_parser.cpp:213-276 | a whole command line and its expansion give the same values, counts and outcome, down into sub-commands |
| ArgumentSpelling.SkippedArgument | microdnf/argument_parser.cpp:264-270 | the argument after the values of a positional argument is not read: replacing it changes nothing |
| ArgumentConflicts.TraceEnds | microdnf/argument_parser.cpp:213-276 | the trace of states is the one parsing goes through: it starts and ends with its states |
| ArgumentConflicts.OneOfEachGroup | microdnf/argument_parser.cpp:31-40 | in every state on the way at most one argument of an exclusive group has been parsed |
| ArgumentConflicts.CountsGrow | microdnf/argument_parser.cpp:213-276 | no parse count goes down |
| ArgumentSafety.SafeExactly | microdnf/argument_parser.cpp:213-276 | no command line is ever read beyond the end of an argument, from any state or just from the start, exactly when every command of the grammar is safe; any positional arguments and conflict groups |
| ArgumentSafety.SafeWithoutConflicts | microdnf/argument_parser.cpp:89-112 | what safe means where positional arguments have no conflicts: no flag with a short name, every letter declared, or a first positional argument that takes all that is left |
| ArgumentSafety.SafeStaysInside | microdnf/argument_parser.cpp:213-276 | a safe grammar keeps every read inside, through groups, positional arguments and sub-commands |
| ArgumentSafety.UnsafeLine | microdnf/argument_parser.cpp:213-276 | any other command has a command line, read from the start, that leads beyond the end of an argument |
| ArgumentSafety.Fill | microdnf/argument_parser.cpp:264-273 | positional arguments that are not in conflict can be filled one after the other, each with one argument skipped after it |
| ArgumentPlaces.TwoArguments | microdnf/argument_parser.cpp:233-270 | after m flags and a letter that is no option, an argument with one dash is read beyond its end exactly when all positional arguments are filled and it has at most m characters |
| ArgumentPlaces.LastArgument | microdnf/argument_parser.cpp:213-276 | a last argument is read beyond its end at once or not at all |
| ArgumentPlaces.OverrunExactly | microdnf/argument_parser.cpp:222-247 | helper: when a letter is read beyond the end of an argument, for a given place |
| ArgumentPlaces.StaysInside | microdnf/argument_parser.cpp:213-276 | whatever the grammar, command lines without partly declared groups are read inside |
| ArgumentPlaces.StalePlace | microdnf/argument_parser.cpp:233-245 | example: "-ab -" with only a declared |
| Substitution.Substitute | libdnf/conf/config_parser.cpp:29-66 | the loop ends and computes the one-pass expansion; values that were put in are not looked at again |
| Substitution.OneReading | libdnf/conf/config_parser.cpp:31-53 | the pieces of a text are the only proper reading of it: longest names, closed braces, and a dollar sign by itself only where no reference can start |
| Substitution.KnownIsReplaced | libdnf/conf/config_parser.cpp:54-61 | a reference to a known variable becomes its value, and reading goes on after it |
| Substitution.OthersStay | libdnf/conf/config_parser.cpp:54-64 | an ordinary character or a reference to an unknown variable stays, and reading goes on after it |
| Substitution.WordCharacters | libdnf/conf/config_parser.cpp:46-47 | helper: the characters of a name, written out |
| Substitution.NothingKnown | libdnf/conf/config_parser.cpp:54-64 | references to unknown variables and malformed ones stay verbatim |
| Nsvcaps.MatchIsExact | dnf-4/libdnf/nsvcap.cpp:59-72 | reading from left to right finds the groups of a match of a separable expression, and they are unique |
| Nsvcaps.RoundTrip | dnf-4/libdnf/nsvcap.cpp:33-57 | a string matches a form with some groups exactly when it is the fitting groups with the separators of the form, up to the optional ones |
| Nsvcaps.FormMeans | dnf-4/libdnf/nsvcap.cpp:40-57 | a string matches a form exactly when it spells the fields that the name of the form lists, name:stream:version:context::arch/profile, each there and of its own characters, and the groups are these fields in this order |
| Nsvcaps.ClassMeans | dnf-4/libdnf/nsvcap.cpp:20-38 | helper: the classes of characters, written out |
| Nsvcaps.AtMostOneForm | dnf-4/libdnf/nsvcap.cpp:40-57 | no string matches two forms, or one in two ways |
| Nsvcaps.FindsTheOne | dnf-4/libdnf/nsvcap.cpp:59-72 | trying different forms finds the one that matches, wherever it stands, and nothing else |
| Nsvcaps.OrderDoesNotMatter | dnf-4/libdnf/nsvcap.cpp:59-72 | forms can be tried in any order, and at most one is found |
| Nsvcaps.Nsvcap.Parse | dnf-4/libdnf/nsvcap.cpp:59-72 | true exactly when the form matches; then each field of the form holds its part of the string and the others are empty; otherwise the fields stay |
| Nsvcaps.Nsvcap.Clear | dnf-4/libdnf/nsvcap.cpp:74-83 | empties the fields |
| Evrs.SplitEvr | dnf-4/libdnf/hy-iutil.cpp:648-678 | the pointers stay inside the buffer and point to the parts of the string |
| Evrs.SplitGetEvr | dnf-4/libdnf/nevra.cpp:29-35 | splitting what getEvr wrote returns the digits of the epoch, the version and the release |
| Evrs.SplitJoins | dnf-4/libdnf/hy-iutil.cpp:648-678 | corollary: the parts with their separators are the string |
| Evrs.GetEpoch | dnf-4/libdnf/hy-iutil.cpp:622-637 | the epoch, or a stop when it is no positive number |
| Evrs.EpochOfDigits | dnf-4/libdnf/hy-iutil.cpp:629-634 | of any string with an epoch of digits, the epoch is their value when that is positive, and else the program stops |
| Evrs.EpochRoundTrip | dnf-4/libdnf/hy-iutil.cpp:622-637 | positive epochs come back, no epoch comes back as 0, and every other epoch, 0 among them, stops the program |
| UpgradeSelection.WhatUpgrades | dnf-4/libdnf/hy-iutil.cpp:552-581 | non-zero exactly when a compatible installed package exists and all are older; then the first with the greatest EVR |
| UpgradeSelection.WhatDowngrades | dnf-4/libdnf/hy-iutil.cpp:595-620 | the dual, with equal architecture and the lowest EVR |
| UpgradeSelection.UpgradesMeans | dnf-4/libdnf/hy-iutil.cpp:561-579 | corollary: which installed packages count for an upgrade, said in full, noarch on either side included |
| UpgradeSelection.DowngradesMeans | dnf-4/libdnf/hy-iutil.cpp:604-620 | corollary: which count for a downgrade |
| UpgradeSelection.OneUpgrade | dnf-4/libdnf/hy-iutil.cpp:552-581 | corollary: the result is determined by that |
| UpgradeSelection.OneDowngrade | dnf-4/libdnf/hy-iutil.cpp:595-620 | corollary: and so is this one |
| UpgradeSelection.NeverBoth | dnf-4/libdnf/hy-iutil.cpp:552-620 | corollary: a package is not both an upgrade and a downgrade |
| UpgradeSelection.InstalledIsNeither | dnf-4/libdnf/hy-iutil.cpp:552-620 | corollary: an installed package is neither |

## Left out

- RepoLoader.RefinesSequential: repositories before the first fatal one are accepted by the sack, because the single-threaded text treats other sack failures differently; FinalSack, ReturnsExactlyWhen and AgreesOnReturning cover those. A failure of `get_rpm_solv_sack` and failures other than `runtime_error` are not modelled.
- LockTable.DnfLock.TakeLock: ids and counts do not wrap around at 32 bits on a take; whether a lock file can be claimed is given, and LockFiles computes it.
- LockFiles.MutualExclusion: each take and release is one step and the lock directory is fixed; LookThenWriteRaces says what a finer grain would allow.
- StateRuns.LockConservation: the releases of the states themselves delete their lock files, and those of other threads do not fail to; BalancedExactly says what a failure does to the counts.
- StateRuns.ProgressInvariant: for accepted weights that really add up, which SetStepsGoodExactly shows to be needed, steps set before any percentage, and percentages set by hand only on a state without steps.
- StateProgress.ParentStaysInBand: the unweighted branch uses exact rationals rounded down, not floating point.
- DnfSacks.DnfSack.LoadRepo: loads that fail after the repository is attached are not modelled; the source leaves the flag set there.
- DnfSacks.DnfSack.RepoEnabled: an existing map of repository excludes has to cover the solvables of the repository, since the source writes it without a size check.
- PackageFilter.FilterPackages: subject matching, NEVRA parsing and the module container are given as their results.
- ArgumentPlaces.StaysInside: one direction, for single command lines; SafeExactly has both for grammars and TwoArguments both for a group and the argument after it.
- ArgumentParsers.ArgumentParser.ParseCommand: hooks do nothing, options accept every string, and growing a list of values always succeeds.
- ArgumentSpelling.SpellingDoesNotMatter: from the first group with an undeclared letter on, the expansion leaves the arguments as they are.
- Substitution.Substitute: letters and digits are the ASCII ones, as `isalnum` gives in the C locale.
- Nsvcaps.MatchIsExact: the engine for regular expressions is not part of this model; a match is membership in the language, which determines the groups here.
- Evrs.SplitEvr: for well-formed strings only, as the source relies on it: not empty, and a '-' at least one character after a ':' that comes first.
- UpgradeSelection.WhatUpgrades: the comparison of EVRs is any total preorder; libsolv is not part of this model.
- Cancellation, actions, speed, profiling, signals and the report flag of a state after its creation: they do not touch percentages or locks.
- `dnf_lock_finalize`, changes of the lock directory, and the command line shown for a lock holder.
- `Nevra::compare`, `create_raw_item` and the option classes: they would add only easy members.
- Progress bars, help tables, downloads, transactions, keyrings and the rest of the user interface and the network code.
