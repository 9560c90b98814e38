# Proofs about the eBPF code extractor and the eBPF programs it is used on

The repository holds a tool that cuts functions out of eBPF programs (`src/`), and the programs
themselves (`examples/`). This project models the parts of both that keep state over long runs or
rewrite what they read, and proves what those parts promise.

| files | models |
|---|---|
| `machine.dfy` | machine integers, C strings, option and result types |
| `klockstat.dfy`, `klockstat_race.dfy`, `klockstat_max.dfy` | the lock statistics: handlers of both probe families, lock sessions, and the atomic steps of concurrent `account` calls |
| `ksnoop_stack.dfy`, `ksnoop.dfy`, `ksnoop_run.dfy`, `ksnoop_scan.dfy`, `ksnoop_emits.dfy`, `ksnoop_safety.dfy`, `ksnoop_args.dfy`, `ksnoop_chain.dfy`, `ksnoop_setup.dfy` | the call-stack machine of ksnoop, its trace records, whole runs, what the scans over the stack put out, what every run keeps, the arguments and their predicates, what becomes of data along a chain, and the chain user space sets up |
| `extractor_regions.dfy`, `extractor_lines.dfy`, `extractor_map.dfy`, `extractor_laminar.dfy`, `extractor_cpp.dfy`, `extractor_meaning.dfy`, `extractor_seen.dfy`, `extractor_defines.dfy` | the extractor: conditional regions, guarded extraction, copied definitions, each against a model of the C preprocessor |
| `execsnoop.dfy` | packing arguments in the kernel, printing them, and reading them back |
| `ksyms.dfy`, `ksyms_table.dfy`, `dso.dfy` | symbol tables: arena, growth, sort, search, address translation |
| `log2.dfy`, `fsdist.dfy` | the branchless logarithm and the latency histograms that depend on it |
| `tar.dfy` | the lookup of a file in a ustar image |
| `tcpstates.dfy` | how long sockets stay in each TCP state |

Code that changes state is a class or a method with loops, proved against a specification: a
function of the state, or a definition that looks back over the events. What the program promises is
then proved about that specification. BPF maps are finite maps, a handler is one step (in
`klockstat_race.dfy` every atomic add and every `READ_ONCE`/`WRITE_ONCE` is a step of its own), and
clocks, stack ids, command names, task ids and the results of probe reads are inputs. Machine
arithmetic wraps where the C code wraps.

## What is proved

**klockstat.** The kprobe programs, which recover the lock from a map keyed by thread, compute the
same maps as the fentry programs, which are given the lock, for every interleaving in which each
thread's entries and exits alternate. Without any condition on the threads, the two have equal maps
in every state if and only if every exit finds its own lock under its thread id, or concerns no lock
of which there is anything to record; a run with nested entries breaks it. `stat_map` holds, for
each thread or for each stack, the count, sum, true maximum and first owner of the maximum of
exactly the lock sessions that finished and are that thread's, or started with that stack; sessions
are found by looking back over the operations. One use of a lock, by any of the functions, is such a
session with its own times if the lock was got, and leaves nothing behind if not. Under concurrency
the sums are exact in every state of every schedule, each maximum is some delta already added, and
held counts bracket acquired counts. In every state the maxima are at least all deltas written so
far if and only if no write puts a delta below the maximum it replaces, so reading the maximum again
at the write would suffice; calls that do not overlap in the update are a case of it, and
`RaceLosesTheMaximum` is a schedule that fails. Whom a maximum names is another matter: without a
lowering write, its task, lock and name belong to one call that attains it if and only if those that
wrote these fields last are like one call, and `CrossingTearsTheOwner` is a schedule in which they
are not.

**ksnoop.** Each return pops what its own entry pushed, and every probe learns its real caller or
callee, if and only if traced calls nest at most 15 deep; this carries over to any mix of tasks and
to the gate on `prev_ip` and `next_ip`, so with the chain of `parse_traces` an entry is traced
exactly when it comes directly from the function named before it. No probe in the middle of a chain
emits anything: its data is kept exactly when its neighbour matches, it passed, and something was
copied; and a task that goes down the whole chain is reported by one event for each function, in
order, when it enters the last (`ChainIsReported`). A pass is rejected if and only if some
comparison that the user wrote can be made and is false, where values are compared as unsigned ones,
which is right for signed ones if and only if the signs agree or equality is asked. Stashed data is
emitted only after an entry into that function that passed its filter and every predicate that could
be evaluated, and was not cleared since; it passed all its predicates if and only if no pointer
under one was unreadable. At the end of a chain the scans put out exactly the longest run of the
task's stashed records, in stack order, and then the record that fired. The copied slices tile the
buffer on a fresh pass, and in every reachable state they lie inside the recorded part and apart.

**The extractor.** The regions of a file are exactly the branches that its lines make, each with the
condition kept for it, and they form a laminar family in increasing order of end, so the first
region that contains a range is the innermost one. Meaning is that of a preprocessor with a reading
of its own: blanks may stand before and after a `#`, and a line break may end the word. Whatever the
extractor sees of a file, it puts no guard around a range or one that the preprocessor reads as a
condition on a macro. Where the range splits no conditional, and some set of macros compiles it, the
block keeps its text for all sets of macros if and only if there is no guard, or the guard asks what
a conditional around the range asks (`PreservedExactly`); it also vanishes with the range if and
only if all of them ask the same as the guard (`EquivalentExactly`). In a file in which every
directive is seen, the first means that the range is not in the `#else` of an `#ifndef`, for which
the code keeps the wrong condition. `SameViewsExactly` says which files these are: each directive is
at column 0, with one space after its word and only blanks after the name. An `#else` that ends its
line is not: where it belongs to the innermost conditional, text is lost. Where no closing line is
seen there are no guards, and none is lost. In files whose continued definitions end properly,
copied definitions bind every macro to its first definition; for any files, the output is balanced
if and only if every continued definition ends before another one starts and before its file ends,
and an unmatched `#endif` is never written.

**execsnoop.** For every argument vector and limit, the exit for a full buffer is never taken, the
unquoted output is the stored arguments, and the quoted output reads back to them if and only if
no stored argument has a backslash at its end or before `t` or `n`.

**Symbols.** The table is the sorted permutation of what was added, with all names intact through
every move of the arena, built with at most 5n moves; the binary search finds the last entry at or
below the address and nothing exactly when there is none; the place of an address in its object file
is given for each kind of file in exact arithmetic, modulo 2^64, and leads back to the address even
where it wraps.

**Histograms.** `log2l` is the floor of the logarithm for all 64-bit values, the printed ranges
partition the naturals, and each counter is the number (modulo 2^32) of returns whose latency lies in
the range printed for it. Across readings of a running histogram every return is shown once,
still waiting, or lost, and exactly those are lost that fall between copying and clearing.

**tar, tcpstates.** The lookup returns the first file of the name, and NULL exactly when there is
none. The times reported for one use of a socket add up to its length, short of it by less than a
microsecond for each transition, with no time carried over a traced close. For any filters, no time is
carried over from an earlier use if and only if no traced transition comes, a microsecond or more,
after a traced one that an untraced close separates from it; filters that see every close of what
they see anything of, as when ports stay the same, never carry any.

Where the code and its comments differ, the code is modelled: the comment at `ksnoop.bpf.c:99` speaks
of the last function called where the code reads the caller, and `output_stashed_traces` starts
its return scan one slot past the end of the stack, so that the word found there is an input here.

## Model

| member | source | states |
|---|---|---|
| `Klockstat.Program.LockContended` | `examples/bcc-libbpf-tools-main/klockstat.bpf.c:84-118` | a contended lock starts a session unless the stack id is an error or the task is filtered; nothing else changes |
| `Klockstat.Program.LockAborted` | `examples/bcc-libbpf-tools-main/klockstat.bpf.c:120-133` | an aborted attempt ends its session without statistics |
| `Klockstat.Program.LockAcquired` | `examples/bcc-libbpf-tools-main/klockstat.bpf.c:135-154` | an open session learns when the lock was acquired |
| `Klockstat.Program.Account` | `examples/bcc-libbpf-tools-main/klockstat.bpf.c:156-212` | the statistics map after one session, in 64-bit arithmetic |
| `Klockstat.Program.LockReleased` | `examples/bcc-libbpf-tools-main/klockstat.bpf.c:214-235` | a release accounts the session and ends it |
| `Klockstat.Program.Fentry` | `examples/bcc-libbpf-tools-main/klockstat.bpf.c:237-413` | each fentry and fexit program performs the lock operations of its function |
| `Klockstat.Program.Kprobe` | `examples/bcc-libbpf-tools-main/klockstat.bpf.c:415-740` | each kprobe and kretprobe program performs them on the lock found under the thread id |
| `Klockstat.KprobeRefinesFentry` | `examples/bcc-libbpf-tools-main/klockstat.bpf.c:237-740` | for every interleaving of alternating threads both families leave the same maps |
| `Klockstat.KprobeRefinesFentryFrom` | `examples/bcc-libbpf-tools-main/klockstat.bpf.c:237-740` | the same from any point of a run, as an invariant between `locks` and the open calls |
| `Klockstat.RefinesExactly` | `examples/bcc-libbpf-tools-main/klockstat.bpf.c:237-740` | from any state and for any run, both families have equal maps in every state if and only if every exit finds its own lock under its thread id, or neither lock's exit would change the maps |
| `Klockstat.ExitAgreesExactly` | `examples/bcc-libbpf-tools-main/klockstat.bpf.c:425-438` | the same for one event |
| `Klockstat.ExitChangesExactly` | `examples/bcc-libbpf-tools-main/klockstat.bpf.c:84-154` | when an exit changes the maps, in terms of the filters, the open session and its time; and that it touches one session only |
| `Klockstat.AlternatingExitsAgree` | `examples/bcc-libbpf-tools-main/klockstat.bpf.c:415-740` | threads that alternate meet that condition |
| `Klockstat.NestedEntriesBreakRefinement` | `examples/bcc-libbpf-tools-main/klockstat.bpf.c:415-438` | a run of one thread whose entries nest, which does not meet that condition and after which the two families differ |
| `Klockstat.HoldersAreOpenSessions` | `examples/bcc-libbpf-tools-main/klockstat.bpf.c:84-154` | after any operations `lockholder_map` holds exactly the open sessions, with their start, stack and acquisition |
| `Klockstat.BumpSummarises` | `examples/bcc-libbpf-tools-main/klockstat.bpf.c:187-211` | one update keeps count, sum, true maximum and its first owner |
| `Klockstat.StatsSummariseSessions` | `examples/bcc-libbpf-tools-main/klockstat.bpf.c:72-235` | after any run a thread (with per_thread) or a stack (without) has statistics exactly when a finished session is the thread's, or started with the stack, and they summarise those sessions |
| `Klockstat.KprobeStatsSummariseSessions` | `examples/bcc-libbpf-tools-main/klockstat.bpf.c:72-740` | the same of the kprobe programs over every interleaving of alternating threads |
| `Klockstat.UseIsAccounted` | `examples/bcc-libbpf-tools-main/klockstat.bpf.c:84-740` | a traced use of a lock, by any of its functions and from any state, is accounted as one session with its own stack and times exactly when the function got the lock and the stack id is no error; otherwise the maps stay |
| `Klockstat.TracedExactly` | `examples/bcc-libbpf-tools-main/klockstat.bpf.c:84-99` | a lock operation is traced exactly when lock, process id and thread id are among those asked for |
| `Klockstat.LocksByThread` | `examples/bcc-libbpf-tools-main/klockstat.bpf.c:415-438` | the lock kept for a thread id is set by the entries of that thread, removed by its exits, and changed by nothing else |
| `KlockstatRace.AloneIsAccount` | `examples/bcc-libbpf-tools-main/klockstat.bpf.c:156-212` | undisturbed, the atomic steps add up to the serial `account` |
| `KlockstatRace.EveryInterleaving` | `examples/bcc-libbpf-tools-main/klockstat.bpf.c:156-212` | in every state of every schedule totals are the deltas already added and each maximum is the first one or a delta already added |
| `KlockstatRace.MaxWithinTotal` | `examples/bcc-libbpf-tools-main/klockstat.bpf.c:187-211` | while sums stay below 2^64 no maximum exceeds its total |
| `KlockstatRace.CountsStayClose` | `examples/bcc-libbpf-tools-main/klockstat.bpf.c:187-211` | the held count is at most the acquired count, which exceeds it by at most the calls in flight |
| `KlockstatMax.MaximaCoverExactly` | `examples/bcc-libbpf-tools-main/klockstat.bpf.c:187-211` | for every schedule, in every state both maxima are at least all deltas written so far if and only if no write lowers a maximum |
| `KlockstatMax.UnloweredMaxIsTrue` | `examples/bcc-libbpf-tools-main/klockstat.bpf.c:187-211` | without a lowering write each maximum ends as the true one, however the calls overlapped |
| `KlockstatMax.FieldsOfLastWriters` | `examples/bcc-libbpf-tools-main/klockstat.bpf.c:187-211` | in every state of every schedule each field of a maximum is that of the call that wrote it last |
| `KlockstatMax.OwnerExactly` | `examples/bcc-libbpf-tools-main/klockstat.bpf.c:187-211` | with no update under way and no lowering write, the maximum is true and named by one call that attains it if and only if the last writers of its fields are like one call |
| `KlockstatMax.CrossingTearsTheOwner` | `examples/bcc-libbpf-tools-main/klockstat.bpf.c:187-211` | a schedule without a lowering write after which task and lock are of different calls |
| `KlockstatMax.UnracedNeverLowers` | `examples/bcc-libbpf-tools-main/klockstat.bpf.c:187-211` | calls that do not overlap in the update of a maximum never lower it |
| `KlockstatMax.UnracedMaxIsTrue` | `examples/bcc-libbpf-tools-main/klockstat.bpf.c:187-211` | without overlap in one maximum it ends as the true maximum, with an owner that attains it |
| `KlockstatMax.RaceLosesTheMaximum` | `examples/bcc-libbpf-tools-main/klockstat.bpf.c:191-196` | two calls on one key after which the larger delta is forgotten, by a write that lowers the maximum |
| `KsnoopStack.StackTellsTruth` | `examples/bcc-libbpf-tools-main/ksnoop.bpf.c:87-139` | from any stack with room, nested calls learn their own function and real neighbour, and leave the stack below as it was |
| `KsnoopStack.TooDeepIsRefused` | `examples/bcc-libbpf-tools-main/ksnoop.bpf.c:93-94` | calls nested deeper have an entry refused |
| `KsnoopStack.StackExact` | `examples/bcc-libbpf-tools-main/ksnoop.bpf.c:87-139` | from an empty stack every probe learns the truth if and only if calls nest at most 15 deep |
| `KsnoopStack.CutShort` | `examples/bcc-libbpf-tools-main/ksnoop.bpf.c:87-139` | a run that is cut short has learnt a prefix of it |
| `KsnoopStack.TasksDoNotInterfere` | `examples/bcc-libbpf-tools-main/ksnoop.bpf.c:74-85` | each task's stack is what its own probes make it, however tasks interleave |
| `Ksnoop.PassKeepsData` | `examples/bcc-libbpf-tools-main/ksnoop.bpf.c:329-432` | every pass, also one that appends, keeps slices recorded and apart and the earlier data in place |
| `Ksnoop.PassTiles` | `examples/bcc-libbpf-tools-main/ksnoop.bpf.c:329-432` | from a cleared record the copied slices tile the buffer in index order, and the pass is rejected exactly when an evaluated predicate fails |
| `Ksnoop.ClearedTiles` | `examples/bcc-libbpf-tools-main/ksnoop.bpf.c:60-65` | clearing a record gives the start of such a tiling |
| `KsnoopRun.Program.ClearTrace` | `examples/bcc-libbpf-tools-main/ksnoop.bpf.c:60-65` | data, flags and length of one record are wiped, and no other record changes |
| `KsnoopRun.Program.MoveStack` | `examples/bcc-libbpf-tools-main/ksnoop.bpf.c:74-139` | the push or pop, the slot read beside the top, and the refusals |
| `KsnoopRun.Program.DoGetTrace` | `examples/bcc-libbpf-tools-main/ksnoop.bpf.c:67-197` | which record passes the gate, and in which state |
| `KsnoopRun.Program.DoOutputTrace` | `examples/bcc-libbpf-tools-main/ksnoop.bpf.c:199-225` | an empty record is wiped, one marked STASH is kept as STASHED, any other is emitted and wiped |
| `KsnoopRun.Program.ScanCallers` | `examples/bcc-libbpf-tools-main/ksnoop.bpf.c:241-256` | stashed callers are output from the bottom of the stack up |
| `KsnoopRun.Program.ScanCallees` | `examples/bcc-libbpf-tools-main/ksnoop.bpf.c:257-275` | stashed callees are output from index 16 down, whatever the word past the array is |
| `KsnoopRun.Program.DoArguments` | `examples/bcc-libbpf-tools-main/ksnoop.bpf.c:329-432` | the argument loop leaves the record the specification describes, and says whether a predicate failed |
| `KsnoopRun.Program.DoFire` | `examples/bcc-libbpf-tools-main/ksnoop.bpf.c:300-442` | one firing of a probe, from the stack to the output |
| `KsnoopRun.Program.DoOutput` | `examples/bcc-libbpf-tools-main/ksnoop.bpf.c:434-439` | ends of a chain first output what was stashed along it |
| `KsnoopEmits.EntryOutputsCallers` | `examples/bcc-libbpf-tools-main/ksnoop.bpf.c:241-277` | at the end of a chain an entry outputs the longest run of its task's stashed callers, in stack order, then its own record, unless another task's data stops it |
| `KsnoopEmits.ReturnOutputsCallees` | `examples/bcc-libbpf-tools-main/ksnoop.bpf.c:257-277` | a return does so for the nonzero words from index 16 down to 1; what was emitted on the way is not emitted again |
| `KsnoopEmits.EachCallerOnce` | `examples/bcc-libbpf-tools-main/ksnoop.bpf.c:246-256` | with no function twice on the stack and no record marked STASH each caller reached is emitted once, with its record as it was |
| `KsnoopScan.CallersScan` | `examples/bcc-libbpf-tools-main/ksnoop.bpf.c:246-256` | the scan at an entry walks the callers from the bottom up |
| `KsnoopScan.CalleesScan` | `examples/bcc-libbpf-tools-main/ksnoop.bpf.c:262-274` | the scan at a return walks the words from past the end down, passing over zeros |
| `KsnoopSafety.StashSafety` | `examples/bcc-libbpf-tools-main/ksnoop.bpf.c:141-225` | in every run a stash-mode event is emitted, and STASHED is set, only after an entry into that function that passed the pid filter and every predicate that could be evaluated, recorded data, and was not cleared since |
| `KsnoopSafety.StashPassedExactly` | `examples/bcc-libbpf-tools-main/ksnoop.bpf.c:353-397` | in every run, the entries behind what is emitted or marked STASHED passed all their predicates if and only if all were tested: no pointer under one was unreadable |
| `KsnoopSafety.StashesExactly` | `examples/bcc-libbpf-tools-main/ksnoop.bpf.c:300-442` | an entry let into a record marked STASH, not at the end of a chain, is stashed if and only if it passes the pid filter and every predicate that could be evaluated, and some data is copied |
| `KsnoopSafety.UntestedEntry` | `examples/bcc-libbpf-tools-main/ksnoop.bpf.c:358-366` | an entry whose only predicate is never tested, as its pointer faults, and which counts as one that passed |
| `KsnoopArgs.PredicateToValue` | `examples/bcc-libbpf-tools-main/ksnoop.c:255-304` | the predicate bits and the number made of a predicate, or a failure |
| `KsnoopArgs.AcceptedExactly` | `examples/bcc-libbpf-tools-main/ksnoop.c:268-304` | the six comparisons are accepted of pointers and of values of 1 to 8 bytes, and of nothing else |
| `KsnoopArgs.TestsNothingExactly` | `examples/bcc-libbpf-tools-main/ksnoop.c:278-298` | of the strings accepted, exactly `!` and `=` test nothing |
| `KsnoopArgs.RejectedExactly` | `examples/bcc-libbpf-tools-main/ksnoop.bpf.c:341-402` | an argument ends the pass exactly when it is one of the probe's direction, its value can be read, and the comparison that the user wrote is false of it as an unsigned number |
| `KsnoopArgs.PassRejectedExactly` | `examples/bcc-libbpf-tools-main/ksnoop.bpf.c:329-402` | a pass over a cleared record is rejected if and only if that is so of some argument |
| `KsnoopArgs.SignedExactly` | `examples/bcc-libbpf-tools-main/ksnoop.c:276-298` | for signed values the test is the comparison written if and only if it is for equality or both have the same sign |
| `KsnoopArgs.ArgumentRecords` | `examples/bcc-libbpf-tools-main/ksnoop.bpf.c:341-432` | what one argument writes: its value, its error, or its bytes at the end of the recorded data; and that nothing else changes |
| `KsnoopArgs.FullExactly` | `examples/bcc-libbpf-tools-main/ksnoop.bpf.c:410-411` | the loop stops for a full buffer exactly when at most MAX_TRACE_DATA bytes are left for an argument that passed |
| `KsnoopChain.MidChainStashes` | `examples/bcc-libbpf-tools-main/ksnoop.bpf.c:141-225` | in the middle of a chain an entry, and a return outside stash mode, leaves its data stashed, with its task, time and direction, if and only if its neighbour matches, the filter and all predicates that could be evaluated pass, and data was copied |
| `KsnoopChain.MidChainReturns` | `examples/bcc-libbpf-tools-main/ksnoop.bpf.c:151-213` | a return in stash mode keeps what its entry stashed, unless a test fails |
| `KsnoopChain.MidChainEmitsNothing` | `examples/bcc-libbpf-tools-main/ksnoop.bpf.c:163-213` | in every run from loading, no entry into a function after which another is named, and no return from one before which another is named, emits anything |
| `KsnoopChain.PlainEmits` | `examples/bcc-libbpf-tools-main/ksnoop.bpf.c:199-225` | outside chains and stash mode a probe emits its data at once, exactly when it passed and data was copied |
| `KsnoopChain.StashReturns` | `examples/bcc-libbpf-tools-main/ksnoop.bpf.c:151-225` | a return in stash mode, outside chains, emits what its entry stashed with its own data after it, unless there is nothing stashed or a test fails |
| `KsnoopChain.ChainIsReported` | `examples/bcc-libbpf-tools-main/ksnoop.bpf.c:67-277` | a task that goes down a chain of up to 15 functions, with entries that pass: nothing is emitted before the last function is entered, and then one event for each function, in order, with the data of its own entry |
| `KsnoopSafety.FireKeeps` | `examples/bcc-libbpf-tools-main/ksnoop.bpf.c:300-442` | one firing keeps that invariant |
| `KsnoopSafety.BufferSafety` | `examples/bcc-libbpf-tools-main/ksnoop.bpf.c:404-432` | in every reachable state the length stays below the buffer's, slices lie in the recorded part and apart, and no empty event is emitted |
| `KsnoopSafety.ProbeLearnsTruth` | `examples/bcc-libbpf-tools-main/ksnoop.bpf.c:67-139` | in a whole run of many tasks the k-th probe learns its real function and neighbour |
| `KsnoopSafety.GateTestsRealNeighbour` | `examples/bcc-libbpf-tools-main/ksnoop.bpf.c:141-197` | the gate opens exactly when the real caller or callee is the one named in the record |
| `KsnoopSafety.RunKeepsSpecs` | `examples/bcc-libbpf-tools-main/ksnoop.bpf.c:300-442` | no run adds, removes or re-specifies a record |
| `KsnoopSetup.ParseTraces` | `examples/bcc-libbpf-tools-main/ksnoop.c:639-665` | the chain of previous and next functions, or a failure exactly when there are too many traces or one does not parse |
| `KsnoopSetup.ActivateStash` | `examples/bcc-libbpf-tools-main/ksnoop.c:573-625` | stash mode is on exactly when there is a predicate, an entry value and a return value |
| `KsnoopSetup.ChainFollowsCalls` | `examples/bcc-libbpf-tools-main/ksnoop.c:655-663` | with that chain an entry is traced exactly when it is the first function or comes directly from the one before it |
| `KsnoopSetup.ParsedChainIsReported` | `examples/bcc-libbpf-tools-main/ksnoop.c:655-663` | with that chain, a task that goes down it with entries that pass is reported by one event for each function, in order |
| `ExtractorMap.CreatePreprocessorMap` | `src/function-extractor.py:65-134` | the branches of a file, or a failure exactly when a directive lacks its word or its opening |
| `ExtractorLines.RegionsExactly` | `src/function-extractor.py:75-134` | for every file that the scan gets through, the regions are exactly the branches of its lines: from a line that begins one to the line before the first `#elif`, `#else` or `#endif` of its level, with its own word, or for an `#else` the word of the branch before it |
| `ExtractorLines.FailsExactly` | `src/function-extractor.py:75-134` | the scan raises an exception if and only if a directive lacks its word or nothing is open that it could end |
| `ExtractorLines.ClassifyExactly` | `src/function-extractor.py:77-125` | the text of each directive: the word at the start of the line, a space, and then the first word that blanks separate |
| `ExtractorLines.MalformedExactly` | `src/function-extractor.py:77-125` | a directive lacks its word exactly when no word follows |
| `ExtractorLaminar.RegionsAreLaminar` | `src/function-extractor.py:75-134` | for every file that the scan gets through, regions are disjoint or strictly nested, in increasing order of end |
| `ExtractorLaminar.ContainedInPreprocessor` | `src/function-extractor.py:137-143` | the first region that contains the range, and none exactly when no region does |
| `ExtractorLaminar.FirstIsInnermost` | `src/function-extractor.py:137-143` | every other region that contains the range strictly encloses that one |
| `ExtractorMeaning.ExtractAndDump` | `src/function-extractor.py:166-200` | the lines written are the guarded comment and range, the comment with its blanks and line breaks |
| `ExtractorCpp.AgreeExactly` | `src/function-extractor.py:77-125` | on text and on `#ifdef`, `#ifndef`, `#else` and `#endif` the extractor reads what a preprocessor reads if and only if the directive is at column 0, has one space after its word, and only blanks end the name |
| `ExtractorSeen.SameViewsExactly` | `src/function-extractor.py:75-125` | a file of such lines is read alike by both if and only if every directive in it is so spelled |
| `ExtractorCpp.NoFalseDirective` | `src/function-extractor.py:85-125` | what the extractor takes for a directive is one |
| `ExtractorMeaning.CommentIsText` | `src/function-extractor.py:188-189` | the comment holds no directive if and only if no line of the file name makes one |
| `ExtractorMeaning.PathIsText` | `src/function-extractor.py:188-189` | so for every name without a line break that does not start with a blank or a `#` |
| `ExtractorSeen.GuardOfRange` | `src/function-extractor.py:173-180` | where the directives seen are well nested, the guard is the condition kept for the innermost conditional seen around the range |
| `ExtractorMeaning.GuardIsRead` | `src/function-extractor.py:75-183` | however the extractor reads the file, the guard line of a range is an `#ifdef` or `#ifndef` of a macro to the preprocessor |
| `ExtractorMeaning.GuardSpells` | `src/function-extractor.py:183-185` | the guard line spells the condition of its region, also that of an `#if` |
| `ExtractorMeaning.BlockMeaning` | `src/function-extractor.py:166-200` | alone in a file the block is well nested and keeps its text exactly when its guard holds |
| `ExtractorMeaning.PreservedExactly` | `src/function-extractor.py:65-200` | for any file: whenever the range is compiled the block keeps the same text, for all sets of macros, if and only if the range is never compiled, has no guard, or has one that asks what a conditional around it asks |
| `ExtractorMeaning.EquivalentExactly` | `src/function-extractor.py:65-200` | for any file: block and range keep the same text for all sets of macros, also none, if and only if there is neither conditional nor guard, or all conditionals ask what the guard asks |
| `ExtractorMeaning.UnseenClosingsPreserve` | `src/function-extractor.py:107-125` | where no closing line is seen all text is preserved, and the block is equivalent exactly outside all conditionals |
| `ExtractorSeen.ExtractionPreservesMeaning` | `src/function-extractor.py:65-200` | where every directive is seen, text is preserved if and only if the range is never compiled or not in the `#else` of an `#ifndef` |
| `ExtractorSeen.EquivalentWhenSeen` | `src/function-extractor.py:65-200` | there, the block is equivalent if and only if all conditionals around the range ask the same and it is not in the `#else` of an `#ifndef` |
| `ExtractorSeen.UnseenElseLosesText` | `src/function-extractor.py:116-122` | where the directives seen are well nested but miss the `#else` of the innermost conditional, text is lost that some set of macros compiles |
| `ExtractorSeen.ElseFileLosesText` | `src/function-extractor.py:116-122` | in every file of an `#ifdef`, a line, an `#else` with anything but a space after it, a line and an `#endif`, the second line is lost |
| `ExtractorSeen.HiddenElseLosesText` | `src/function-extractor.py:116-122` | one such file, line by line |
| `ExtractorDefines.DefineWriter.AddDefines` | `src/function-extractor.py:288-330` | what one file adds to the output, and a duplicate table that holds exactly the names met twice |
| `ExtractorDefines.TablesExactly` | `src/function-extractor.py:304-313` | the table of names holds those that some line defines, and the duplicate table those that two or more lines of all files define |
| `ExtractorDefines.BindIsFirst` | `src/function-extractor.py:301-313` | binding only what is not yet bound binds every macro to its first definition |
| `ExtractorDefines.WrittenMeaning` | `src/function-extractor.py:294-330` | preprocessing what one file adds binds its definitions in order where nothing is bound yet |
| `ExtractorDefines.AddDefinesMeaning` | `src/function-extractor.py:288-330` | over any list of clean files the output is balanced and binds each macro to its first definition |
| `ExtractorDefines.BalancedExactly` | `src/function-extractor.py:288-330` | over any list of files no `#endif` is unmatched, and the output is balanced if and only if continued definitions end before others start and before their file ends |
| `ExtractorDefines.WrittenBalance` | `src/function-extractor.py:294-330` | from any state of the preprocessor a file adds exactly the conditionals it leaves open |
| `ExtractorDefines.BlankInsideUnbalances` | `src/function-extractor.py:299-300` | a file whose blank line inside a continued definition leaves an `#ifndef` open |
| `Execsnoop.Event.ReadUserStr` | `examples/bcc-libbpf-tools-main/execsnoop.bpf.c:94-96` | a read writes at most 128 bytes, cut and terminated, and nothing outside them |
| `Execsnoop.CutExactly` | `examples/bcc-libbpf-tools-main/execsnoop.bpf.c:72-96` | of a string the whole is kept, or its first 127 characters |
| `Execsnoop.Event.Pack` | `examples/bcc-libbpf-tools-main/execsnoop.bpf.c:72-108` | the file name and the arguments up to the first null or unreadable one fill the buffer in order, every write lies inside it, and the count says whether more exist |
| `Execsnoop.PrintArgs` | `examples/bcc-libbpf-tools-main/execsnoop.c:194-227` | the characters printed for any buffer and counts |
| `Execsnoop.UnquotedOutput` | `examples/bcc-libbpf-tools-main/execsnoop.c:194-227` | printing a packed event gives each stored argument and a space, and dots exactly when all were stored and one more exists |
| `Execsnoop.QuotedOutput` | `examples/bcc-libbpf-tools-main/execsnoop.c:194-227` | the same in quotes, with an opening quote before the dots |
| `Execsnoop.ReadEscaped` | `examples/bcc-libbpf-tools-main/execsnoop.c:174-192` | an escaped argument reads back if and only if no backslash in it is ambiguous |
| `Execsnoop.QuotedRoundTrip` | `examples/bcc-libbpf-tools-main/execsnoop.c:174-227` | the quoted list reads back to the stored arguments if and only if none of them is ambiguous |
| `Ksyms.NamesReadBack` | `examples/bcc-libbpf-tools-main/trace_helpers.c:76-82` | every name reads back from the arena at its offset, whatever was added later |
| `Ksyms.SortSorts` | `examples/bcc-libbpf-tools-main/trace_helpers.c:88-95` | sorting by address and name gives an ordered permutation |
| `Ksyms.OrderedExactly` | `examples/bcc-libbpf-tools-main/trace_helpers.c:88-95` | a table is ordered exactly when addresses increase and names at one address are in the order of a dictionary |
| `Ksyms.OrderedIsUnique` | `examples/bcc-libbpf-tools-main/trace_helpers.c:88-95` | two ordered tables of the same entries are equal, so the choice of sort does not matter |
| `Ksyms.StrLeTransitive` | `examples/bcc-libbpf-tools-main/trace_helpers.c:92-93` | string comparison is transitive |
| `KsymsTable.Grown` | `examples/bcc-libbpf-tools-main/trace_helpers.c:66-68` | growing always makes room |
| `KsymsTable.GrowthAmortises` | `examples/bcc-libbpf-tools-main/trace_helpers.c:65-74` | over any number of additions the capacity and the entries moved stay within the amortised bound |
| `KsymsTable.GrowsWhenFull` | `examples/bcc-libbpf-tools-main/trace_helpers.c:65-74` | the array grows exactly when it is full, and then all entries are moved |
| `KsymsTable.MovesAreLinear` | `examples/bcc-libbpf-tools-main/trace_helpers.c:65-74` | after n additions there is room for all, and at most 5n entries were moved |
| `KsymsTable.Table.AddSymbol` | `examples/bcc-libbpf-tools-main/trace_helpers.c:47-86` | one more symbol at the end, with all names and offsets intact through both moves |
| `KsymsTable.Table.FixUp` | `examples/bcc-libbpf-tools-main/trace_helpers.c:124-126` | with pointers in place of offsets the table reads as the list of symbols added |
| `KsymsTable.Table.QSort` | `examples/bcc-libbpf-tools-main/trace_helpers.c:128` | the table becomes the ordered permutation of itself |
| `KsymsTable.Load` | `examples/bcc-libbpf-tools-main/trace_helpers.c:97-131` | the loaded table is the ordered permutation of the symbols read, built with at most 5n moves |
| `KsymsTable.Table.MapAddr` | `examples/bcc-libbpf-tools-main/trace_helpers.c:149-169` | the last entry whose address is at most the argument, and none exactly when there is none |
| `KsymsTable.SearchIsNearest` | `examples/bcc-libbpf-tools-main/trace_helpers.c:149-169` | so the search answers for the symbols read, in any order: none exactly when all lie above, otherwise the nearest below |
| `Dsos.TranslationInverts` | `examples/bcc-libbpf-tools-main/trace_helpers.c:376-383` | translating an address into its file and back gives the address, modulo 2^64, whatever wraps |
| `Dsos.LiesAtExactly` | `examples/bcc-libbpf-tools-main/trace_helpers.c:376-384` | for shared objects and the vdso the place in the file is `addr - start + file_off + sh_addr - sh_offset`, up to a multiple of 2^64, and for all other kinds it is the address itself |
| `Dsos.FindDso` | `examples/bcc-libbpf-tools-main/trace_helpers.c:364-391` | the first mapping that strictly contains the address, and its place in the file by the kind of the file; none exactly when no mapping does |
| `Dsos.Dso.FindSym` | `examples/bcc-libbpf-tools-main/trace_helpers.c:617-644` | the last symbol at or below an offset; its entry alone changes, by the distance into it |
| `Dsos.MapAddrDso` | `examples/bcc-libbpf-tools-main/trace_helpers.c:617-644` | the last symbol at or below that place with the distance to it, which leads back to the address; none exactly when there is no mapping or all symbols lie above |
| `Log2.Log2` | `examples/bcc-libbpf-tools-main/bits.bpf.h:8-19` | the exact floor of the logarithm for every 32-bit value, 0 for 0 |
| `Log2.Log2l` | `examples/bcc-libbpf-tools-main/bits.bpf.h:21-29` | the same for every 64-bit value |
| `Log2.FloorLog2Exact` | `examples/bcc-libbpf-tools-main/bits.bpf.h:8-29` | the specification is the exponent of the largest power of two that is at most the value |
| `FsDist.RowsPartition` | `examples/bcc-libbpf-tools-main/fsdist.bpf.c:61-64` | every value lies in exactly one printed range, and that is the slot it is counted in |
| `FsDist.Program.ProbeEntry` | `examples/bcc-libbpf-tools-main/fsdist.bpf.c:23-36` | a traced entry is remembered as its thread's start |
| `FsDist.Program.ProbeReturn` | `examples/bcc-libbpf-tools-main/fsdist.bpf.c:38-69` | counters stay the number, modulo 2^32, of returns whose nonnegative latency lies in the printed range, and the start is forgotten |
| `FsDist.Program.CopyHist` | `examples/bcc-libbpf-tools-main/fsdist.c:216` | a copy shows those numbers since the last clearing |
| `FsDist.Program.ZeroHist` | `examples/bcc-libbpf-tools-main/fsdist.c:218` | clearing starts the numbers of one operation again and leaves the others |
| `FsDist.Program.PrintHists` | `examples/bcc-libbpf-tools-main/fsdist.c:210-226` | the printed tables show, row by row, what was counted since the last ones, and nothing stays behind |
| `FsDist.PrintLog2Hist` | `examples/bcc-libbpf-tools-main/trace_helpers.c:914-951` | the rows up to the last nonzero slot, with their ranges; every row left out is zero |
| `FsDist.ReturnsAreConserved` | `examples/bcc-libbpf-tools-main/fsdist.c:215-219` | every return is shown once, still waiting or lost, and exactly those between a copy and its clearing are lost |
| `FsDist.CallIsCounted` | `examples/bcc-libbpf-tools-main/fsdist.bpf.c:23-69` | a traced call, whatever happens in other threads meanwhile, is counted once, in the row of its time in milliseconds or microseconds, and not if the clock went back |
| `Tar.TarFileStart` | `examples/bcc-libbpf-tools-main/btf_helpers.c:154-163` | content and length of the first file of the name, NULL exactly when there is none, and the walk ends |
| `Tar.NameReadsBack` | `examples/bcc-libbpf-tools-main/btf_helpers.c:158` | a name that fills its field runs on, but matches no shorter name |
| `Tar.SizeReadsBack` | `examples/bcc-libbpf-tools-main/btf_helpers.c:157` | the octal size reads back, with or without blanks before it |
| `Tar.Skip` | `examples/bcc-libbpf-tools-main/btf_helpers.c:160` | the walk steps over header and content in whole blocks |
| `Tar.ArchivesAreLaidOut` | `examples/bcc-libbpf-tools-main/btf_helpers.c:133-152` | every archive written by a ustar writer, with anything after it, is laid out as the walk expects |
| `TcpStates.Program.HandleSetState` | `examples/bcc-libbpf-tools-main/tcpstates.bpf.c:45-100` | filters, the event reported, and the timestamp kept or dropped |
| `TcpStates.EventsSayTransitions` | `examples/bcc-libbpf-tools-main/tcpstates.bpf.c:45-100` | every run reports exactly the transitions asked for, in order, each with its own socket, ports, states and time |
| `TcpStates.SocketsDoNotInterfere` | `examples/bcc-libbpf-tools-main/tcpstates.bpf.c:66-97` | however sockets interleave, each one's events are those of its own transitions |
| `TcpStates.SessionTime` | `examples/bcc-libbpf-tools-main/tcpstates.bpf.c:66-97` | the durations of one use of a socket add up to its length, short by at most 999 ns for each |
| `TcpStates.SessionsAreTimed` | `examples/bcc-libbpf-tools-main/tcpstates.bpf.c:66-97` | the same over every run of any sockets, for uses between traced closes, and the first event of a use reports no time |
| `TcpStates.NoTimeIsCarriedExactly` | `examples/bcc-libbpf-tools-main/tcpstates.bpf.c:55-97` | for any filters, all durations stay within real uses if and only if no traced transition is measured, by a microsecond or more, across a close that the filters dropped |
| `TcpStates.ClosesSeenCarryNothing` | `examples/bcc-libbpf-tools-main/tcpstates.bpf.c:55-97` | filters that see every close of a use they saw anything of carry no time |

## Left out

- ksnoop: a member's offset is part of the address an input describes, the `cpu` field is not kept, and the branch for a buffer offset past the end is not modelled because it is never reached.
- ksnoop user space: BTF lookups and the scanning of names and numbers; a parsed trace is an input of `ParseTraces` and `ActivateStash`, and a predicate comes to `PredicateToValue` as its operator characters and its number.
- KsnoopStack.StackExact: says nothing about what is learnt once an entry has been refused for depth, where the return of that call still pops.
- KsnoopSafety.StashSafety: stash mode on one CPU; two CPUs that share a record are not modelled.
- KlockstatRace.EveryInterleaving: starts with the key present; two first insertions of one key, of which one replaces the other, are not modelled.
- Klockstat.Program.Account: a full map and a failed lookup after the insertion are not modelled, and the printed name of a stack is not either.
- ExtractorCpp.AgreeExactly: comments and lines continued by a backslash are not looked into, so a directive inside a comment counts as one, and the macros do not change within the file.
- ExtractorMeaning.PreservedExactly: up to the end of the range the file has only `#ifdef`, `#ifndef`, `#else` and `#endif`; `#if` expressions and `#elif` are outside the preprocessor model, as their recorded tags do not follow the condition. The laminar regions cover them.
- ExtractorMeaning.ExtractAndDump: the file ends with a line break, so `#endif` starts a line; `int` of the line numbers and the missing file are not modelled.
- ExtractorDefines.DefineWriter.AddDefines: lines are given as blank, defining, or other, with their words found; names are object-like and every line ends with a line break.
- The extractor's bookkeeping around these parts: reading the call graph and the JSON files, choosing functions, copying headers and Makefiles, map definitions. Each function of it is a loop over a dictionary with one condition.
- Execsnoop.Event.Pack: the filters on cgroup and user and the map of events come before the model; the reads of the vector itself do not fail.
- KsymsTable.Load: parsing of `/proc/kallsyms`, failing allocations and capacities beyond an `int` are not modelled; `qsort` is any sort.
- Dsos.Dso.FindSym: the symbol table is loaded; how libelf, perf maps and the vdso image fill it is not modelled, and a failing load finds nothing.
- FsDist.Program.ProbeReturn: a handler is one step; its counters are added atomically and its map entry belongs to the thread.
- FsDist.Program.PrintHists: as a method it runs with no probe between its steps; what probes between them cost is stated over the steps themselves, in `ReturnsAreConserved`.
- FsDist.PrintLog2Hist: the bars of stars and the column widths are not modelled.
- Tar.TarFileStart: the image is laid out as ustar with an unsigned octal size; names are looked up by the name field alone, without the prefix field, as the code does.
- TcpStates.Program.HandleSetState: the addresses, the command name and the pid of an event are not modelled; times do not wrap.
- hardirqs, softirqs and the cilium programs are not modelled.
