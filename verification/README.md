# PRoot: a model of its state machines, compilers and indexes

PRoot runs programs in another root file system without privileges: it follows them with ptrace(2)
and rewrites their system calls. Below the I/O it is made of protocols, small compilers, search
structures and emulations. This project models those parts, with the kernel, the file tree and the
memory of the traced programs as small automata or maps, and proves what they are for. Code that
updates an object step by step is a class or a method with loops here, proved against functions on
values; the properties are lemmas about these functions, over all inputs and all runs.

| files | subject |
|---|---|
| `Event.dfy` | the stops of a traced process under both kernel stop orders, and the two stages of a system call |
| `Chain.dfy` | chained system calls and the restoration of registers |
| `Seccomp.dfy`, `Bits.dfy` | the seccomp filter generator against a classic BPF interpreter |
| `LoadInfo.dfy`, `LoadScript.dfy`, `Loader.dfy`, `LoadPlacement.dfy` | ELF headers to mappings, mappings to a load script, the loader that interprets it, and all of them end to end |
| `AuxVectors.dfy` | the auxiliary vectors of a new program: how they are found, edited, moved and patched |
| `Paths.dfy`, `Bindings.dfy` | path comparison and prefix substitution; the two sorted binding lists, translation and its inverse |
| `Canon.dfy`, `Canonicalization.dfy` | a resolver on components, and the string algorithm that refines it |
| `Link2Symlink.dfy`, `HardLinks.dfy`, `LinkRuns.dfy`, `HostTree.dfy` | emulated hard links against real ones |
| `Ptrace.dfy`, `PtraceCalls.dfy`, `Tracees.dfy` | emulated ptrace(2) and wait(2): ptracers, ptracees, zombies |
| `SysvMsg.dfy`, `SysvAnswers.dfy`, `SysvWakeups.dfy`, `SysvNamespace.dfy` | System V message queues with blocked receivers, and which of them may be left asleep |
| `TraceeMemory.dfy`, `Xpointers.dfy` | access to the memory of a tracee; arrays of pointers fetched from it and pushed to its stack |
| `Shebang.dfy`, `Interpreters.dfy` | the first line of a script; its expansion over nested interpreters |
| `Heap.dfy` | brk(2) emulated with mmap(2) and mremap(2) |
| `FakeId0.dfy` | the emulated user and group identities |
| `Common.dfy` | options, bytes and machine words |

## Where the code does not do what it is for

The model follows the code. Each property that is false of it in some cases is given with the exact
condition under which it holds, and that condition, or a lemma beside it, shows it fail.

- The length test of `end_arch_section` computes with the 16-bit `len` of `sock_fprog`: it fails
  exactly when the body of a section, after its header of four statements, starts at statement 65536 or
  beyond, so already for a section that starts at 65532 (`Seccomp.ProgramFilter.SetSeccompFilters`,
  `Seccomp.LongFilterRefused`).
- No assertion of the event loop can fail if and only if the filter traces no fork-like system call
  (`Event.SafeIffForkFree`, `Event.ForkTracedAbortsNew`, `Event.ForkTracedAbortsOld`). No filter list of
  the repository requests one: the assertions hold of the program as it is, and the condition concerns
  extensions still to be written.
- A call that is not stopped at its exit leaves its changed arguments in the registers of the tracee; it
  goes unnoticed if and only if nothing was put in them (`Chain.UnstoppedUnawareIff`).
- A result forced without any chained system call is kept for a later chain
  (`Chain.ForcedWithoutChainLeaks`); src/extension/kompat/kompat.c:684-699 does that when no flag is set.
- `clear` of the loader zeroes bytes past the end when the start is misaligned and the end is in the
  same word (`Loader.ClearExactIff`); the loader only asks for page ends (`Loader.ClearToPageEnd`). A
  program whose zeroed tail lies on a page the file does not back is killed (`Loader.LoadSegments`).
- A program is told the right address of its headers if and only if its first page is the first one of
  its file (`LoadPlacement.HeadersInPlaceIff`).
- Detranslating a translated path gives it back if and only if, where the result is in the rootfs, the
  host side of its binding is the rootfs followed by the guest side; and elsewhere, the binding found on
  the host side is the same one if it substitutes anything, or else nothing was substituted on the way
  (`Bindings.RoundTripIff`). It fails for bindings whose host sides are nested, for a directory of the
  rootfs bound elsewhere, and for a rootfs inside a directory that is bound to itself
  (`Bindings.NestedHostsFail`, `Bindings.InsideRootfsFails`, `Bindings.RootfsInsideFails`). A substitution
  that does not fit PATH_MAX leaves the path as it was and reports success
  (`Bindings.BindingLists.SubstituteBinding`).
- A path may be refused with ELOOP although it can be resolved, only where more than 20 links have to be
  followed (`Canon.ResolversAgree`).
- The count of an emulated hard link is lost by a link beyond 9999 names, by a name that collides
  with an intermediate one, by a rename between two names of one file, and by a host that refuses the
  call after the decrement (`HardLinks.LinkKeepsIff`, `HardLinks.UnlinkKeepsIff`,
  `HardLinks.RenameKeepsIff`, `LinkRuns.DottedNameCollides`).
- With a directory for links, the length test of a first link measures the directories of the file in
  place of its name, and so refuses short names that are deep in the tree (`HardLinks.LengthTestIff`,
  `HardLinks.DeepFileRefused`).
- PTRACE_TRACEME by a process without a parent follows a null pointer (`Ptrace.OrphanTraceMe`), and
  a third process that attaches to a child before the event of its creation breaks an assertion
  (`Ptrace.EarlyAttachFails`); nothing else fails (`Ptrace.StepValid`).
- A queue removed between a wake-up and its retry breaks the assertion of the retry
  (`SysvMsg.RetryAfterRemove`); an identifier names its queue only below index 4095 and before its
  generation wraps (`SysvMsg.IdNamesQueue`): half of the queues made in one place are not named by their
  identifier, and an old identifier names a new queue after any multiple of 65536 (`SysvAnswers.NamedIff`,
  `SysvAnswers.IdAgainIff`).
- msgrcv(2) with a negative type takes the first message that matches, which is the first one of the lowest
  type if and only if no later one has a lower type (`SysvMsg.LowestTypeIff`,
  `SysvMsg.LowestTypePassedOver`).
- A message may stay queued with a receiver that asks for it asleep and nobody woken up. Where no retry
  answers E2BIG or EFAULT, this never happens, in any run, if and only if any two requests that wait ask
  for the same message types or for none in common (`SysvWakeups.NeverStrandedIff`,
  `SysvWakeups.AnyTypeStrands`). A retry that was the only one due leaves its message that way if and only
  if the message is too big for it or its buffer is faulty (`SysvWakeups.FailedRetryStrands`), and so does
  one that is killed before it (`SysvWakeups.KilledStrands`).
- Both ways to read a string agree if and only if the word that holds its null byte is mapped
  (`TraceeMemory.FallbackAgrees`).
- A script that ends inside its first line keeps its interpreter and its argument if and only if it has
  no argument and a blank follows the interpreter: an argument is lost, and without one so is the last
  byte of an interpreter that nothing follows (`Shebang.EndOfFileKeepsIff`, `Shebang.EndOfFile`). A line
  longer than what is read of it is cut without a word (`Shebang.CutByBuffer`).
- The tracee sees the argv[] of an expanded script if and only if the block written below its stack covers
  none of the arguments it gave (`Interpreters.ExpandShebang`, `Xpointers.OverwrittenString`).
- The vDSO is hidden from a program if and only if no such vector comes after an AT_RANDOM, or the
  release is forced (`AuxVectors.HiddenIff`).
- Where a program has no auxiliary vector at all, which the kernel never does, the loader patches what
  lies beyond the end of the list (`AuxVectors.Tracee.PatchVectors`).
- setreuid(2) and setregid(2) refuse one request that the manual quoted in the code grants
  (`FakeId0.ReAllowedIff`), and leave the saved identity alone where the real one is set on its own
  (`FakeId0.ReEffectIff`). A non-root process whose real or saved user is 0 can become any user again:
  its set of users never grows, and neither does its set of groups, if and only if no user of the process
  is root (`FakeId0.NeverGrowsIff`).

## Model

| member | source | states |
|---|---|---|
| `Seccomp.Detranslate` | src/syscall/sysnum.c:104-123 | the architecture number of a neutral one is its first slot in the table of the ABI, plus the offset of the ABI; SYSCALL_AVOIDER when it has none |
| `Seccomp.DetranslateSysnum` | src/syscall/sysnum.c:104-123 | the search loop computes that number |
| `Seccomp.SysnumList.MergeFilteredSysnums` | src/syscall/seccomp.c:431-471 | the list stays free of duplicates and requests what was requested before, plus what is merged in, flags or-ed per number |
| `Seccomp.FlagsForDistinct` | src/syscall/seccomp.c:431-471 | in a merged list the flags of an entry are all the flags requested for its number |
| `Seccomp.ProgramFilter.AddStatements` | src/syscall/seccomp.c:73-90 | statements are appended, those before are kept |
| `Seccomp.ProgramFilter.AddTraceSyscall` | src/syscall/seccomp.c:97-122 | a pair of statements that traces one number, or -ERANGE and no change for a number over 32 bits |
| `Seccomp.ProgramFilter.AddIfHandled` | src/syscall/seccomp.c:289-297 | a request without a number in the ABI adds nothing |
| `Seccomp.ProgramFilter.StartArchSection` | src/syscall/seccomp.c:159-204 | the header of a section, or -ERANGE when the jump over it does not fit |
| `Seccomp.ProgramFilter.AddAbiEntries` | src/syscall/seccomp.c:287-299 | the statements of one ABI are those of its detranslated requests, in order |
| `Seccomp.ProgramFilter.AddEntries` | src/syscall/seccomp.c:287-299 | the same over all ABIs of an architecture |
| `Seccomp.CountEntries` | src/syscall/seccomp.c:271-280 | the first pass counts exactly the pairs the second one emits |
| `Seccomp.ProgramFilter.AddArchSection` | src/syscall/seccomp.c:268-305 | one whole section, or -ERANGE exactly when it does not fit |
| `Seccomp.ProgramFilter.AddArchSections` | src/syscall/seccomp.c:268-305 | the sections of all architectures in order, or -ERANGE exactly when one does not fit where it starts |
| `Seccomp.ProgramFilter.SetSeccompFilters` | src/syscall/seccomp.c:253-328 | the compiled program is installed when every section fits, cut at the 16-bit length; the filter is freed in all cases |
| `Seccomp.FarSectionRefused` | src/syscall/seccomp.c:130-151 | a section after one of 32764 entries is refused |
| `Seccomp.LongFilterRefused` | src/syscall/seccomp.c:130-151 | so two architectures are refused together although each is accepted alone |
| `Seccomp.RunTraceAll` | src/syscall/seccomp.c:97-122 | running the pairs of a section gives the flags of the first pair for the number, or falls through |
| `Seccomp.RunSection` | src/syscall/seccomp.c:130-204 | a section decides for its architecture and otherwise jumps exactly past its own end |
| `Seccomp.RunSections` | src/syscall/seccomp.c:253-309 | any list of sections followed by anything behaves as the first section of the architecture, or as what follows |
| `Seccomp.EntrySource` | src/syscall/seccomp.c:287-299 | every emitted pair comes from a request that denotes its number |
| `Seccomp.DenotesUnique` | src/syscall/sysnum.c:104-123 | with disjoint ABIs a number denotes at most one neutral system call |
| `Seccomp.SectionMeaning` | src/syscall/seccomp.c:130-204 | a section answers TRACE with all the requested flags for the numbers of requested calls, ALLOW for all others |
| `Seccomp.FilterMeaning` | src/syscall/seccomp.c:253-309 | the program, run by a BPF interpreter on any number and architecture, answers TRACE with the flags requested by anybody, ALLOW for other numbers and KILL for unknown architectures |
| `Seccomp.ProgramFilters` | src/syscall/seccomp.c:253-328 | the same of a merged list, in terms of the requests it was merged from |
| `Seccomp.TraceValueSplits` | src/syscall/seccomp.c:97-122 | the action and the flags of the answer do not overlap |
| `Seccomp.TracedIffFirst` | src/syscall/sysnum.c:104-123 | a slot of a requested call is traced if and only if it is the first one of that call in the table |
| `Seccomp.MergeAll` | src/syscall/seccomp.c:479-512 | the list starts from the requests of PRoot and takes in those of each extension |
| `Seccomp.EnableSyscallFiltering` | src/syscall/seccomp.c:479-512 | the list compiled is the merge of those of PRoot and of every extension; a program of at most 4096 statements is installed whole, and, run by the kernel, it answers each call with the flags requested for it by anybody |
| `Seccomp.X86Accepted` | src/syscall/seccomp.c:253-328 | on x86_64, up to 680 requests always compile and are always accepted |
| `Event.EventLoop.TranslateStage` | src/syscall/syscall.c:103-184 | either stage, on the status, restart and chain fields, refines the value step |
| `Event.EventLoop.ChainNextSyscall` | src/syscall/chain.c:103-153 | one chained call less, restarted for its stops, or the end of the chain |
| `Event.EventLoop.OnSyscallStop` | src/tracee/event.c:465-541 | the handling of a syscall stop refines the value step, assertion failures included |
| `Event.EventLoop.OnSeccompStop` | src/tracee/event.c:543-608 | the handling of a seccomp stop refines the value step, assertion failures included |
| `Event.EventLoop.HandleTraceeEvent` | src/tracee/event.c:370-689 | every kind of stop refines the value step |
| `Event.EventLoop.RestartTracee` | src/tracee/event.c:706-726 | a restart uses the chosen request and forgets it; an undecided one is an assertion failure |
| `Event.InitialInvariant` | src/tracee/event.c:370-401 | the state of a new tracee satisfies the invariant of the protocol in both kernel orders |
| `Event.NextInvariant` | src/tracee/event.c:370-608 | with a filter that traces no fork-like call, one kernel step and its handling keep the invariant and no assertion fails |
| `Event.AssertionsHold` | src/tracee/event.c:491-608 | in every run of one tracee, in either kernel order, no assertion fails |
| `Event.StagesOnce` | src/syscall/syscall.c:103-184 | a filtered call has its enter stage translated exactly once; its exit stage at most once, afterwards, and exactly once when the filter asks for it |
| `Event.StagesMatchStops` | src/tracee/event.c:465-608 | no enter stage is translated at the end of a call, and no exit stage at its start |
| `Event.OrderDetected` | src/tracee/event.c:549-570 | the first seccomp stop tells the two kernel orders apart, rightly |
| `Event.SignalsHeldBack` | src/tracee/event.c:508-681 | an ordinary signal during a chain is held back and the last one is delivered by the stop that ends the chain |
| `Event.SignalStep` | src/tracee/event.c:508-681 | a signal raised outside of a chain is delivered at once, one raised during a chain takes the place of the one that is held back, the end of the chain delivers that one, and nothing else is ever delivered |
| `Event.SignalsDelivered` | src/tracee/event.c:508-681 | over every run, what was delivered and what is held back is all that was raised, in order, but for the signals that another one replaced during the same chain |
| `Event.AllDue` | src/tracee/event.c:671-681 | without a signal during a chain, all are delivered |
| `Event.SafeIffForkFree` | src/tracee/event.c:491-608 | no assertion can fail if and only if the filter traces no call that reports a fork |
| `Event.ForkTracedAbortsNew` | src/tracee/event.c:543-619 | a run in the new order that breaks an assertion once a fork-like call is traced |
| `Event.ForkTracedAbortsOld` | src/tracee/event.c:465-619 | the same in the old order |
| `Chain.Tracee.PokeRegister` | src/tracee/reg.c:217-229 | only a new value marks the registers as changed |
| `Chain.ChangedIff` | src/tracee/reg.c:217-229 | after any actions, the registers have to be written back if and only if one of them put a new value somewhere |
| `Chain.Tracee.RegisterChainedSyscall` | src/syscall/chain.c:43-96 | a chained call goes to the end of the queue |
| `Chain.Tracee.ChainNextSyscall` | src/syscall/chain.c:103-153 | the first chained call is forged, or the chain ends with its forced result |
| `Chain.Tracee.PushSpecificRegs` | src/tracee/reg.c:291-373 | changed registers reach the tracee, the original ones except for the result when they must be restored |
| `Chain.Tracee.TranslateSyscall` | src/syscall/syscall.c:103-274 | either stage on the register banks refines the value stages, for any registers poked and calls chained in it |
| `Chain.ChainNextEffect` | src/syscall/chain.c:103-153 | what the next chained call, or the end of the chain, leaves in the cache |
| `Chain.EnterEffect` | src/syscall/syscall.c:103-160 | the enter stage never asks for a restoration and keeps the original registers of the first call of a chain |
| `Chain.HandedOver` | src/syscall/syscall.c:103-160 | the registers at the end of the enter stage: the last value put in each one, and no call and its error for one that was refused |
| `Chain.RoundEffect` | src/syscall/syscall.c:116-226 | everything one call from entry to exit does to registers, queue and forced result |
| `Chain.FirstRound` | src/syscall/syscall.c:116-226 | a call that chains nothing leaves the tracee unaware; one that does starts the invariant of chains |
| `Chain.NextRound` | src/syscall/chain.c:103-153 | one more call of a chain keeps the invariant, or ends it with the registers of the first call and the forced result |
| `Chain.ChainKept` | src/syscall/chain.c:43-153 | the invariant holds over any number of rounds of a chain |
| `Chain.ChainUnnoticed` | src/syscall/chain.c:43-163 | the kernel is handed the call and then the chained ones in registration order; afterwards all registers are those of the entry, but for the result: the forced one if any, or else the answer to the last call, its error if it was refused |
| `Chain.RunsWhatIsTrapped` | src/syscall/syscall.c:103-274 | over any rounds, chained or not, the kernel runs each call that was trapped with the last values put in its number and arguments, and none for one that was refused |
| `Chain.UnstoppedUnawareIff` | src/syscall/syscall.c:178-184 | a call that is not stopped at its exit leaves the stack pointer as it was, and goes unnoticed if and only if the last value put in each argument is its own |
| `Chain.ForcedWithoutChainLeaks` | src/syscall/chain.c:159-163 | a result forced without a chain becomes the result of the next chain |
| `LoadInfo.LoadInfo.AddMapping` | src/execve/enter.c:56-124 | the file mapping of a segment and its anonymous one if any, added at the end |
| `LoadInfo.ProtOf` | src/execve/enter.c:89-91 | the protection of a mapping allows what the flags of the segment say, and nothing else |
| `LoadInfo.LoadInfo.AddMappings` | src/execve/enter.c:237-306 | the mappings of all PT_LOAD headers, in order |
| `LoadInfo.LoadInfo.AddLoadBase` | src/execve/enter.c:311-324 | all mappings and the entry point shifted by the load base |
| `LoadInfo.LoadInfo.ComputeLoadAddress` | src/execve/enter.c:332-343 | only a position-independent object that starts at 0 is shifted |
| `LoadInfo.ComputeLoadAddresses` | src/execve/enter.c:332-357 | the program and its interpreter get their own fixed addresses, in the class of the program, and so do their entry points |
| `LoadInfo.ShiftCommutes` | src/execve/enter.c:311-324 | shifting the mappings of an object gives the mappings of the shifted object |
| `LoadScript.UnpackPack` | src/loader/script.h:29-64 | a packed statement reads back as itself whatever follows it |
| `LoadScript.PackAllAt` | src/loader/script.h:29-64 | statement k of a script starts after the packed size of those before it |
| `LoadScript.ScriptSize` | src/execve/exit.c:243-253 | the size computed beforehand is the size of the script |
| `LoadScript.PackScript` | src/execve/exit.c:264-318 | the pieces in the order they are written make up the whole script |
| `LoadScript.StringsInPlace` | src/execve/exit.c:217-241 | every string address of the script points at its string, and the area ends at the old stack pointer |
| `LoadScript.BottomAligned` | src/execve/exit.c:225-237 | the final stack pointer is aligned on 4, 8 or 16 bytes for all string lengths |
| `LoadScript.PutWord` | src/execve/exit.c:264-318 | one word stored at the cursor, the others kept |
| `LoadScript.PutStatement` | src/execve/exit.c:264-318 | the buffer holds what was written before and then the packed statement |
| `LoadScript.TranscriptMappings` | src/execve/exit.c:144-168 | one packed statement per mapping, in order |
| `LoadScript.PutInterp` | src/execve/exit.c:274-288 | the statements of the ELF interpreter, or none |
| `LoadScript.PutStackExec` | src/execve/exit.c:290-298 | the statement that makes the stack executable, or none |
| `LoadScript.PutObjects` | src/execve/exit.c:264-288 | the statements of the program and of its interpreter |
| `LoadScript.WriteScript` | src/execve/exit.c:243-321 | the buffer holds the packed script and the cursor ends at the computed size |
| `LoadScript.Narrow` | src/execve/exit.c:323-328 | in place, word i is the low half of what 64-bit word i was before the loop |
| `LoadScript.NarrowedScript` | src/execve/exit.c:323-328 | the narrowed script is the script if and only if all its words fit 32 bits |
| `Loader.Process.ZeroWords` | src/loader/loader.c:56-85 | aligned words are cleared, or the first one that cannot be stored faults |
| `Loader.Process.Clear` | src/loader/loader.c:56-85 | leading bytes, words and trailing bytes are cleared, exactly as `Cleared` says |
| `Loader.ClearExactIff` | src/loader/loader.c:56-85 | the bytes cleared are those asked for if and only if the start is aligned or its word ends before the end |
| `Loader.ClearToPageEnd` | src/loader/loader.c:151-153 | up to a page boundary, exactly the bytes asked for are cleared |
| `Loader.Interpreter.OpenFile` | src/loader/loader.c:124-142 | an object is opened, after the previous one was closed, or the loader dies |
| `Loader.Interpreter.ClearEnd` | src/loader/loader.c:151-153 | the end of a file mapping is cleared, or the loader dies |
| `Loader.Interpreter.MapFromFile` | src/loader/loader.c:144-161 | a file mapping, its cleared end and the base of the object |
| `Loader.Interpreter.Execute` | src/loader/loader.c:120-178 | one packed statement is decoded and executed, and the cursor advances by its size |
| `Loader.Interpreter.Begin` | src/loader/loader.c:180-256 | the last statement starts the program with what it says, traced or not |
| `Loader.Interpreter.Interpret` | src/loader/loader.c:111-263 | the loop over a packed script does what its statements say, up to the start of the program |
| `Loader.LastPageBacked` | src/execve/enter.c:81-118 | the page where the bytes of a segment end is backed by the file as a whole or not at all |
| `Loader.ClearableIff` | src/loader/loader.c:151-153 | the end of a segment can be stored to if and only if its page is writable and backed |
| `Loader.LoadSegment` | src/execve/enter.c:56-124 | the mappings of one segment leave file bytes and then zeros in memory, touch no other page, and fail exactly when its end cannot be cleared |
| `Loader.ImagesKept` | src/execve/enter.c:56-124 | a later segment leaves the images of the earlier ones alone although mappings overlap |
| `Loader.LoadSegments` | src/loader/loader.c:120-178 | for all ascending segments, compiling and interpreting gives every image, with the rights of its flags, and fails exactly when some end cannot be cleared |
| `Loader.LoadObject` | src/loader/loader.c:123-170 | opening an object and running its mappings gives its images and its base |
| `Loader.LoadProgram` | src/execve/exit.c:174-395 | the whole script starts the entry point of the interpreter or of the program, with both images in memory and the stack executable when it has to be |
| `LoadPlacement.PlaceProgram` | src/execve/exit.c:174-395 | end to end: for any program and interpreter, position independent or not, the loader ends at the entry point with every segment of both at its address plus the load base of its file, with its bytes and its rights |
| `LoadPlacement.BaseMeaning` | src/execve/enter.c:332-357 | a file is moved if and only if it is position independent and its first segment starts in page 0; then to an aligned address below 2^47, or 2^32 for a 32-bit program, where the interpreter is above the program |
| `LoadPlacement.EntryExecutable` | src/execve/enter.c:89-91 | an entry point can be executed where its segment can |
| `LoadPlacement.HeadersInPlaceIff` | src/execve/exit.c:314-315 | the program headers are where the program is told they are if and only if its first page is the first one of the file |
| `LoadPlacement.ProgramSees` | src/loader/loader.c:206-242 | end to end, for every list of vectors: AT_PHDR is where the headers of the file are in memory, AT_ENTRY its entry point, AT_BASE the first page of the interpreter, and the vectors the loader does not know are as they were |
| `LoadPlacement.ShiftedObject` | src/execve/enter.c:311-324 | the mappings of a file shifted by its base are those of a valid object whose segments are shifted |
| `LoadPlacement.ApartByAddress` | src/execve/enter.c:332-357 | two position-independent files get the two load addresses, and do not meet when the program ends below their distance |
| `Paths.ParseRender` | src/path/path.c:536-587 | the components of a rendered path are those it was rendered from |
| `Paths.JoinName` | src/path/path.c:51-111 | joining a name to a canonical string appends a component |
| `Paths.TailPrefix` | src/path/path.c:536-587 | a canonical string is a prefix of another one up to a separator if and only if its components are |
| `Paths.ComparePathsMeaning` | src/path/path.c:536-587 | comparing raw canonical strings computes the order of component prefixes |
| `Paths.SubstitutePathPrefix` | src/path/path.c:679-738 | the edit in place computes the substitution, or changes nothing when it does not fit |
| `Paths.SubstitutePrefixMeaning` | src/path/path.c:679-738 | over all special cases the substitution replaces leading components, if and only if it fits |
| `Paths.SubstitutionFitsIff` | src/path/path.c:679-738 | it fits exactly when the result does with its null byte, but for "/" by another path, which counts one byte more |
| `Bindings.CompareSides` | src/path/path.c:589-592 | canonical strings are compared as their components |
| `Bindings.InsertSorted` | src/path/binding.c:297-376 | inserting after the last contained path keeps a list sorted: nothing strictly contains a later path |
| `Bindings.FirstMatchDeepest` | src/path/binding.c:120-165 | the first match in a sorted list is contained in every other match |
| `Bindings.InsertKeepsValid` | src/path/binding.c:297-388 | inserting or replacing keeps both lists sorted, with the same bindings, one per guest path and "/" last on the guest side |
| `Bindings.RemovedHost` | src/path/binding.c:277-287 | removal keeps the host list sorted |
| `Bindings.InsertAll` | src/path/binding.c:297-388 | the same after any sequence of insertions and replacements |
| `Bindings.LookupDeepest` | src/path/binding.c:120-165 | the first match on the guest side is the only deepest binding that contains the path, for every path |
| `Bindings.HostDeepest` | src/path/binding.c:120-165 | the first match on the host side, outside the rootfs, is the deepest there too, for all bindings |
| `Bindings.RoundTripIff` | src/path/path.c:402-515 | for all bindings and all paths, detranslating a translated path gives it back exactly under a condition on the bindings found for it on either side |
| `Bindings.NestedHostsFail` | src/path/path.c:402-515 | through the outer one of two bindings whose host sides are nested, a path comes back as one of the inner binding |
| `Bindings.InsideRootfsFails` | src/path/path.c:402-515 | a path of a directory of the rootfs that is bound elsewhere comes back as where the rootfs has it |
| `Bindings.RootfsInsideFails` | src/path/binding.c:141-150 | so does a path of the rootfs seen through a directory that contains it and is bound to itself |
| `Bindings.RoundTrip` | src/path/path.c:402-515 | where no host side is inside another one, nor in a rootfs other than "/": detranslating a translated path gives it back if and only if it is not shadowed, which needs the rootfs "/" |
| `Bindings.BindingLists.BelongsToGuestfs` | src/path/path.c:521-527 | whether the rootfs contains a host path |
| `Bindings.BindingLists.GetBinding` | src/path/binding.c:120-165 | the search loop over raw strings finds the first match on components |
| `Bindings.BindingLists.SubstituteBinding` | src/path/binding.c:239-272 | the binding found is substituted on either side; a result that does not fit is given up without an error |
| `Bindings.BindingLists.TranslatePath` | src/path/path.c:318-393 | a canonical guest path becomes the host path of its deepest binding |
| `Bindings.BindingLists.DetranslatePath` | src/path/path.c:402-515 | a host path becomes the guest path of its binding, loses the rootfs, or is out of the guest |
| `Bindings.BindingLists.FindPlace` | src/path/binding.c:297-376 | the place of a binding: over the one with its path, or after the last path it contains |
| `Bindings.BindingLists.InsortGuest` | src/path/binding.c:297-376 | the guest list gets the binding, and both lists lose the one it replaces |
| `Bindings.BindingLists.InsortHost` | src/path/binding.c:297-376 | the host list gets the binding at its place |
| `Bindings.BindingLists.InsortBinding` | src/path/binding.c:381-415 | both lists are updated and stay valid |
| `Canon.WalkClean` | src/path/canon.c:228-348 | a resolved path has no "." or "..", no empty component, and fits the limits |
| `Canon.EnterClean` | src/path/canon.c:199-348 | the same from the first call on, absolute or relative |
| `Canon.WalkSettled` | src/path/canon.c:254-347 | no prefix of a resolved path is a link, nor is the path itself when its end is dereferenced: the assertion on dereferenced links holds |
| `Canon.EnterSettled` | src/path/canon.c:199-348 | the same from the first call on |
| `Canon.Idempotent` | src/path/canon.c:199-379 | canonicalizing a canonical path is the identity |
| `Canon.KnownErrors` | src/path/canon.c:199-379 | the only errors are ENOENT, ENOTDIR, ENAMETOOLONG and ELOOP |
| `Canon.WalkIsIterative` | src/path/canon.c:199-379 | depth-bounded recursion reaches the path that plain iteration with spliced links reaches |
| `Canon.FailureIsIterative` | src/path/canon.c:179-184 | where the recursion fails on something that is missing, or on something that is no directory, the iteration comes upon the same and cannot go on |
| `Canon.GivesUp` | src/path/canon.c:199-379 | at any depth of the recursion, a refused length is met by the iteration, and a refused depth costs it one link for each level that was left |
| `Canon.ResolversAgree` | src/path/canon.c:199-379 | both resolvers agree on every path of every tree; ENOENT means that the iteration comes upon something missing, ENOTDIR upon something that is no directory, ELOOP that it follows more than MAXSYMLINKS links, and ENAMETOOLONG that it meets a name, a path or a link that is too long |
| `Canonicalization.JoinPaths` | src/path/path.c:51-111 | paths joined with one separator, or ENAMETOOLONG |
| `Canonicalization.PopComponent` | src/path/canon.c:44-71 | the last component and redundant slashes are removed, never climbing above "/" |
| `Canonicalization.NextComponent` | src/path/canon.c:87-127 | the next component, its finality and the rest of the string |
| `Canonicalization.SubstituteBindingStat` | src/path/canon.c:136-187 | whether there is a link, a missing or a non-directory component |
| `Canonicalization.Finish` | src/path/canon.c:350-376 | the trailing slash or dot that a path keeps at the first level |
| `Canonicalization.Canonicalize` | src/path/canon.c:199-379 | the string algorithm computes the resolver on components at the first level, and nested below; it terminates |
| `Canonicalization.CanonicalizeFrom` | src/path/canon.c:228-348 | the loop over components computes the resolver from any clean directory |
| `Canonicalization.Resolve` | src/path/canon.c:241-348 | one turn of the loop is one step of the resolver |
| `Canonicalization.PassDots` | src/path/canon.c:241-252 | "." and ".." and what they do to the end |
| `Canonicalization.ReadLink` | src/path/canon.c:317-322 | a link target that fills the buffer is too long |
| `Canonicalization.Follow` | src/path/canon.c:317-347 | a dereferenced link is resolved at one more level, from where it is |
| `HostTree.Host.Recount` | src/extension/link2symlink/link2symlink.c:165-181 | the final file gets its new count and the intermediate link points to it again |
| `HostTree.Host.DecrementLinkCount` | src/extension/link2symlink/link2symlink.c:207-296 | one name less for an emulated file, or its last name and both of its files gone |
| `HostTree.Host.FindSlot` | src/extension/link2symlink/link2symlink.c:131-136 | the first free intermediate name |
| `HostTree.Host.MoveFirst` | src/extension/link2symlink/link2symlink.c:130-155 | the first link of a file: moved away, two links in its place, each failure leaving what was done |
| `HostTree.Host.MovePath` | src/extension/link2symlink/link2symlink.c:57-182 | the first half of link |
| `HostTree.Host.MoveAndSymlinkPath` | src/extension/link2symlink/link2symlink.c:57-199 | the whole of link, undone by a decrement when the name cannot be made |
| `HostTree.Host.OnUnlink` | src/extension/link2symlink/link2symlink.c:709-740 | the decrement and then the call, granted or not |
| `HostTree.Host.OnRename` | src/extension/link2symlink/link2symlink.c:686-707 | the decrement of the new name and then the call, granted or not |
| `HardLinks.NlinkIsNames` | src/extension/link2symlink/link2symlink.c:425-433 | the reported link count is the number of names of the file |
| `HardLinks.DecrementKeeps` | src/extension/link2symlink/link2symlink.c:207-296 | a decrement changes the count of one file by one and nothing else |
| `HardLinks.UnlinkKeepsIff` | src/extension/link2symlink/link2symlink.c:207-296 | unlink does what it does to real hard links if and only if the host lets the name go and the new final name is free |
| `HardLinks.UnlinkBreaks` | src/extension/link2symlink/link2symlink.c:207-296 | otherwise a count is wrong or a name dangles |
| `HardLinks.RenameKeepsIff` | src/extension/link2symlink/link2symlink.c:686-707 | rename does what it does to real hard links, under the exact condition |
| `HardLinks.RenameSameFile` | src/extension/link2symlink/link2symlink.c:686-707 | a rename between two names of one file removes the first, where rename(2) does nothing |
| `HardLinks.RenameTaken` | src/extension/link2symlink/link2symlink.c:686-707 | a rename over a name whose new final name is taken breaks a count |
| `HardLinks.LinkKeepsIff` | src/extension/link2symlink/link2symlink.c:57-199 | link does what it does to real hard links, or is undone when refused, under the exact condition |
| `HardLinks.LinkAnswers` | src/extension/link2symlink/link2symlink.c:57-199 | link answers what link(2) does, unless the name of a file linked for the first time is too long or no slot is free; when it answers 0 the new name is one of the same file |
| `HardLinks.UnlinkAnswers` | src/extension/link2symlink/link2symlink.c:709-740 | unlink succeeds exactly when the host grants it and the name exists |
| `HardLinks.RenameAnswers` | src/extension/link2symlink/link2symlink.c:686-707 | so does rename, and the new name is there |
| `HardLinks.LengthTest` | src/extension/link2symlink/link2symlink.c:116-118 | beside the file, a name is too long exactly when the intermediate one does not fit in PATH_MAX with its null byte |
| `HardLinks.LengthTestIff` | src/extension/link2symlink/link2symlink.c:109-115 | in the directory for links, exactly when the length of the directories of the file makes no difference to that of its name |
| `HardLinks.DeepFileRefused` | src/extension/link2symlink/link2symlink.c:109-115 | a file with a short name deep in the tree is refused although its intermediate name fits |
| `HardLinks.LinkOverflows` | src/extension/link2symlink/link2symlink.c:157-182 | a five-digit count is lost |
| `HardLinks.OverflowUndone` | src/extension/link2symlink/link2symlink.c:184-193 | the undo of a five-digit count deletes the file |
| `HardLinks.UndoTaken` | src/extension/link2symlink/link2symlink.c:184-193 | an undo overwrites another file when its final name is taken |
| `HardLinks.NoSlot` | src/extension/link2symlink/link2symlink.c:131-150 | without a free slot the name of the file is lost |
| `LinkRuns.DotlessFree` | src/extension/link2symlink/link2symlink.c:57-199 | as long as no linked name ends like an intermediate one, a final name is only taken by its own file |
| `LinkRuns.DottedNameCollides` | src/extension/link2symlink/link2symlink.c:126-139 | a name ending with four digits and a dot makes two files share a host name |
| `LinkRuns.WriteKeeps` | src/extension/link2symlink/link2symlink.c:492-542 | a write through one name is seen through all the names of the file and no other |
| `LinkRuns.CreateKeeps` | src/extension/link2symlink/link2symlink.c:492-542 | a new regular file disturbs no emulated one |
| `LinkRuns.StepKeeps` | src/extension/link2symlink/link2symlink.c:682-756 | every orderly operation keeps counts, names and contents equal to those of real hard links |
| `LinkRuns.StepAnswers` | src/extension/link2symlink/link2symlink.c:682-756 | every orderly operation succeeds exactly when it would with real hard links, but for a first link of a name that is too long |
| `LinkRuns.RunKeeps` | src/extension/link2symlink/link2symlink.c:682-756 | so does every orderly run |
| `LinkRuns.RunCounts` | src/extension/link2symlink/link2symlink.c:425-433 | after every orderly run from an empty tree, each name shows its content and its exact number of names |
| `Tracees.Table.TraceMe` | src/ptrace/ptrace.c:149-181 | PTRACE_TRACEME makes the parent the ptracer, or answers EPERM; it follows a null pointer exactly for a process without a parent |
| `Tracees.Table.Attach` | src/ptrace/ptrace.c:185-207 | PTRACE_ATTACH and its errors |
| `Tracees.Table.FindsStopped` | src/ptrace/ptrace.c:209-231 | whether a request finds a stopped ptracee of the caller |
| `Tracees.Table.Detach` | src/ptrace/ptrace.c:258-262 | PTRACE_DETACH lets the ptracee run and forgets its ptracer |
| `Tracees.Table.Resume` | src/ptrace/ptrace.c:234-256 | requests that restart a ptracee |
| `Tracees.Table.GetStoppedPtracee` | src/tracee/tracee.c:242-304 | a zombie that matches, else a stopped ptracee with an event that matches, else none |
| `Tracees.Table.UpdateWaitStatus` | src/ptrace/wait.c:121-174 | the pid reported, or 0 when the call is replayed for the kernel, or EFAULT; the event is consumed |
| `Tracees.Table.HasPtracees` | src/tracee/tracee.c:310-313 | whether the request is about any ptracee, stopped or not, or any zombie |
| `Tracees.Table.TranslateWaitExit` | src/ptrace/wait.c:181-227 | an emulated wait reports a possible choice, blocks, or answers ECHILD without ptracees or, when it must not block, without any that the request is about |
| `Tracees.Table.HandlePtraceeEvent` | src/ptrace/wait.c:235-393 | an event of a ptracee wakes up a ptracer that waits for it |
| `Tracees.Table.RemoveTracee` | src/tracee/tracee.c:85-171 | a dead tracee becomes a zombie of its ptracer or is freed; its children are orphans and its ptracees free |
| `Tracees.Table.LeaveRelatives` | src/tracee/tracee.c:85-171 | what its death means for each other tracee |
| `Tracees.Table.NewChild` | src/tracee/tracee.c:382-507 | a child gets its parent and inherits the ptracer under the options of its creator; the assertion fails exactly when the child has relatives already |
| `Ptrace.StepValid` | src/ptrace/wait.c:121-227 | every operation keeps every count equal to live ptracees plus zombies, every relation to live processes, and somebody to wait for behind every blocked wait; it fails exactly where it is not careful |
| `Ptrace.ReportedIsAsked` | src/ptrace/wait.c:121-174 | the pid that a wait reports is that of a stopped ptracee or of a zombie of the caller, one it asked for by pid and by kind, and its event is told once |
| `Ptrace.NoneIsMissed` | src/tracee/tracee.c:242-304 | a stopped ptracee that it asked for, with an event, is not passed over for nothing |
| `Ptrace.AttachedValid` | src/ptrace/ptrace.c:104-110 | one ptracee more for its ptracer keeps every count, relation and blocked wait right |
| `Ptrace.DetachedValid` | src/ptrace/ptrace.c:116-124 | one ptracee less keeps counts and relations right, and at most its former ptracer is left waiting for nothing |
| `Ptrace.RestartedValid` | src/tracee/event.c:706-726 | restarting a process keeps everything right, whether it waits or not |
| `Ptrace.ReapedValid` | src/ptrace/wait.c:181-227 | freeing a reported zombie keeps counts and relations right; the count it lowers was positive |
| `Ptrace.PoliteIsCareful` | src/tracee/tracee.c:382-507 | nothing fails when nobody attaches to a process that is not created yet |
| `Ptrace.RunValid` | src/ptrace/wait.c:235-393 | the same over every polite run |
| `Ptrace.InitialValid` | src/tracee/tracee.c:215-233 | a session starts valid |
| `Ptrace.OrphanTraceMe` | src/ptrace/ptrace.c:149-159 | the first process of a session must not ask to be traced |
| `Ptrace.EarlyAttachFails` | src/tracee/tracee.c:382-507 | a run in which a third process attaches to a child between its first stop and the event of its creation, which breaks the assertion on new children |
| `Ptrace.ExitNotLost` | src/ptrace/wait.c:359-392 | an exit stays to be reported, by the process and then by its zombie, until its ptracer is told or dies |
| `PtraceCalls.ForkMeaning` | src/tracee/tracee.c:382-507 | a new child runs, with the parent that CLONE_PARENT tells, as a thread or not, and with the ptracer of its creator exactly where it is inherited; nobody else changes but that ptracer's count |
| `PtraceCalls.DetachMeaning` | src/ptrace/ptrace.c:209-262 | a request detaches a stopped ptracee of the caller, which runs again unless it waits; it is lost on any other process, and on one whose pid is that of a zombie |
| `PtraceCalls.ResumeMeaning` | src/ptrace/ptrace.c:209-256 | a request restarts the same ones, and changes nothing else |
| `PtraceCalls.ReplayedIff` | src/ptrace/wait.c:121-146 | a wait is given back to the kernel exactly for the exit of a child of the ptracer, and fails without any change only where the status cannot be written |
| `PtraceCalls.ToldOnce` | src/ptrace/wait.c:121-174 | the pids of the dead that a ptracer has not heard of, zombies included, lose exactly the one a wait tells of, by the kernel or not, and none for another event or a failure |
| `PtraceCalls.FreedMeaning` | src/tracee/tracee.c:80-113 | the children of a dead process are orphans, its ptracees are free and without a pending event, and everything else of the others is as it was |
| `PtraceCalls.OthersGoOn` | src/tracee/tracee.c:98-113 | of those that are not its ptracer, only its stopped ptracees start to run, and not one that waits |
| `PtraceCalls.MournedMeaning` | src/tracee/tracee.c:115-170 | its ptracer has as many dead to hear of as before, and one ptracee less if this one had nothing to tell; a wait ends when there is nobody left |
| `SysvMsg.IdNamesQueue` | src/extension/sysvipc/sysvipc_internal.h:209-224 | an identifier names its queue if and only if its index fits 12 bits and its generation did not wrap |
| `SysvMsg.StaleIdRejected` | src/extension/sysvipc/sysvipc_internal.h:209-224 | the identifier of a removed queue is rejected |
| `SysvMsg.ReceiveMeaning` | src/extension/sysvipc/sysvipc_msg.c:173-235 | a receive takes the first match, keeps the order of the rest and fits the buffer; MSG_COPY changes nothing |
| `SysvMsg.TypeMeaning` | src/extension/sysvipc/sysvipc_msg.c:66-78 | a message matches any type, the one asked for, or one up to the magnitude of a negative number, and the contrary with MSG_EXCEPT |
| `SysvMsg.LowestTypeIff` | src/extension/sysvipc/sysvipc_msg.c:192-210 | a negative number gets the first message of the lowest type if and only if no later one that matches has a lower type than the first that does |
| `SysvMsg.LowestTypePassedOver` | src/extension/sysvipc/sysvipc_msg.c:192-210 | a message of type 1 is passed over for one of type 2 before it |
| `SysvMsg.Conserved` | src/extension/sysvipc/sysvipc_msg.c:100-235 | what was sent to a queue is what was received and what is queued |
| `SysvMsg.GetKeeps` | src/extension/sysvipc/sysvipc_msg.c:17-64 | msgget gives no key twice and leaves the other queues alone |
| `SysvMsg.GetAnswers` | src/extension/sysvipc/sysvipc_msg.c:17-64 | msgget answers the identifier of the queue with this key, or EEXIST where it has to be new; ENOENT without one; or makes an empty queue in the first free place |
| `SysvMsg.StepValid` | src/extension/sysvipc/sysvipc_msg.c:17-312 | every operation keeps counters, byte sums, order per type, unique keys and receivers that wait for a valid queue; it fails exactly on the retry of a receiver whose queue is gone |
| `SysvMsg.StepPatient` | src/extension/sysvipc/sysvipc_msg.c:250-312 | no step fails when no queue is removed between a wake-up and its retry |
| `SysvMsg.RunValid` | src/extension/sysvipc/sysvipc_msg.c:17-312 | the same over every patient run |
| `SysvMsg.RetryAfterRemove` | src/extension/sysvipc/sysvipc_msg.c:250-274 | the retry after a removal breaks its assertion |
| `SysvAnswers.GetCall` | src/extension/sysvipc/sysvipc_msg.c:17-64 | msgget answers the identifier of the one queue with this key, EEXIST or ENOENT, or makes an empty queue in the first free place; nothing else changes |
| `SysvAnswers.SendAnswers` | src/extension/sysvipc/sysvipc_msg.c:100-171 | msgsnd queues the message at the end, and answers 0, exactly when there is such a queue, the size is at most 65535, the message can be read and its type is positive; EFAULT exactly when it cannot be read, and nothing changes on an error |
| `SysvAnswers.SendWakes` | src/extension/sysvipc/sysvipc_msg.c:143-164 | one receiver that waits in this queue for this type is woken up, nobody else |
| `SysvAnswers.ReceiveAnswers` | src/extension/sysvipc/sysvipc_msg.c:80-235 | every answer of a receive: EINVAL for malformed arguments, ENOMSG or a wait without a message for it, E2BIG, EFAULT, and otherwise the message it is for with the length of what fits |
| `SysvAnswers.ReceiveCall` | src/extension/sysvipc/sysvipc_msg.c:237-248 | msgrcv answers that, takes the message out of its queue only, and leaves a blocked receiver only where it has to wait |
| `SysvAnswers.RetryAnswers` | src/extension/sysvipc/sysvipc_msg.c:250-274 | a retry answers what the call would, but EINTR in place of a wait |
| `SysvAnswers.RemoveAnswers` | src/extension/sysvipc/sysvipc_msg.c:276-300 | no identifier names a queue that was removed; each receiver that waited for it, and no other one, is told EIDRM when it retries, with nothing delivered |
| `SysvAnswers.NamedIff` | src/extension/sysvipc/sysvipc_internal.h:209-224 | the n-th queue of a place is named by its identifier if and only if the place is below 4095 and n, to 16 bits, below 32768 |
| `SysvAnswers.IdAgainIff` | src/extension/sysvipc/sysvipc_internal.h:223-224 | two queues of a place have the same identifier if and only if the number of queues between them is a multiple of 65536 |
| `SysvWakeups.NeverStrandedIff` | src/extension/sysvipc/sysvipc_msg.c:100-274 | over all runs whose waiting requests come from a set, and whose retries do not fail, no receiver is left asleep with a message for it queued and nobody woken up, if and only if any two requests of the set ask for the same types or for none in common |
| `SysvWakeups.StepServes` | src/extension/sysvipc/sysvipc_msg.c:100-274 | for each sleeping receiver, the messages of its types do not outnumber the receivers woken up for these types: every such operation keeps this |
| `SysvWakeups.RunServes` | src/extension/sysvipc/sysvipc_msg.c:100-274 | so does every such run |
| `SysvWakeups.OverlapStrands` | src/extension/sysvipc/sysvipc_msg.c:134-164 | for any two requests that overlap without being the same, a run from the first call on that strands a receiver |
| `SysvWakeups.LateRetry` | src/extension/sysvipc/sysvipc.c:351-365 | how: the receiver woken up second tries again first and takes the message of the first one |
| `SysvWakeups.AnyTypeStrands` | src/extension/sysvipc/sysvipc_msg.c:80-98 | for instance with requests for type 1 and for any type, whatever the size of the buffers |
| `SysvWakeups.FailedRetryStrands` | src/extension/sysvipc/sysvipc_msg.c:173-274 | the only receiver woken up for a message leaves it queued, and another one that asks for it asleep, if and only if the message is too big for it or its buffer is faulty |
| `SysvWakeups.KilledStrands` | src/extension/sysvipc/sysvipc_msg.c:100-171 | a receiver killed between its wake-up and its retry leaves the message, and another receiver asleep |
| `SysvNamespace.Namespace.MsgGet` | src/extension/sysvipc/sysvipc_msg.c:17-64 | the search and creation of a queue refine the value step |
| `SysvNamespace.Namespace.FindReceiver` | src/extension/sysvipc/sysvipc_msg.c:143-164 | a blocked receiver that the message matches, or none |
| `SysvNamespace.Namespace.MsgSnd` | src/extension/sysvipc/sysvipc_msg.c:100-171 | a send refines the value step, errors included |
| `SysvNamespace.Namespace.FindItem` | src/extension/sysvipc/sysvipc_msg.c:192-210 | the first match, or the item at a position for MSG_COPY |
| `SysvNamespace.Namespace.DoMsgRcv` | src/extension/sysvipc/sysvipc_msg.c:173-235 | a receive from one queue changes that queue only |
| `SysvNamespace.Namespace.MsgRcv` | src/extension/sysvipc/sysvipc_msg.c:237-248 | a receive refines the value step, blocking included |
| `SysvNamespace.Namespace.MsgRcvRetry` | src/extension/sysvipc/sysvipc_msg.c:250-274 | a retry refines the value step |
| `SysvNamespace.Namespace.MsgCtlRemove` | src/extension/sysvipc/sysvipc_msg.c:276-312 | IPC_RMID refines the value step and wakes up every receiver of the queue |
| `TraceeMemory.PeekPoke` | src/tracee/mem.c:218-291 | reading back what was written gives it |
| `TraceeMemory.TraceeAccess.WriteData` | src/tracee/mem.c:218-291 | exactly the addressed bytes change, for every size, even after a partial block transfer |
| `TraceeMemory.StorableMeaning` | src/tracee/mem.c:218-291 | a write succeeds if and only if the kernel lets every byte be written at once, or every word that holds one of them is mapped |
| `TraceeMemory.TraceeAccess.WriteWords` | src/tracee/mem.c:248-290 | the same word by word |
| `TraceeMemory.TraceeAccess.WriteTrailing` | src/tracee/mem.c:263-290 | the bytes of the last word beyond the data are kept |
| `TraceeMemory.TraceeAccess.ReadData` | src/tracee/mem.c:338-403 | the bytes at the address, or EFAULT |
| `TraceeMemory.ScanMeaning` | src/tracee/mem.c:412-536 | the specification finds the first null byte, or the first unmapped one |
| `TraceeMemory.FallbackAgrees` | src/tracee/mem.c:412-536 | both ways to read a string agree if and only if the word of its null byte is mapped |
| `TraceeMemory.ChunkInPage` | src/tracee/mem.c:455-471 | a chunk never crosses a page, so it is mapped as a whole or not at all |
| `TraceeMemory.TraceeAccess.ReadChunks` | src/tracee/mem.c:446-492 | reading by chunks gives the string, its size, or nothing |
| `TraceeMemory.TraceeAccess.ReadWords` | src/tracee/mem.c:498-536 | reading by words gives the same, where the last word is mapped |
| `TraceeMemory.TraceeAccess.ReadString` | src/tracee/mem.c:412-536 | the status and the buffer for every string, null byte or not |
| `Xpointers.Tracee.WritevData` | src/tracee/mem.c:299-331 | all the buffers one after the other in memory, or EFAULT exactly when one of them cannot be stored, and nothing else changed even on failure |
| `Xpointers.DecodeEncode` | src/execve/aoxp.c:422-430 | a pointer stored in 4 or 8 bytes reads back as itself when it fits |
| `Xpointers.StringsApart` | src/execve/aoxp.c:381-407 | pushed strings lie after the table, in order and disjoint, inside the block |
| `Xpointers.ArgvUnique` | src/execve/aoxp.c:305-346 | memory determines the array that an address points to |
| `Xpointers.PushedWord` | src/execve/aoxp.c:420-435 | entry i of the table reads back as the pointer of entry i |
| `Xpointers.PushedString` | src/execve/aoxp.c:420-435 | that pointer is where the modified string is |
| `Xpointers.PushMeaning` | src/execve/aoxp.c:353-439 | after a push the tracee sees at the new address the array that the tracer held, modified or not |
| `Xpointers.PushMeaningIff` | src/execve/aoxp.c:353-439 | if and only if no string that was left in the tracee was overwritten |
| `Xpointers.OverwrittenString` | src/execve/aoxp.c:353-439 | an empty string left where the name of another one is written is lost |
| `Xpointers.FetchMeaning` | src/execve/aoxp.c:305-346 | a fetched array means what was in memory |
| `Xpointers.ArgvReadIff` | src/execve/aoxp.c:305-346 | an array of the tracee can be fetched if and only if each of its words can be read, and then means what it is |
| `Xpointers.PushFetch` | src/execve/aoxp.c:305-439 | pushing and fetching again gives as many entries with the same strings, for words of any size |
| `Xpointers.CachedMeans` | src/execve/aoxp.c:99-131 | caching a string changes no meaning |
| `Xpointers.ArrayOfXPointers.Fetch` | src/execve/aoxp.c:305-346 | the pointers up to the null one, or a given number of them; EFAULT exactly when a word up to there cannot be read |
| `Xpointers.ArrayOfXPointers.ReadXpointee` | src/execve/aoxp.c:99-131 | the string of one entry, cached, or the error that reading it answers; the array means what it meant |
| `Xpointers.CopyMeaning` | src/execve/aoxp.c:99-131 | a string is copied if and only if it can be read and is shorter than ARG_MAX with its null byte; ENOMEM exactly for a longer one that can be read so far, else EFAULT |
| `Xpointers.ArrayOfXPointers.Resize` | src/execve/aoxp.c:256-296 | entries moved in place, front or end first as the overlap asks: null entries before an index, or the entries before it dropped, and all the others kept |
| `Xpointers.ArrayOfXPointers.Push` | src/execve/aoxp.c:353-439 | E2BIG exactly without room below the stack, EFAULT exactly where the table or a string cannot be stored; else the block is written right below the red zone or the stack pointer, nothing above the stack pointer changes, nothing at all when no entry was modified, and the array of the tracer ends up with the addresses of the table |
| `Shebang.WithArgument` | src/execve/shebang.c:83-188 | "#!", an interpreter and the rest of the line as one argument give both back, with any blanks around them |
| `Shebang.WithoutArgument` | src/execve/shebang.c:83-146 | an interpreter alone has no argument |
| `Shebang.EndOfFile` | src/execve/shebang.c:106-183 | a file that ends inside its first line gives no argument, and its whole interpreter only when something follows it, with any blanks around |
| `Shebang.EndOfFileKeepsIff` | src/execve/shebang.c:106-183 | it gives the interpreter and the argument of the line if and only if there is no argument and a blank follows the interpreter |
| `Shebang.CutByBuffer` | src/execve/shebang.c:147-188 | a line that goes on beyond the 255 bytes that are read gives the interpreter and the argument as far as they were read |
| `Shebang.ScriptIff` | src/execve/shebang.c:73-103 | a file is a script if and only if it starts with "#!", and ENOEXEC if and only if it ends after that and blanks alone |
| `Shebang.ExtractShebang` | src/execve/shebang.c:51-198 | the character loops compute the line on all files, truncation included |
| `Shebang.SlurpInterpreter` | src/execve/shebang.c:106-151 | the loop over the interpreter, ending in an argument, a line end, the end of the file or of the buffer |
| `Shebang.SlurpArgument` | src/execve/shebang.c:153-188 | the loop over the argument |
| `Shebang.TrimmedString` | src/execve/shebang.c:160-167 | trailing blanks are removed, never the first byte |
| `Interpreters.ExpandChain` | src/execve/shebang.c:208-307 | over nested scripts, argv[] is the interpreters with their arguments, the last one first, then the script and the old arguments from 1 on, for an empty argv[] too; ELOOP from 20 levels on |
| `Interpreters.ExpandedChain` | src/execve/shebang.c:208-307 | an expansion only succeeds on such a chain |
| `Interpreters.LookMeaning` | src/execve/shebang.c:231-258 | what a path is run as, for all files: a program, a script for an interpreter that may be executed, or which error |
| `Interpreters.ScriptRuns` | src/execve/shebang.c:208-307 | a file that starts with "#!interpreter argument", whatever the blanks, runs the interpreter with its name, the argument, the path of the script and the rest of argv[] |
| `Interpreters.ExpandFront` | src/execve/shebang.c:258-290 | the arguments given to a script only matter as the end of argv[] |
| `Interpreters.RewrittenMeans` | src/execve/shebang.c:258-290 | the resized and overwritten array means the rewritten argv[] |
| `Interpreters.Rewrite` | src/execve/shebang.c:258-290 | one level rewrites the array in place |
| `Interpreters.LookAt` | src/execve/shebang.c:231-258 | the checks and the extraction of one level, in their order |
| `Interpreters.ExpandShebang` | src/execve/shebang.c:208-307 | fetch, every level and push together: the status on every input, for failures of a level, of the fetch and of the push; on success the tracee sees the expanded argv[] at the new address if and only if its arguments were not where the block is written, and the stack in use is untouched |
| `AuxVectors.Tracee.GetElfAuxVectorsAddress` | src/execve/auxv.c:77-108 | the walk ends at the first vector |
| `AuxVectors.Tracee.LoaderCursor` | src/loader/loader.c:201-206 | the loader's walk ends at the same address |
| `AuxVectors.Tracee.FetchElfAuxVectors` | src/execve/auxv.c:117-150 | all the vectors before the null one |
| `AuxVectors.Tracee.PushElfAuxVectors` | src/execve/auxv.c:157-184 | the vectors and a null one are written in order, nothing else changes |
| `AuxVectors.Tracee.EditVectors` | src/extension/kompat/kompat.c:605-631 | the vectors are edited up to an AT_RANDOM that stops the loop |
| `AuxVectors.AdjustedMeaning` | src/extension/kompat/kompat.c:587-677 | all that may change in the vectors of a program: which ones are ignored, when the capabilities are replaced, and when random bytes are added |
| `AuxVectors.HiddenIff` | src/extension/kompat/kompat.c:605-631 | the vDSO is hidden if and only if no such vector comes after one that stops the loop |
| `AuxVectors.RandomOnce` | src/extension/kompat/kompat.c:622-639 | no second AT_RANDOM outside forced mode |
| `AuxVectors.Tracee.MoveDown` | src/extension/kompat/kompat.c:641-676 | argc, argv[] and envp[] one vector downward, although source and destination overlap |
| `AuxVectors.Tracee.AdjustElfAuxv` | src/extension/kompat/kompat.c:587-677 | argc, argv[] and envp[] are the same from the new stack pointer, the vectors are the edited ones plus AT_RANDOM, and memory from the old end on is untouched |
| `AuxVectors.Tracee.PatchVectors` | src/loader/loader.c:183-242 | the loader replaces exactly the values it knows; for an empty list it passes over the end of the list and patches the vectors beyond it |
| `Heap.AlignedIsNoError` | src/syscall/heap.c:165-199 | the truncated test never takes a page-aligned address for an error |
| `Heap.ErrorIsSeen` | src/syscall/heap.c:165-199 | and sees every error in 64-bit and in 32-bit registers |
| `Heap.RequestExact` | src/syscall/heap.c:127-142 | the request names exactly the mapping the heap has and never wraps around |
| `Heap.CallKeeps` | src/syscall/heap.c:54-213 | the base stays, the mapping follows, and the answer is the new break on success and the old one on failure |
| `Heap.FirstCall` | src/syscall/heap.c:73-125 | the first call makes an empty heap, or answers 0 and changes nothing |
| `Heap.SuspiciousCall` | src/syscall/heap.c:78-92 | a first call with an address switches the emulation off exactly when the kernel answers that address |
| `Heap.RunKeeps` | src/syscall/heap.c:54-213 | over every run the answers are those of brk(2) |
| `Heap.Tracee.TranslateBrkEnter` | src/syscall/heap.c:54-145 | the request left in the registers is the one specified |
| `Heap.Tracee.TranslateBrkExit` | src/syscall/heap.c:150-213 | the new state and the answer are those specified |
| `FakeId0.ReAllowedIff` | src/extension/fake_id0/fake_id0.c:129-156 | the permission test of setre*id(2) against the manual it quotes |
| `FakeId0.ReEffectIff` | src/extension/fake_id0/fake_id0.c:160-180 | the effect of setre*id(2) against the manual it quotes |
| `FakeId0.StepKeeps` | src/extension/fake_id0/fake_id0.c:84-260 | no call of a non-root process adds an identity to either set |
| `FakeId0.FsFollows` | src/extension/fake_id0/fake_id0.c:84-260 | the file-system identity follows the effective one or was held before |
| `FakeId0.RunKeeps` | src/extension/fake_id0/fake_id0.c:84-260 | the same over every run in which no call is made with root as the effective user |
| `FakeId0.RootIsGone` | src/extension/fake_id0/fake_id0.c:84-260 | without root among the users held, no run has such a call |
| `FakeId0.RootTakesAny` | src/extension/fake_id0/fake_id0.c:196-235 | with root among the users held, two calls install any users or any groups |
| `FakeId0.ReachableIff` | src/extension/fake_id0/fake_id0.c:84-260 | exactly the users a process can ever hold |
| `FakeId0.NeverGrowsIff` | src/extension/fake_id0/fake_id0.c:84-260 | the set of users never grows if and only if root is not in it, and neither does the set of groups |
| `FakeId0.DropIsFinal` | src/extension/fake_id0/fake_id0.c:84-117 | after setuid(2) to another user by root no call changes any user again |
| `FakeId0.UnsetStored` | src/extension/fake_id0/fake_id0.c:84-117 | only setuid(-1) or setgid(-1) by root stores the reserved value, or setfsuid(-1) or setfsgid(-1) for the identity of the file system |
| `FakeId0.Config.SetUid` | src/extension/fake_id0/fake_id0.c:84-117 | the ordered assignments of setuid compute the specified identities |
| `FakeId0.Config.SetGid` | src/extension/fake_id0/fake_id0.c:84-117 | those of setgid, with the privilege of the effective user |
| `FakeId0.Config.SetReUid` | src/extension/fake_id0/fake_id0.c:129-184 | those of setreuid |
| `FakeId0.Config.SetReGid` | src/extension/fake_id0/fake_id0.c:129-184 | those of setregid |
| `FakeId0.Config.SetResUid` | src/extension/fake_id0/fake_id0.c:196-235 | those of setresuid |
| `FakeId0.Config.SetResGid` | src/extension/fake_id0/fake_id0.c:196-235 | those of setresgid |
| `FakeId0.Config.SetFsUid` | src/extension/fake_id0/fake_id0.c:240-260 | those of setfsuid, and the previous value as the answer |
| `FakeId0.Config.SetFsGid` | src/extension/fake_id0/fake_id0.c:240-260 | those of setfsgid |

## Left out

- Real system calls, ptrace register transfer, temporary files, allocation failures, logging and the command line: they are parameters, maps or decisions of a small kernel.
- SIGSYS emulation, the POKEDATA workaround of arm64 and `sysnum_workaround_state`: they would double every state machine. Registers are those of x86_64, but for the 16-byte stack alignment of arm64.
- Bare SIGTRAP and SIGSTOP stops, children without an executable and emulated single steps in the event loop.
- System V semaphores and shared memory: their sources are not part of this model. The indirect paths of a blocked msgrcv through SIGSYS neither.
- `readlink_proc`, /proc/PID/fd, glue directories, induced bindings, the f2fs probe, hidden files: they depend on the host.
- Hard-linking directories or ordinary symbolic links, and tracees that touch `.l2s.` names themselves.
- WAITS_IN_KERNEL signalling, the order of the tracee list, and events kept pending for PRoot itself.
- The in-place shift of arguments of `modify_syscall` in src/extension/kompat/kompat.c:87-117 and the release parsing: they would add easy members only.
- set*id changes at execve(2) of set-user-ID files, and the umask.
- Addresses that wrap around 2^64 in transfers of memory: model addresses are integers.
- The source's circular lists are sequences here: pointers of list cells are not modelled.
- Canonicalization.Canonicalize: outside /proc, where links are not what readlink(2) says.
- Bindings.BindingLists.TranslatePath: stated for a guest path that is canonical already, so only the last substitution; canonicalization is proved apart.
- Bindings.BindingLists.DetranslatePath: the referrer, for links of /proc and of bindings, is not modelled.
- SysvWakeups.NeverStrandedIff: runs do not kill a tracee between its wake-up and its retry; `SysvWakeups.KilledStrands` shows what that does.
- HostTree.Host.MovePath: the limits of the host itself on the length of a name, which a final name may exceed by a few bytes.
- HostTree.Host.OnRename: the flags of renameat2 are not modelled, RENAME_EXCHANGE and RENAME_NOREPLACE among them, although the source decrements for these calls too.
- HostTree.Host.MoveAndSymlinkPath: the error number of a symlink that the host refuses is one value, whatever the reason.
- AuxVectors.Tracee.AdjustElfAuxv: the read of argv[] and envp[] always succeeds, as the walk before it just read them.
- Xpointers.ArrayOfXPointers.Push: arrays in which every entry was modified, which the assertion of the source excludes.
