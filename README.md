# amtu in Dafny

amtu (Abstract Machine Test Utility) checks that a machine enforces the
protections a certified system relies on. It tries forbidden operations from
an unprivileged context and expects each one to fault. It also checks that
data written to disks and sent on network interfaces comes back unchanged.
This project models the decision logic of those tests and proves what each
one promises.

- `process.dfy` (module `Process`): what the parent learns from a reaped
  fork/wait child. A child whose forbidden operation raised a handled signal
  exits 0 through the fault handler. An unhandled signal kills the child.
  An operation that completes leaves by `exit(-1)`, or by `return(-1)` into
  `main`; either way the exit status is 255. Return codes are 32-bit C
  `int`s (`bv32`).
- `memsep.dfy` (module `Memsep`): the memory-separation test.
  - It walks the parsed `/proc/self/maps` records.
  - It plans one write probe per range mapped without `w`.
  - It plans one read probe per non-empty gap in front of a range that is
    not the stack range.
  - It picks each address with `get_pointer_in_range`.
  - It stops the whole process at the first child that did not exit 0.
- `privileged.dfy` (module `Privileged`): `amtu_priv` on i386, x86-64,
  s390, ppc and aarch64.
  - Each architecture is one catalog of instructions. Each instruction has
    its own survival path, its own fork-failure policy, and whether its
    status is checked.
  - One driver loop runs the catalog and stops at the first step that fails.
- `amtu.dfy` (module `Amtu`): `main`.
  - The getopt loop over `dmsinph`.
  - Test selection.
  - The fixed test order.
  - OR aggregation of the return codes.
  - The final audit record.
  - `usage`.
- `iodisk.dfy` (module `IoDisk`): the disk test.
  - Partition collection into a fixed array.
  - Crediting each mounted filesystem to its first matching partition.
  - Eligibility for the write/verify test.
  - The `mkstemp` template.
  - The read-back comparison.
  - The read-only-controller warnings, with `get_io_ctrl`.
- `network.dfy` (module `NetworkIo`): the network test.
  - The interface filter and the duplicate-free interface list.
  - The printable random message.
  - The bounded non-blocking receive loop.
  - Failure counting.

Forking, signals, the files read and the sockets are not modelled directly.
Their results are inputs to the model:
- A `Spawn` per child: the fork failed, or the child ran and faulted with a
  signal or survived.
- The parsed maps, partitions and mtab records, or `None` when the file
  could not be opened.
- The `random()` values.
- What each write test read back.
- The datagrams queued on each interface.

Points where the code does other than its own comments or a reader might
expect, and where the model follows the code:
- Probe addresses are not word-aligned, although the comment at
  `src/memsep.c:95` says "aligned to sizeof(int)". The offset is
  `RANDNUM % (end - start)` bytes (`src/memsep.c:103-106`), so no alignment
  is applied. With the draws taken as unconstrained naturals every offset is
  reachable. The real `RANDNUM` is below 2^31 on 32-bit builds and has bit
  31 clear on LP64 builds, so there offsets that need those bits are never
  drawn.
- Testing does not continue after a violation. `memsep` exits the process
  at the first child that did not exit 0. `amtu_priv` returns -1 at the
  first failing instruction.
- The gap in front of the first range is probed, because `last_end` starts
  at 0.
- The handled-signal sets are the ones each file installs, plus the
  handlers installed earlier in the same process. There is no SIGTRAP. The
  ppc and s390 files install only SIGSEGV and SIGILL, but when `memsep` ran
  a probe before them its handler for SIGSEGV, SIGILL and SIGBUS
  (`src/memsep.c:82-88`, `src/memsep.c:122-127`) is still installed, so a
  child killed by SIGBUS then passes too.
- The return value of `sigaction` is never checked, so an install failure is
  not a separate outcome.
- The status of the ppc `mfspr 6,17` child is waited for and then ignored.
- A filesystem's options are searched for the substrings "rw" and "ro"
  (`src/iodisktest.c:517`, `src/iodisktest.c:524`, `src/iodisktest.c:536`),
  not for whole options. A read-write filesystem mounted with
  "rw,errors=remount-ro" therefore counts as both rw and ro and never gets
  the write test.

## Model

| member | source | states |
|---|---|---|
| Process.ExitStatus | src/memsep.c:148 | `exit(v)` shows the parent a status in 0..255, which is 0 exactly when the low byte of v is 0 |
| Process.MainTailStatus | src/amtu.c:139-156 | a child that returned -1 into `main` ORs -1 into rc and exits 255, whatever rc it inherited |
| Process.ChildTermination | src/memsep.c:82-88 | a child exits cleanly iff its operation raised a handled signal; an unhandled signal gives `Signaled(sig)`; a completed operation gives exit 255 |
| Memsep.PointerInRange | src/memsep.c:103-106 | the probe address lies in [start, end) |
| Memsep.EveryByteReachable | src/memsep.c:103-106 | no alignment is applied: with unconstrained draws, every offset of the range, aligned or not, is produced by some draw |
| Memsep.SitesFrom | src/memsep.c:276-293 | at most two probes per record, and on well-formed records every probe range is non-empty |
| Memsep.CountAccessConcat | src/memsep.c:276-293 | counting probes of one kind distributes over concatenated plans |
| Memsep.WriteSitesExactly | src/memsep.c:276-280 | the write probes are exactly one per range lacking `w`, each over that whole range |
| Memsep.ReadSitesAreGaps | src/memsep.c:282-292 | the read probes are exactly the gaps [previous end, start) that are non-empty and not in front of the stack range |
| Memsep.ReadProbesHitUnmapped | src/memsep.c:282-292 | on sorted disjoint ranges every read-probe address lies in no mapped range |
| Memsep.WriteProbesHitReadOnly | src/memsep.c:276-280 | every write-probe address lies in a mapped range, and that range is not writable |
| Memsep.LeadingGapProbed | src/memsep.c:249 | with `last_end` starting at 0, a first range above 0 that is not the stack gets the read probe [0, start) |
| Memsep.ThreeRangeExample | src/memsep.c:249-294 | the plan for r-x, rw-, r-- ranges with a hole: the r-x write, the leading gap, the r-- write, then the hole |
| Memsep.HeldExactlyOnHandledFault | src/memsep.c:122-127 | a step holds iff the fork succeeded and the access raised SIGSEGV, SIGILL or SIGBUS |
| Memsep.FirstFailure | src/memsep.c:166-174 | the first step that did not hold, with all earlier ones holding; None iff all held |
| Memsep.Addressed | src/memsep.c:278-291 | each executed probe keeps its access kind, and its address lies inside the planned range |
| Memsep.WriteReadMem | src/memsep.c:115-175 | returns iff the child exited 0, which is iff it faulted with a handled signal; otherwise the process exits 255 |
| Memsep.Memsep | src/memsep.c:186-325 | -1 without user nobody or the maps file; otherwise exits 255 at the first step that did not hold, having run exactly the plan up to it; else returns 0 having run the whole plan |
| Memsep.ProbeRecords | src/memsep.c:249-294 | the record loop runs the plan's probes in order: either every step held and all probes ran, or the process exits 255 right after the plan's first failing step |
| Memsep.ProbeRecord | src/memsep.c:271-293 | one record contributes its write probe (range without `w`) and then its gap read probe, and stops the process at the first step that did not hold |
| Memsep.ProbeSite | src/memsep.c:276-292 | one probe extends the run by the next planned site; on failure it is the first failure of the plan |
| Memsep.AllHeldNoFailure | src/memsep.c:166-174 | when every step held there is no first failure |
| Privileged.FirstStop | src/amtu-i86.c:105-133 | the first catalog step whose fork failed or whose checked child did not pass, with no earlier one; None iff none |
| Privileged.AmtuPriv | src/amtu-i86.c:73-460 | the driver loop ends as the catalog outcome: the first stop decides -1 (or exit 255 on an exit-on-fork-failure step), otherwise 0 with the success record on every architecture but aarch64; a child passes through the file's own handlers or those already installed in the process |
| Privileged.RunInstruction | src/amtu-i86.c:105-133 | one instruction block ends the test exactly when its step stops, with exit 255 or -1 as the catalog entry says |
| Privileged.StopsAt | src/amtu-i86.c:124-133 | a stopping step after steps that did not stop is the catalog's first stop |
| Privileged.FirstStopExtends | src/amtu-i86.c:124-165 | once a stop is found, looking further does not change it |
| Privileged.PassesIffEveryCheckedChildFaulted | src/amtu-i86.c:105-459 | 0 iff every fork succeeded and every checked child faulted with a handled signal |
| Privileged.FailureStopsAtFirstFailingStep | src/amtu-i86.c:124-196 | a failing test forked exactly up to its first failing step, and later instructions never ran |
| Privileged.SuccessLoggedIffPassed | src/amtu-i86.c:453-459 | the success record is written iff the test passed and the architecture is not aarch64 |
| Privileged.SurvivorFails | src/amtu-i86.c:56-62 | a child whose instruction completed never passes, and exits 255 on either survival path |
| Privileged.PpcIgnoresMfspr17 | src/amtu-ppc.c:162-191 | on ppc, how the mfspr 6,17 child ended never changes the outcome |
| Privileged.FirstStopAgree | src/amtu-i86.c:105-326 | the first stop depends only on which steps stop |
| Privileged.X86_64ExtendsI386 | src/amtu-i86.c:356-451 | x86-64 runs the seven i386 instructions, then lmsw, rdmsr, wrmsr, which return -1 when fork fails |
| Privileged.HandledSignalCounts | src/amtu-i86.c:82-93 | i386, x86-64 and aarch64 handle eight distinct signals (SIGIOT is SIGABRT); s390 and ppc handle two |
| Privileged.LeftoverIrrelevantOnX86AndAArch64 | src/memsep.c:122-127 | on i386, x86-64 and aarch64 the handlers `memsep` leaves installed never change the outcome, because the file installs them itself |
| Privileged.PpcSigbusPassesAfterMemsep | src/amtu-ppc.c:79-83 | on ppc, after `memsep` ran a probe, children killed by SIGBUS pass through its leftover handler; without it the first one fails the test |
| Privileged.HltReturnFails | src/amtu-i86.c:105-133 | a HLT child that returns into `main` fails the test at the first step |
| Amtu.ParseOptions | src/amtu.c:83-115 | the getopt loop ends as the option fold over the characters |
| Amtu.UsageStays | src/amtu.c:108-113 | once `usage` is reached no later character matters |
| Amtu.ParsedIffKnownLetters | src/amtu.c:83-115 | the loop completes iff every character is one of d, m, s, i, n, p |
| Amtu.DebugIffGiven | src/amtu.c:85-87 | `debug` is set iff `-d` was given |
| Amtu.CounterCountsFlag | src/amtu.c:88-107 | each test counter equals the number of times its letter was given |
| Amtu.RunAllIffNoSelector | src/amtu.c:76-107 | `testspecified` stays 1 iff no test letter was given |
| Amtu.SelectedIffFlagOrNone | src/amtu.c:117-140 | a test runs iff its letter was given or no test letter was |
| Amtu.OccursIffIn | src/amtu.c:88-107 | a letter was counted iff it occurs in the arguments |
| Amtu.Or | src/amtu.c:124 | OR-ing v into rc gives 0 iff both are 0 |
| Amtu.ProcessStatus | src/amtu.c:156 | the shell sees a status in 0..255 |
| Amtu.RunTest | src/amtu.c:117-140 | one test block of `main` is one step of the run, the first assigning rc and the rest ORing |
| Amtu.AmtuMain | src/amtu.c:70-157 | `main` ends as the run specification of the parsed options |
| Amtu.RunFromCompletes | src/amtu.c:117-156 | the run never ends in `usage`; it completes iff every selected test returned, else a selected test exited |
| Amtu.RunFromRan | src/amtu.c:117-140 | a completed run started exactly the selected tests, in the fixed order |
| Amtu.RunFromAudit | src/amtu.c:142-155 | the success record is written iff the final rc is 0, otherwise the failure record |
| Amtu.RunFromRc | src/amtu.c:117-156 | the final rc is 0 iff every selected test returned 0 |
| Amtu.AllSelectedFrom | src/amtu.c:117-140 | without test letters all five tests run |
| Amtu.Position | src/amtu.c:117-140 | every test has its place in the order memory, memsep, network, disk, privileged |
| Amtu.SelectedFromMembers | src/amtu.c:117-140 | a test runs from position k on iff it is selected and placed at or after k |
| Amtu.SameSelectionSameRun | src/amtu.c:117-156 | option states that select the same tests run the same way |
| Amtu.UsageIffUnknownOrHelp | src/amtu.c:57-68 | the program ends in `usage` (status 255) iff some character is not one of dmsinp |
| Amtu.DefaultRunsEverything | src/amtu.c:76 | with no test letter all tests run, and `-d` alone runs as no option |
| Amtu.RepeatedFlagNoEffect | src/amtu.c:88-107 | repeating a letter changes nothing |
| Amtu.SelectedTestsRunInOrder | src/amtu.c:117-156 | the tests given run in the fixed order; rc 0 iff they all returned 0; success audited iff rc 0 |
| IoDisk.GetIoCtrl | src/iodisktest.c:152-219 | `(name[2]-'a')/2+1` for a letter a..z, in 1..13; 0 for any other character |
| IoDisk.IoCtrlPairsAndOrder | src/iodisktest.c:158-210 | letters of one pair share a controller, and the numbering grows with the letter |
| IoDisk.ContainsIffOccurs | src/iodisktest.c:319 | `strstr` finds the pattern iff it occurs at some offset |
| IoDisk.Partitions | src/iodisktest.c:313-368 | at most one record per line, each starting with zero counters and unassociated |
| IoDisk.PartitionsAreKeptLines | src/iodisktest.c:313-368 | the partition names are exactly the tokens of the lines neither blank nor containing "major" |
| IoDisk.CollectPartitions | src/iodisktest.c:299-368 | the array's first m slots hold the partition records in line order, and every later slot is the empty (NULL) entry the later loops stop at |
| IoDisk.PartitionsGrow | src/iodisktest.c:313-368 | reading more lines never removes records |
| IoDisk.FirstMatchFrom | src/iodisktest.c:507-510 | the first partition with a 3-character name occurring in the device name; None iff there is none |
| IoDisk.CreditFilesystem | src/iodisktest.c:507-534 | the array afterwards is the credited sequence, and found iff a partition matched |
| IoDisk.CreditKeepsNames | src/iodisktest.c:507-534 | crediting keeps the number and names of the partitions |
| IoDisk.FirstMatchByNames | src/iodisktest.c:507-510 | matching depends only on the partition names |
| IoDisk.CreditChangesFirstMatchOnly | src/iodisktest.c:507-534 | only the first match changes: it keeps its name, becomes associated, rw_count grows by one when the options contain "rw" and stays the same otherwise, likewise ro_count with "ro" |
| IoDisk.RemountRoCountsBothAndIsNeverWritten | src/iodisktest.c:517-536 | options "rw,errors=remount-ro" contain both "rw" and "ro", so the filesystem counts as rw and ro and is never write-tested |
| IoDisk.StrNCpy | src/iodisktest.c:561-562 | `strncpy` yields a prefix of the source of at most n characters, exactly n when the source is longer, and all of a source that fits |
| IoDisk.StrNCat | src/iodisktest.c:563-566 | `strncat` keeps the destination and appends a prefix of the source of at most n characters; with room for all of the source it appends it whole |
| IoDisk.Template | src/iodisktest.c:539-566 | the template is the mount point followed by "/XXXXXX", and it fits with its NUL in the allocation |
| IoDisk.VerifyReadBack | src/iodisktest.c:739-776 | the file passes iff it reads back exactly the written string |
| IoDisk.Warnings | src/iodisktest.c:799-823 | no more warnings than partitions |
| IoDisk.WarningsAreWarnedPartitions | src/iodisktest.c:799-823 | a warning is issued iff the partition is associated, rw_count 0, ro_count > 0, no fd/sd/cd in its name, and on a known controller |
| IoDisk.EmitWarnings | src/iodisktest.c:799-823 | the loop issues exactly the warnings of the partitions in order |
| IoDisk.NumEligible | src/iodisktest.c:536-537 | at most one write test per filesystem |
| IoDisk.EligibleAfterCredit | src/iodisktest.c:536-537 | crediting a filesystem does not change which filesystems are eligible |
| IoDisk.NumEligibleAfterCredit | src/iodisktest.c:498-792 | crediting a filesystem does not change how many are eligible |
| IoDisk.DiskPassesIffAllReadBack | src/iodisktest.c:498-792 | the filesystem loop completes iff every eligible file read back the string, and then every filesystem was credited |
| IoDisk.IoDiskTest | src/iodisktest.c:264-838 | -1 when a file cannot be opened or a write test fails; otherwise 0 with the warnings of the fully credited partitions |
| NetworkIo.Stored | src/networkio.c:241-242 | the stored name is a prefix of the name, of at most `limit` bytes, and the whole name when it fits |
| NetworkIo.CollectDistinctAndComplete | src/networkio.c:205-244 | the interface list has no duplicates, and holds exactly the stored names of the kept addresses |
| NetworkIo.CollectKeepsFirstSeenOrder | src/networkio.c:172-245 | entries keep the order in which their names were first seen |
| NetworkIo.PointerSizedNamesCollapse | src/networkio.c:205-242 | as written, ethernet0 and ethernet1 collapse into the single entry "ethernet" |
| NetworkIo.WholeNamesListEveryInterfaceOnce | src/networkio.c:205-244 | comparing whole names, every kept interface is listed once under its own name |
| NetworkIo.GetInterfaces | src/networkio.c:156-283 | -1 if `getifaddrs` fails, else the count of entries, which are the collected list |
| NetworkIo.PrintableDraws | src/networkio.c:330-336 | every character drawn is printable (32..126) |
| NetworkIo.PrintableDrawsPrefix | src/networkio.c:330-336 | drawing more never loses characters already drawn |
| NetworkIo.Message | src/networkio.c:328-336 | the message is exactly MSGSIZE characters, each printable and below 128 |
| NetworkIo.GenerateMessage | src/networkio.c:328-336 | the loop stores the first MSGSIZE printable draws |
| NetworkIo.StoreDraw | src/networkio.c:330-336 | one draw extends the stored message by its character exactly when it is printable |
| NetworkIo.Filled | src/networkio.c:417-419 | the receive buffer keeps its size |
| NetworkIo.BufferAfter | src/networkio.c:415-425 | the receive buffer keeps its size across attempts |
| NetworkIo.ReceivePassesIffMatched | src/networkio.c:414-441 | an interface passes iff within the first MAXTRIES attempts and before any error the buffer came to hold the message; a match on the fifth attempt passes |
| NetworkIo.ReceiveWithRetries | src/networkio.c:414-441 | at most MAXTRIES attempts; every attempt before the last returned a datagram that left the buffer unequal to the message; a last attempt before the limit either errored or matched; the buffer ends as the attempts made it; the interface fails iff the last attempt errored or did not match, which is iff the receive specification says so |
| NetworkIo.Receive | src/networkio.c:417-419 | the datagram, cut to the buffer size, overwrites the front of `packetbuf` and leaves the rest |
| NetworkIo.Zeros | src/networkio.c:359 | `packetbuf` is zeroed before each interface |
| NetworkIo.NoFailuresIffAllPass | src/networkio.c:347-443 | no failure is counted iff every interface had its message sent and received |
| NetworkIo.NetworkPassesIff | src/networkio.c:447-463 | 0 iff some interface was listed and every listed interface passed; otherwise -1 |
| NetworkIo.BindOrSendFailureContinues | src/networkio.c:382-406 | a bind or send failure counts one failure and testing goes on |
| NetworkIo.NetworkTest | src/networkio.c:295-464 | the test ends as the network specification for the given name limit: -1 without interfaces or on a receive-socket failure, 0 iff no failures |

## Findings

| source | as written | input that shows it | evidently intended | confidence | as-written member | corrected member |
|---|---|---|---|---|---|---|
| src/networkio.c:205-242 | names are copied and compared on `sizeof(ifa->ifa_name)` bytes, the size of a `char *` (8 on a 64-bit build) | two up, broadcast-capable IPv4 interfaces ethernet0 and ethernet1: the list has one entry, "ethernet", and ethernet1 is never tested | compare and store the whole interface name, so every configured interface is tested once | high, not executed | NetworkIo.PointerSizedNamesCollapse | NetworkIo.WholeNamesListEveryInterfaceOnce |

`NetworkIo.NetworkTest` takes the name limit as a parameter. With
`Some(POINTER_SIZE)` it is the test as written; with `None` it is the
corrected test, over whole names, for which
`NetworkIo.WholeNamesListEveryInterfaceOnce` holds.

## Left out

- Forking, `wait`, signal delivery and the inline assembly are not modelled. How each child ended is an input. `wait` reaps any child, which is harmless only because one child runs at a time.
- `getpwnam` and `seteuid` are reduced to whether user nobody exists. Resetting the UID to root at the end of `memsep` is not modelled.
- Reading and parsing `/proc/self/maps`, `/proc/partitions` and `/etc/mtab` are not modelled; records arrive already parsed. The unchecked `sscanf` in `memsep` would reuse the previous line's values on a malformed line; records are taken as parsed correctly.
- `rand`, `random`, `srand` and the 64-bit `RANDNUM` composition are not modelled; random values are inputs.
- Memsep.EveryByteReachable: holds for unconstrained draws only; the range of the real `RANDNUM` (below 2^31, or bit 31 clear on LP64) is not modelled, so offsets it cannot produce are not excluded.
- Amtu.AmtuMain: each test's end is an input, so `main` does not itself pass `memsep`'s leftover handlers to `amtu_priv`. That link is `Privileged.MemsepLeftover`, the handlers a `Privileged.Caller` holds after a `memsep` run, and the lemmas beside it.
- The `memory()` test is not part of this model. `main` takes its result as an input, like the result of every other test.
- Audit and log records and console output are not modelled, except whether the success or failure record is written.
- `Memsep.Memsep` and `Privileged.AmtuPriv` need one input per planned step (`rands`, `runs`). This is a supply of outcomes, not a limit of the source.
- Memsep.Memsep: requires every listed range to have start < end (`WellFormed`). The kernel never lists an empty mapping; on one the source would compute `RANDNUM % 0` at `src/memsep.c:103-106`, which the model does not represent.
- `IoDisk.IoDiskTest`:
  - requires fewer than MAXINDEX partitions and mtab entries, so the NULL-terminated arrays do not overflow;
  - requires one write outcome per filesystem.
- The disk test's file steps are not modelled one by one. `mkstemp`, `fdopen`, `fputs`, `fsync`, `opendir`, `dirfd`, the directory sync and the re-open all collapse into one outcome, `IoFailure`: any of them fails and the test returns -1.
- The disk test's random string is an input. The source fills all 10485670 bytes without a terminating NUL, so `fputs` reads past the buffer; the model writes exactly the given string.
- In the read-back loop, a character read past the end of the written string counts as a mismatch. The source compares it against memory past the buffer.
- `while(!feof)` over `/proc/partitions` processes the last line a second time at end of file; the model takes each line once.
- `assoc_part` is never initialised in the source. The model starts it false.
- Malloc failures are not modelled, and neither are the checks on the wrong variable at `src/iodisktest.c:344` and `src/iodisktest.c:380-425`.
- `get_io_ctrl` on a name shorter than two characters reads past the string; the model gives 0, as for a two-letter name.
- `NetworkIo.GetInterfaces` requires at most MAX_INTERFACES entries. Overflow of `interface_list` is not modelled.
- In `get_interfaces`, `if_nametoindex` and the link-address loop are not modelled. The loop's name test is inverted, and its NULL check on an array can never fire, so it never returns -1.
- Socket creation, `bind`, `sendto` and `recvfrom` are inputs per interface. A receive with nothing queued returns -1, as `MSG_DONTWAIT` makes it.
- Comparing the buffer with the message by `strncmp` over MSGSIZE bytes is modelled as sequence equality. The message has no NUL, so the two agree.
