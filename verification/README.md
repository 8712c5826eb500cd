# Verified models of the QCC730 SDK's stateful core

The SDK is mostly thin wrappers, but a few of its parts carry real state, loops and arithmetic. This project
models those parts in Dafny and proves what they promise, over all inputs, all runs and all interleavings:

- **The console.** The tokeniser rewrites the buffer that it scans (`Tokeniser`, with quotes and escapes in unusual
  places in `QuoteLaws`); a line editor and a collector feed
  it (`ConsoleInput`); command groups form a mutable tree on the heap (`GroupTree`); commands are looked up by
  displayed number and by name (`CommandLookup`), and the parameters of a line are followed through the tree
  (`CommandDescent`); commands entered with `&` are handed to threads (`BackgroundCommands`); numerals are parsed in
  32-bit arithmetic (`IntegerParsing`).
- **The file-system stack.** The fd table, the POSIX descriptors and the LittleFS pools are taken and rolled back
  together (`FileTables`); names are resolved to the longest mount point (`Mounts`).
- **The WLAN driver shell.** Event payloads travel through a ring of slots (`EventRing`); scan batches are
  accumulated (`ScanResults`) and handed to a waiting caller (`ScanHandoff`); a disconnect races with roaming
  (`Disconnect`), whose timer backs off (`Roaming`).
- **The clock.** Dates are converted to NTP seconds and back across the wrap of 2036, and run with a millisecond
  timer and a time zone (`Rtc`).
- **GPIO callbacks.** A linked list stands for a map from pins to callbacks, and callbacks may change it
  (`GpioCallbacks`).

Code that changes state in place is a class or an array method proved against a function on values; the laws are
lemmas about that function. Concurrent parts are state machines whose steps are the single shared accesses (or the
critical sections of a mutex), with an invariant that every step keeps. Sizes configured at build time are arbitrary
where the code does not fix them. `Basics` and `Bytes` hold what several modules share. `dafny verify dfyconfig.toml` checks all
of it.

## Where the code and its promises differ

These are results of the proofs; each is a lemma.

- After an escape the last byte of the line stays behind, because the move does not take the terminator along. A
  typed line therefore reads back exactly when nothing was escaped, or a space follows the last argument, or there are
  18 arguments and the last one is quoted (`Tokeniser.RoundTrip`).
- Looking a command up by name writes back its displayed number minus one, except for Help
  (`CommandLookup.WrittenBackNumber`).
- The overflow check of the integer parser compares with the previous value and misses wrap-arounds: 6000000000 is
  accepted as 1705032704. An accepted numeral is right exactly when it is representable
  (`IntegerParsing.ExactIffRepresentable`, `IntegerParsing.WrongNumberAccepted`). Strings without digits are accepted
  as zero, and the bytes 0x10 to 0x19 count as digits.
- A relayed event with a bad id takes a slot that never comes back (`EventRing.BadIdsLoseSlots`,
  `EventRing.LostRingStaysDead`, with a run in `EventRing.BadIdsLoseRing`).
- A relaying task that stalls between its copy and its send while another one goes on has its payload overwritten, in
  every ring of two or more slots, and the handler reads another event's bytes (`EventRing.OvertakingOverwrites`); no payload is ever overwritten if and only if
  every accepted relay finds the messages in flight of its ring fewer relays old than it has slots
  (`EventRing.OverwrittenIffTooOld`), which sends in the order of the copies guarantee.
- Disconnecting stops roaming without the context mutex, so a timer handler that is under way restarts the timer
  afterwards, with the flag down (`Disconnect.TimerMaySurvive`); and because the flag is then down, the next disconnect
  does not stop that timer either (`Disconnect.StrayTimerIsMissed`). `Disconnect.TimerRunsOnIffLeft` says exactly when
  a timer survives.
- The completion event of a scan does not say which scan it is of, and a scan can be requested while one is in
  progress. A caller that waits for the second is then woken by the completion of the first
  (`ScanHandoff.OverlapMisleads`); waits are sure to be answered right if and only if no scan is in progress at the
  request (`ScanHandoff.RightIffNoneInProgress`).
- A directory stream whose close failed still refers to the directory entry that was given back. Closing it again gives
  the entry back a second time, which breaks the tables exactly when another stream has taken it
  (`FileTables.CloseDirKeeps`, `FileTables.CorrespondsIffNoneFreed`, with a run in `FileTables.RetriedCloseBreaks`).
- Unregistering a group does not look at the executing group, which Help reads; it stays live exactly when no
  unregistered group contains it (`GroupTree.LiveIffSpared`).
- Enabling a GPIO interrupt without memory returns from inside its critical section
  (`GpioCallbacks.CallbackList.Enable`).
- A batch of scan results that repeats a new address stores it twice; `ScanResults.StoredIsDeduplicated` gives the
  exact condition.
- Reading the clock, setting it to the reading and reading it again is one reading over the summed time, exactly
  unless the sum overflows the 32-bit timer (`Rtc.GetSetGet`). The documentation of the date type speaks of the years
  1980 to 2100; the code accepts 1970 to 2036.

## Model

| member | source | states |
|---|---|---|
| `Tokeniser.Process` | modules/console/qcli.c:730-824 | On every buffer the in-place tokeniser terminates, stays inside the buffer, keeps its final terminator, fills at most 18 parameters, and the strings its pointers lead to are those of the reference reader, which also decides rejection |
| `Tokeniser.AtMostEighteen` | modules/console/qcli.c:750-751 | No line yields more than 18 parameters |
| `Tokeniser.DropEscapeInPlace` | modules/console/qcli.c:780-782 | The overlapping move slides the live bytes down by one, leaves the last live byte and everything behind it as they were, and touches nothing in front |
| `Tokeniser.HandleEscape` | modules/console/qcli.c:774-794 | An escape is legal exactly when a quote or backslash follows within the live line; then it is closed up, otherwise nothing changes |
| `Tokeniser.CutInPlace` | modules/console/qcli.c:768-797 | The inner loop ends where the reference reader ends, with its text in the buffer, and changes nothing in front of the parameter |
| `Tokeniser.BeginInPlace` | modules/console/qcli.c:752-761 | Leading spaces and one opening quote are consumed, as the reference reader does |
| `Tokeniser.EndInPlace` | modules/console/qcli.c:799-809 | The parameter is terminated in the buffer, a closing quote toggles the flag, and reading goes on behind it |
| `Tokeniser.CutReadsEscaped` | modules/console/qcli.c:768-797 | A text whose quotes and backslashes are escaped is read back, and each escape leaves one stale copy of the line's last byte at the end |
| `Tokeniser.ReadLine` | modules/console/qcli.c:745-818 | A line of quoted and bare arguments is read argument by argument, for any spacing and any number of escapes, up to what lies behind the last one |
| `Tokeniser.StrayQuotesRead` | modules/console/qcli.c:745-824 | Stale quotes behind a line read as one empty parameter per pair, up to the limit, and an odd one rejects the line |
| `Tokeniser.BareAtEnd` | modules/console/qcli.c:745-824 | A bare argument at the very end of a line survives exactly when nothing was escaped |
| `Tokeniser.ReadsBackBeforeSpace` | modules/console/qcli.c:745-824 | Lines that end in a space read back as their arguments |
| `Tokeniser.ReadsBackAfterQuote` | modules/console/qcli.c:745-824 | Lines that end in a quoted argument read back as their arguments followed by the stale quotes' parameters |
| `Tokeniser.ReadsBackAfterBare` | modules/console/qcli.c:745-824 | Lines that end in a bare argument read back exactly when nothing was escaped |
| `Tokeniser.RoundTrip` | modules/console/qcli.c:730-824 | Any list of at most 18 arguments, spelled out with quotes and escapes and tokenised, comes back if and only if nothing was escaped, or a space follows, or there are 18 arguments with the last one quoted |
| `Tokeniser.EighteenThenAnything` | modules/console/qcli.c:750-818 | Eighteen arguments, escaped or not, come back whatever follows them on the line |
| `Tokeniser.MoreThanEighteen` | modules/console/qcli.c:750-818 | Of more than eighteen arguments the first eighteen come back and the rest is dropped without an error |
| `QuoteLaws.GluedReadsAsTwo` | modules/console/qcli.c:757-803 | A bare text with a quoted one glued to it reads as two parameters, behind any arguments, with any escapes and whatever follows; the quote that ends the first stays open for the second |
| `QuoteLaws.QuoteInTheMiddle` | modules/console/qcli.c:757-824 | The line x"y" is the two parameters x and y, spaces in y and behind it included |
| `QuoteLaws.MissingQuoteRejects` | modules/console/qcli.c:820-824 | The line x"y is rejected, trailing spaces or not |
| `QuoteLaws.OpenArgumentRejects` | modules/console/qcli.c:820-824 | A quote opened at the start of an argument, behind any others, and not closed rejects the line |
| `QuoteLaws.BadEscapeRejects` | modules/console/qcli.c:774-794 | A backslash before anything but a quote or a backslash, or at the end of the line, rejects the line, behind any arguments and any text, stale bytes or not |
| `QuoteLaws.Examples` | modules/console/qcli.c:745-824 | Two lines given byte by byte, with their parameters |
| `ConsoleInput.LineEditor.Key` | modules/console/qcli_pal.c:162-201 | For every key stream the index stays at most 500; a key acts on the line as the specification says; Enter hands over the line |
| `ConsoleInput.EraseChar` | modules/console/qcli_pal.c:176-191 | Erasing removes exactly the last well-formed UTF-8 character |
| `ConsoleInput.KeysByCode` | modules/console/qcli_pal.c:176-199 | What every key does, by its code and with the limit of 500 bytes |
| `ConsoleInput.EditorIsAStack` | modules/console/qcli_pal.c:145-205 | For well-formed characters and backspaces that fit, the line is the encoding of the stack that typing pushes and erasing pops |
| `ConsoleInput.LineCollector.EndLine` | modules/console/qcli.c:977-1008 | The buffered line is tokenised with zeros behind it, and the buffer is cleared |
| `ConsoleInput.LineCollector.Feed` | modules/console/qcli.c:977-1008 | Received bytes are cut into lines at carriage returns and each line is tokenised; bytes beyond 256 are dropped |
| `ConsoleInput.CollectInChunks` | modules/console/qcli.c:977-1008 | It does not matter in what chunks the bytes arrive |
| `ConsoleInput.CollectLine` | modules/console/qcli.c:977-1008 | A line of any length is processed once, as far as it fits into 256 bytes |
| `ConsoleInput.TypedLineArrives` | modules/console/qcli_pal.c:145-205 | Every line that the editor submits, up to 500 bytes, is tokenised as its first 256 bytes |
| `ConsoleInput.TypedArgumentsArrive` | modules/console/qcli_pal.c:145-205 | Keystrokes whose final text, as far as it fits, spells out arguments reach the command as these arguments, exactly when the line reads back: editor, collector and tokeniser together |
| `ConsoleInput.SurplusArgumentsAreDropped` | modules/console/qcli_pal.c:145-205 | With more than eighteen arguments, the first eighteen arrive |
| `GroupTree.Console.Register` | modules/console/qcli.c:1044-1087 | With a group and memory, the new group goes to the end of its parent's list (of the root's without a parent), everything else stays, and the graph stays a tree; otherwise NULL and no change |
| `GroupTree.Console.Unregister` | modules/console/qcli.c:882-937 | Removes exactly the subtree, or nothing when the group is not in its parent's list; links keep agreeing with the order of siblings; a current group inside the subtree becomes the parent |
| `GroupTree.Console.UnregisterSubgroups` | modules/console/qcli.c:882-937 | The loop over the subgroups removes all subtrees below the group, in spite of the list shrinking under it |
| `GroupTree.Console.UnregisterGroup` | modules/console/qcli.c:1096-1108 | For every registered handle: the tree loses exactly that subtree, the current group stays live, and the executing group stays live exactly when it was outside the subtree |
| `GroupTree.Console.Detach` | modules/console/qcli.c:882-937 | Unlinks a group from the front or the middle of its parent's list, and says whether it was there |
| `GroupTree.Console.Append` | modules/console/qcli.c:1044-1087 | Links a new entry behind the last subgroup |
| `GroupTree.Console.Up` | modules/console/qcli.c:194-209 | The current group becomes its parent, the root stays |
| `GroupTree.Console.Root` | modules/console/qcli.c:221-236 | The current group becomes the root |
| `GroupTree.EveryPathEndsAtRoot` | modules/console/qcli.c:1044-1087 | In a tree, parent links lead from every live group to the root |
| `GroupTree.PruneKeepsTree` | modules/console/qcli.c:882-937 | Removing a subtree leaves a tree |
| `GroupTree.GrowKeepsTree` | modules/console/qcli.c:1044-1087 | Adding a group leaves a tree |
| `GroupTree.GrowThenPrune` | modules/console/qcli.c:1044-1108 | Registering a group and unregistering it restores the tree |
| `GroupTree.PruneAbsorbs` | modules/console/qcli.c:882-937 | Unregistering a descendant first makes no difference |
| `GroupTree.PruneCommutes` | modules/console/qcli.c:882-937 | The order of unregistering two separate groups makes no difference |
| `GroupTree.LiveIffSpared` | modules/console/qcli.c:832-844 | Over any run of registrations and unregistrations, an entry that the executing group refers to is live if and only if no unregistered group contained it |
| `CommandLookup.Memcmpi` | modules/console/qcli_util.c:54-95 | Zero exactly when the buffers agree but for letter case; otherwise the sign of the first difference |
| `CommandLookup.Matches` | modules/console/qcli.c:464-484 | Comparing a name with its terminator finds equal names and never a mere prefix |
| `CommandLookup.Display` | modules/console/qcli.c:342-405 | The displayed list: Help, then Up and Root below the root, then commands, then subgroups, numbered from 1 |
| `CommandLookup.FindByIndex` | modules/console/qcli.c:545-604 | A number finds an entry exactly when it is displayed, and finds the displayed entry, although the subtractions wrap around |
| `CommandLookup.FindByString` | modules/console/qcli.c:451-530 | A name finds the first displayed entry with that name, letter case aside, or nothing when there is none; the number written back is the displayed one for Help and one less otherwise |
| `CommandLookup.FirstNamedIsUnique` | modules/console/qcli.c:451-530 | There is at most one first match, so the contract determines the result |
| `CommandLookup.WrittenBackNumber` | modules/console/qcli.c:451-604 | A search by name that finds displayed number i + 1 writes back 1 for Help and i otherwise, which leads back to the entry only for Help |
| `CommandLookup.SameNameIff` | modules/console/qcli_util.c:70-83 | Names are the same exactly when they have the same letters, small or capital |
| `CommandLookup.HelpInAnyCase` | modules/console/qcli.c:464-484 | "help" and "HELP" mean Help in every group, and "hel" does not |
| `CommandLookup.DisplayedByName` | modules/console/qcli.c:342-405 | Help; below the root Up and Root; then the commands; then the subgroups, in order |
| `CommandDescent.Find` | modules/console/qcli.c:422-435 | A parameter that parses as an integer means the entry with that displayed number, any other the first entry of that name |
| `CommandDescent.Execute` | modules/console/qcli.c:826-858 | The parameters are followed from the current group to a command, a group or nothing; only a group at the end becomes the current one; the executing group is the last group on the way, and live |
| `CommandDescent.DescentSplits` | modules/console/qcli.c:837-858 | The parameters before the command lead to its group one by one, it is looked up there, and all those behind it are its own |
| `CommandDescent.NumeralsAreNumbers` | modules/console/qcli.c:427-431 | A parameter that parses as an integer is never taken as a name |
| `CommandDescent.OthersAreNames` | modules/console/qcli.c:427-431 | Any other parameter means the first entry of that name, and nothing exactly when there is none |
| `CommandDescent.EveryGroupIsReachable` | modules/console/qcli.c:837-852 | From the root, the numbers displayed on the way lead to every live group, one number for each level |
| `CommandDescent.OneLineReachesIff` | modules/console/qcli.c:837-852 | One line, of at most 18 parameters, leads from the root to a group if and only if it is at most 18 levels down |
| `CommandDescent.LinesReachEveryGroup` | modules/console/qcli.c:837-852 | However deep a group is, such lines lead to it one after the other |
| `BackgroundCommands.StepKeeps` | modules/console/qcli.c:606-706 | Every step of the console task and of the command threads keeps the hand-off invariant |
| `BackgroundCommands.EveryThreadRunsItsOwnLine` | modules/console/qcli.c:606-706 | Under every interleaving the n-th background command runs the command and the parameters of the line it was entered on, taken from the lines of the run, in its own copy and in at most 17 entries; the thread count is the number of live threads, within 0..5 |
| `BackgroundCommands.BackgroundIffAmpersand` | modules/console/qcli.c:670-683 | A command goes to a thread, or is refused at five of them, exactly when its line ends in the parameter "&" |
| `BackgroundCommands.WaitingIsAnswered` | modules/console/qcli.c:692-702 | While the console waits unsignalled, the thread it waits for is live and can take its next step towards the signal |
| `IntegerParsing.StringToInteger` | modules/console/qcli_util.c:144-217 | Accepts exactly the strings of digits whose value modulo 2^32 never drops from one digit to the next and, for signed numerals, ends below 2^31; yields that value, and zero on failure |
| `IntegerParsing.ReadDigits` | modules/console/qcli_util.c:177-196 | The digit loop in 32-bit arithmetic computes the mathematical value modulo 2^32 |
| `IntegerParsing.Nibble` | modules/console/qcli_util.c:108-127 | Exactly the bytes that are digits after setting bit 0x20 are accepted, with values below 16 |
| `IntegerParsing.AcceptedModulo` | modules/console/qcli_util.c:144-217 | Every accepted string yields what it denotes, modulo 2^32 |
| `IntegerParsing.RepresentableAccepted` | modules/console/qcli_util.c:144-217 | Every representable numeral is accepted with its exact value |
| `IntegerParsing.ExactIffRepresentable` | modules/console/qcli_util.c:189-202 | An accepted numeral has the right value if and only if it is representable |
| `IntegerParsing.WrongNumberAccepted` | modules/console/qcli_util.c:189-191 | 6000000000 passes the overflow check as 1705032704 |
| `IntegerParsing.EmptyNumeralsAccepted` | modules/console/qcli_util.c:144-217 | The empty string, a sign alone and 0x alone are zero |
| `IntegerParsing.DecimalRoundTrip` | modules/console/qcli_util.c:144-217 | For every integer, printing in decimal and parsing gives it back if and only if it lies strictly between -2^31 and 2^31 |
| `IntegerParsing.HexadecimalRoundTrip` | modules/console/qcli_util.c:144-217 | Every unsigned 32-bit integer printed with 0x parses to its signed reading |
| `IntegerParsing.HexStringToArray` | modules/console/qcli_util.c:285-324 | Succeeds exactly when the pairs that fit are hex digits and no digit is left over while there is room; fills the decoded bytes, then zeros, and reports their number |
| `IntegerParsing.HexArrayRoundTrip` | modules/console/qcli_util.c:285-324 | Hex-encoded bytes, with or without 0x, come back, as many as fit |
| `IntegerParsing.Numerals` | modules/console/qcli_util.c:144-217 | "-12", "0XfF", "0xFFFFFFFF" and "1a", byte by byte |
| `IntegerParsing.HexBytes` | modules/console/qcli_util.c:303-312 | "1A2b" is the bytes 0x1A and 0x2B in this order |
| `FileTables.FileStack.Open` | modules/fs/fs_posix.c:87-126 | One call of open is a step of the table relation: it fails with every table entry in use as before, or takes the lowest free fd, descriptor and pool entry and links them |
| `FileTables.FileStack.Close` | modules/fs/fdtable.c:241-259 | One call of close on any number is a step of the relation: a bad fd changes nothing, a good one gives back fd, descriptor and pool entry together |
| `FileTables.FileStack.OpenDir` | modules/fs/fs_posix.c:222-248 | One call of opendir is a step of the relation: a descriptor and a directory entry are taken together or not at all |
| `FileTables.FileStack.CloseDir` | modules/fs/fs_posix.c:250-270 | One call of closedir on NULL, on a stream, or on a stream closed before with or without an error is a step of the relation; the tables stay in order if and only if it does not give back another stream's directory entry |
| `FileTables.FileStack.ReserveFd` | modules/fs/fdtable.c:89-102 | The lowest free fd is reserved, or the table is full and unchanged |
| `FileTables.FileStack.AllocDesc` | modules/fs/fs_posix.c:35-52 | The lowest free descriptor is marked used, with its kind, or all are used and nothing changes |
| `FileTables.FileStack.AllocPool` | modules/fs/littlefs_fs.c:43-54 | The lowest free pool entry is taken, or all are used |
| `FileTables.FileStack.LittlefsOpen` | modules/fs/littlefs_fs.c:292-317 | A pool entry is held exactly when LittleFS succeeds |
| `FileTables.FileStack.VfsOpen` | modules/fs/fs.c:157-194 | The result is that of the first failing check; a descriptor that was not mounted is mounted exactly when the open succeeds, and holds a pool entry then |
| `FileTables.OpenKeeps` | modules/fs/fs_posix.c:87-126 | Every open keeps the correspondence; a failed one leaves everything in use as it was; a successful one returns the lowest free fd |
| `FileTables.CloseKeeps` | modules/fs/fs_posix.c:128-137 | Every close keeps the correspondence, whatever LittleFS answers |
| `FileTables.OpenDirKeeps` | modules/fs/fs_posix.c:222-248 | Every opendir keeps the correspondence |
| `FileTables.CloseDirKeeps` | modules/fs/littlefs_fs.c:523-535 | A closedir keeps the correspondence if and only if it does not repeat a failed one whose entry another stream has taken |
| `FileTables.OpenOutcome` | modules/fs/fs_posix.c:98-125 | The error numbers of open in the order of their causes, and otherwise the lowest free fd, leading to the lowest free descriptor and pool entry |
| `FileTables.OpenDirOutcome` | modules/fs/fs_posix.c:222-241 | The same for opendir |
| `FileTables.CloseOutcome` | modules/fs/fdtable.c:241-259 | -1 and no change for a number that is no used fd; otherwise LittleFS's answer, with exactly that fd, its descriptor and its pool entry free |
| `FileTables.EveryRunCorresponds` | modules/fs/fs_posix.c:87-137 | In every state reachable by open, close, opendir and closedir, failing calls included, used fds, open descriptors and used pool entries are in one-to-one correspondence, up to the first such repeated closedir |
| `FileTables.CorrespondsIffNoneFreed` | modules/fs/fs_posix.c:250-270 | Over every run the tables correspond throughout if and only if there is no such call |
| `FileTables.RetriedCloseBreaks` | modules/fs/fs_posix.c:250-270 | A run of six calls in which a repeated closedir gives back the entry of an open stream |
| `FileTables.NothingLeaks` | modules/fs/fdtable.c:78-102 | There are as many used fds as open files and used pool entries; when nothing is open, everything is free |
| `Mounts.Vfs.GetMountPoint` | modules/fs/fs.c:105-155 | The running-best loop returns the longest mounted path that is a component prefix of the name, or none when there is none |
| `Mounts.Vfs.DoMount` | modules/fs/fs.c:695-773 | Mounts admissible new paths at the end of the list, refuses duplicates, and keeps paths distinct |
| `Mounts.Vfs.Unmount` | modules/fs/fs.c:775-807 | Removes exactly the mount, or fails and changes nothing |
| `Mounts.ResolutionIsUnique` | modules/fs/fs.c:105-155 | The resolution does not depend on the order of mounts |
| `Mounts.CoversIffContinues` | modules/fs/fs.c:130-145 | A mount point covers the names that equal it or continue it with a slash, and no others |
| `Mounts.MountShadows` | modules/fs/fs.c:105-155 | A new mount takes over exactly the names it covers more closely |
| `Mounts.StripPrefix` | modules/fs/littlefs_fs.c:98-105 | "/" for the mount point itself; otherwise the stripped path starts with "/" and the mount point in front of it is the name |
| `Mounts.StripIsInjective` | modules/fs/littlefs_fs.c:98-105 | Different files below a mount point stay different |
| `EventRing.PayloadRing.Relay` | drivers/wlan/wmi_api.c:1390-1408 | The critical section of a relay writes the payload at write pointer times slot length and advances the pointer, or refuses when full; other slots keep their bytes |
| `EventRing.PayloadRing.Free` | drivers/wlan/wmi_api.c:1284-1310 | Recognises exactly the multiples of the slot length inside the buffer, and gives one slot back |
| `EventRing.PayloadRing.CopyInto` | drivers/wlan/wmi_api.c:1403-1404 | The copy changes one slot and no other |
| `EventRing.RelayEvent` | drivers/wlan/wmi_api.c:1378-1410 | A payload that fits a small slot goes to the small ring and a larger one to the large ring, exactly when that ring has a free slot; the other ring stays as it is |
| `EventRing.SmallEventsTakeSmallSlots` | drivers/wlan/wmi_api.c:1392-1401 | In the interleaved model: a small payload leaves the large ring alone and is taken by the small one exactly when it has a free slot |
| `EventRing.LargeEventsTakeLargeSlots` | drivers/wlan/wmi_api.c:1386-1401 | The same for larger payloads; one that fits neither is dropped |
| `EventRing.RelaySends` | drivers/wlan/wmi_api.c:1403-1409 | An accepted relay with a valid id prepares one message for its slot and payload; with a bad id none |
| `EventRing.StepKeeps` | drivers/wlan/wmi_api.c:1284-1410 | Every relay, in-order send, dispatch and free keeps the ring invariant |
| `EventRing.HandlerSeesItsPayload` | drivers/wlan/wmi_api.c:1312-1350 | With sends in order, in every reachable state the handler reads the bytes that were relayed, and used counts stay within 0..number of slots |
| `EventRing.HandledInOrder` | drivers/wlan/wmi_api.c:1312-1410 | With sends in order, accepted events are handled in order, each once |
| `EventRing.ExactlyTheUsedSlots` | drivers/wlan/wmi_api.c:1378-1410 | With valid ids and sends in order, the messages in flight of a ring occupy exactly the used slots behind the write pointer, in queue order |
| `EventRing.EveryRunCounts` | drivers/wlan/wmi_api.c:1284-1410 | With sends in any order, every run keeps the counters in agreement with the messages in flight, and each message where the write pointer was at its relay |
| `EventRing.OverwrittenIffTooOld` | drivers/wlan/wmi_api.c:1397-1409 | Over every run, with sends in any order: no accepted relay writes into the slot of a message in flight, if and only if every accepted relay finds the messages in flight of its ring fewer relays old than it has slots |
| `EventRing.SafeUntilOverwritten` | drivers/wlan/wmi_api.c:1397-1409 | Up to the first such write, every payload in flight is in its slot and no two messages share one |
| `EventRing.OverwritingDamages` | drivers/wlan/wmi_api.c:1403-1404 | Such a write replaces the payload of a message that is still in flight, and with a valid id two messages then share the slot |
| `EventRing.DistinctIffNoneTooOld` | drivers/wlan/wmi_api.c:1397-1409 | With valid ids, no two messages of a ring ever share a slot, under the same exact condition |
| `EventRing.InOrderNeverOverwrites` | drivers/wlan/wmi_api.c:1397-1409 | Sends in the order of the copies meet the condition |
| `EventRing.OneSlotIsSafe` | drivers/wlan/wmi_api.c:1397-1401 | A ring of one slot is never overwritten |
| `EventRing.BadIdsLoseSlots` | drivers/wlan/wmi_api.c:1352-1360 | Over every run a ring's used count is its messages in flight plus its accepted relays with a bad id; with nothing in flight it is zero if and only if there were none |
| `EventRing.LostRingStaysDead` | drivers/wlan/wmi_api.c:1352-1360 | Once bad ids have taken all slots, every later relay to the ring is refused |
| `EventRing.BadIdsLoseRing` | drivers/wlan/wmi_api.c:1352-1360 | From every initial state, as many bad ids as there are slots have that effect |
| `EventRing.OvertakingOverwrites` | drivers/wlan/wmi_api.c:1408-1409 | In every ring of two or more slots, from every initial state, there is a run with two relaying tasks at the end of which a handler reads the bytes of another event than its own |
| `ScanResults.ScanOutput.AddBatch` | drivers/wlan/wmi_api.c:261-283 | A batch appends, up to capacity, its entries whose address was not stored before; the total equals the number stored |
| `ScanResults.ScanOutput.IsKnown` | drivers/wlan/wmi_api.c:265-273 | The inner loop finds whether the address is stored |
| `ScanResults.StoredIsDeduplicated` | drivers/wlan/wmi_api.c:327-349 | The stored list is the first-occurrence deduplication of all batches, truncated, if and only if no batch repeats an address among what it adds; and exactly then its addresses are distinct |
| `ScanResults.DistinctBatchesAreClean` | drivers/wlan/wmi_api.c:327-349 | Batches free of repeats satisfy that condition |
| `ScanResults.DedupGrows` | drivers/wlan/wmi_api.c:327-349 | The reference: deduplicating more input keeps the result so far and appends the deduplicated new entries |
| `ScanResults.RepeatIsStoredTwice` | drivers/wlan/wmi_api.c:265-273 | A batch that repeats a new address stores it twice |
| `ScanHandoff.EveryRunKeepsInv` | drivers/wlan/wmi_api.c:1518-1575 | Every interleaving of serialised callers and scan events keeps the hand-off invariant |
| `ScanHandoff.NoLostWakeUp` | drivers/wlan/wmi_api.c:286-294 | A waiting caller waits for a pending scan, or is about to be signalled, or is signalled, and only one of these; the signal is never set without a waiter |
| `ScanHandoff.OneCompletionPerWait` | drivers/wlan/wmi_api.c:1545-1560 | Each wait is answered by exactly one completion event, accepted while the scan waited for was pending, in order |
| `ScanHandoff.RightWithoutOverlap` | drivers/wlan/wmi_api.c:1525-1529 | Over every run in which no scan is requested while one is in progress, each wait is answered by the completion of the scan waited for |
| `ScanHandoff.OverlapMisleads` | drivers/wlan/wmi_api.c:1525-1529 | From every reachable state in which a scan is about to be requested while one is in progress, there is a continuation in which the caller is woken by the earlier scan's completion |
| `ScanHandoff.RightIffNoneInProgress` | drivers/wlan/wmi_api.c:1525-1529 | When a scan is about to be requested: all later waits are sure to be answered right if and only if none is in progress |
| `ScanHandoff.LateCompletionAnswers` | drivers/wlan/wmi_api.c:251-294 | Two requests in a row reach such a state, and the completion of the first scan wakes the caller that waits for the second |
| `ScanHandoff.CompletionWakes` | drivers/wlan/wmi_api.c:238-304 | The next completion wakes the waiting caller, which gets everything accumulated and leaves no signal behind |
| `ScanHandoff.CallersGetTheirScan` | drivers/wlan/wmi_api.c:1525-1575 | From the steps alone: callers are answered in order, each with the results accumulated from the batches reported between the latest request before its question and that scan's completion, and from no others, as many as it has room for |
| `ScanHandoff.CallersGetDeduplicatedScans` | drivers/wlan/qapi_wlan_base.c:83-106 | For clean batches, these are the distinct first occurrences among them, up to the capacity and the room |
| `Disconnect.EveryRunKeepsInv` | drivers/wlan/wmi_api.c:483-523 | Every interleaving of the caller, the event handler and the timer handler keeps the invariant, over any number of calls and from any state of flag and timer |
| `Disconnect.ReturnsDisconnected` | drivers/wlan/wmi_api.c:1620-1649 | Every call with one disconnect event returns with connected, disconnect-in-progress and the roaming flag all down, under every interleaving |
| `Disconnect.AlwaysMoves` | drivers/wlan/wmi_api.c:1620-1649 | Until a call returns, the caller or its event's handler can move, or the timer's handler holds the mutex and can move: no deadlock, no lost signal |
| `Disconnect.TimerRunsOnIffLeft` | drivers/wlan/wlan_drv.c:45-113 | Once its handler is idle after a return, the timer has run since the return if and only if the caller's last step was a stop with a restart under way, or a skipped stop, the flag being down, with the timer running or about to |
| `Disconnect.NothingMissedAtFirst` | drivers/wlan/wlan_drv.c:87-113 | A call that begins with flag and timer in agreement never skips a stop that was needed |
| `Disconnect.TimerMaySurvive` | drivers/wlan/wlan_drv.c:68-76 | A first call after which the flag is down and the timer runs |
| `Disconnect.StrayTimerIsMissed` | drivers/wlan/qapi_wlan_base.c:108-130 | The next call, with the network cleared, returns without having stopped that timer |
| `Disconnect.HandlerStartsRoaming` | drivers/wlan/wmi_api.c:520-522 | Under every interleaving, when the handler is about to leave the mutex with a network configured, roaming is on |
| `Disconnect.EveryRunKeepsPeriod` | drivers/wlan/wlan_drv.c:45-113 | With all threads interleaved, a stray timer included, the period is 5, 10 or 15 s or a multiple of 30 s up to 630 s and the counter stays within 1..3 |
| `Roaming.Roamer.TimerHandler` | drivers/wlan/wlan_drv.c:45-85 | One expiry: counter, period, commands sent, and restart or end |
| `Roaming.Roamer.RoamingStart` | drivers/wlan/wlan_drv.c:87-101 | Starts an episode at 5 s, unless one is running or no network is configured |
| `Roaming.Roamer.RoamingStop` | drivers/wlan/wlan_drv.c:103-113 | Ends an episode |
| `Roaming.EveryRunKeepsInv` | drivers/wlan/wlan_drv.c:45-113 | Over every run, from any state within the bounds, the counter stays within 1..3 and the period is 5, 10 or 15 s or a multiple of 30 s up to 630 s; once the flag says whether the timer runs, it keeps doing so |
| `Roaming.EpisodeInClosedForm` | drivers/wlan/wlan_drv.c:45-85 | The state after n expiries, with the commands sent, in closed form |
| `Roaming.EpisodeEnds` | drivers/wlan/wlan_drv.c:68-80 | From counter c an undisturbed episode makes exactly 69 - c attempts and ends itself, leaving the counter at 1 |
| `Roaming.StartsDoNotReset` | drivers/wlan/wlan_drv.c:87-101 | Start calls during an episode change nothing, wherever they fall |
| `Roaming.StopEndsEpisode` | drivers/wlan/wlan_drv.c:103-113 | After a stop the timer does not run, and nothing is sent until the next start |
| `Roaming.StartBeginsEpisode` | drivers/wlan/wlan_drv.c:87-101 | A start begins an episode at 5 s exactly when none is under way and a network is configured, and sends nothing |
| `Roaming.CommandsOfAttempt` | drivers/wlan/wlan_drv.c:69-74 | The passphrase is sent first for four authentication modes, and the connect command always comes last |
| `Roaming.ExpirySends` | drivers/wlan/wlan_drv.c:68-80 | An expiry makes one attempt up to a period of 600 s, and none beyond |
| `Rtc.JulianToNtp` | drivers/platform/qapi_rtc.c:59-95 | A date is accepted exactly when its year is within 1970..2036 and its weekday is right, and yields its NTP second modulo 2^32; for months above 13 the result depends on what lies behind the month table, as stated |
| `Rtc.NtpToJulian` | drivers/platform/qapi_rtc.c:97-135 | Every NTP second yields the existing date, with its weekday, whose seconds from 1970 equal it modulo 2^32; both loops end with the month below 12 |
| `Rtc.DayNumberCountsDays` | drivers/platform/qapi_rtc.c:39-47 | The day count is the calendar's: zero on 1970-01-01, one more from each day to the next, across months and leap years, weekdays in step |
| `Rtc.EarlierIsLess` | drivers/platform/qapi_rtc.c:59-95 | Earlier dates have fewer seconds |
| `Rtc.SecondsIdentify` | drivers/platform/qapi_rtc.c:59-135 | Dates with equal seconds are equal |
| `Rtc.DateThereAndBack` | drivers/platform/qapi_rtc.c:59-135 | Date to second to date is the identity on all valid dates 1970..2036, weekday included, across the wrap |
| `Rtc.SecondThereAndBack` | drivers/platform/qapi_rtc.c:59-135 | Second to date to second is the identity for every second; the date is refused exactly when it lies after 2036 |
| `Rtc.OrderKeptUnlessWrapped` | drivers/platform/qapi_rtc.c:59-95 | Earlier dates have smaller NTP seconds if and only if both lie on the same side of 2036-02-07 06:28:16 |
| `Rtc.Clock.NtpGet` | drivers/platform/qapi_rtc.c:195-217 | Fails exactly when the clock was never set; otherwise the stored time advanced by the elapsed milliseconds, where a single carry suffices |
| `Rtc.Clock.NtpSet` | drivers/platform/qapi_rtc.c:226-236 | Stores the time with the timer value, and clears the padding |
| `Rtc.Clock.JulianGet` | drivers/platform/qapi_rtc.c:144-160 | The local date of the reading |
| `Rtc.Clock.JulianSet` | drivers/platform/qapi_rtc.c:169-185 | Stores the converted date less the zone's offset, or fails and changes nothing, for every month field |
| `Rtc.FractionRoundTrip` | drivers/platform/qapi_rtc.c:49-57 | Milliseconds survive the conversion to a binary fraction and back |
| `Rtc.ReadingKeepsMillis` | drivers/platform/qapi_rtc.c:195-217 | A reading counts milliseconds up to whole eras |
| `Rtc.GetSetGet` | drivers/platform/qapi_rtc.c:195-236 | Get, set to that value, get again equals one get over the summed time, if and only if the sum does not overflow 32 bits of milliseconds |
| `Rtc.SetThenGet` | drivers/platform/qapi_rtc.c:144-236 | A date set and read back e < 2^32 ms later, in any zone, shows the date e/1000 seconds later with its weekday |
| `Rtc.ZoneIsAdded` | drivers/platform/qapi_rtc.c:150-157 | A universal time set as an NTP second is shown the zone's hours and minutes later for a zone marked 1, and earlier otherwise, plus the elapsed seconds |
| `Rtc.ZoneIsTakenOff` | drivers/platform/qapi_rtc.c:175-182 | A local date set is kept less the zone for a zone marked 1, and plus the zone otherwise |
| `Rtc.PaddingIsAdded` | drivers/platform/qapi_rtc.c:203-216 | A reading is the stored time plus the timer's advance plus the padding, to the millisecond |
| `Rtc.AcceptedIffWeekday` | drivers/platform/qapi_rtc.c:85-86 | A valid date in range is accepted exactly with the weekday counted from Thursday, 1 January 1970 |
| `Rtc.YearsRefused` | drivers/platform/qapi_rtc.c:67-68 | Years outside 1970..2036 are refused |
| `Rtc.MonthLengths` | drivers/platform/qapi_rtc.c:39-47 | The lengths of the months and the leap years |
| `Rtc.NewYearElsewhere` | drivers/platform/qapi_rtc.c:144-160 | 1 January 2020 universal time, shown eight hours east and west |
| `GpioCallbacks.CallbackList.Enable` | drivers/peripherals/qapi_gpio.c:219-274 | Updates the pin's registration in place or pushes a new one in front; bad parameters change nothing; without memory for a new pin the list stays and the critical section is not left; the list stays well linked with distinct pins |
| `GpioCallbacks.CallbackList.Disable` | drivers/peripherals/qapi_gpio.c:287-344 | Unlinks exactly the pin's node, from the front or the middle, or reports an error and changes nothing |
| `GpioCallbacks.CallbackList.IntHandler` | drivers/peripherals/qapi_gpio.c:349-388 | The handler's calls and the resulting list are those of the specification, walking only through live nodes even though callbacks enable and disable |
| `GpioCallbacks.EveryRunRefinesMap` | drivers/peripherals/qapi_gpio.c:219-344 | Over every run of enabling and disabling the list holds each pin at most once and refines a map |
| `GpioCallbacks.PutAssigns` | drivers/peripherals/qapi_gpio.c:234-262 | Enabling changes one pin's entry and no other |
| `GpioCallbacks.DropRemoves` | drivers/peripherals/qapi_gpio.c:297-340 | Disabling removes one pin's entry and no other |
| `GpioCallbacks.PutKeepsPlaces` | drivers/peripherals/qapi_gpio.c:234-262 | A known pin keeps its place in the list, a new one comes first |
| `GpioCallbacks.PendingIsItsBit` | drivers/peripherals/qapi_gpio.c:368-368 | Pin n is pending exactly when bit n of the status register is set |
| `GpioCallbacks.ReactionsTakeEffect` | drivers/peripherals/qapi_gpio.c:366-385 | The list left after an interrupt is the one before it with all that the callbacks did, in the order of the calls |
| `GpioCallbacks.CallsAscend` | drivers/peripherals/qapi_gpio.c:366-385 | The calls go through pending pins in ascending order, each once |
| `GpioCallbacks.CallsAreComplete` | drivers/peripherals/qapi_gpio.c:366-385 | A pin is called exactly when it is pending and registered at its turn, with the registration of that moment |
| `GpioCallbacks.UntouchedPinsAreCalled` | drivers/peripherals/qapi_gpio.c:349-388 | A pin that callbacks leave alone is called exactly when it was pending and registered at the interrupt |

## Left out

- Console: output and prompts, the recursion of Help through groups, and the RTT console task.
- FindByIndex: requires fewer than 2^31 displayed entries, as any memory does; so do the members that use it.
- JulianToNtp: multiplication overflow of the millisecond fraction is taken to wrap around, as the target does.
- CloseDir: is not called on a stream whose descriptor has been taken by a file since.
- LiveIffSpared: the memory of a freed entry is assumed not to be reused for a new group.
- FileTables: each call is atomic; the answers of LittleFS and the checks in front of it are parameters; reading, writing, seeking and directory entries are not modelled.
- Mounts: the registry of file-system types, renaming (whose destination is compared as raw text only) and unmounting while files are open.
- EventRing: the contents of event handlers.
- BackgroundCommands: what commands do, and the failure of the wait for a created thread.
- ScanHandoff: the firmware completes each requested scan at most once; critical sections of the context mutex are single steps; the separate wait for the start of a scan, and negative room, are not modelled.
- ScanResults: the fields of an entry other than its address are copied without their conversion.
- Disconnect: station mode and blocking mode, with one disconnect event and no join event per call; the path that ends a disconnect with a join event signals before it clears its flag and is not modelled; changing the timer's period is taken not to start the timer by itself.
- Roaming: connection commands are recorded, not answered.
- GpioCallbacks: hardware registers; callbacks that enable interrupts find memory.
- HTTP, flash, I2C, UART, firmware upgrade, 802.1X, HFC, P2P and WLAN parameter interfaces: argument checks and plumbing over engines that are not part of the repository.
- Build, signing and packaging scripts.
