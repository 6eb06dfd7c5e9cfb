# heim in Dafny

A model of the parts of heim that decode bytes and text from the operating system, drive streams, and
decide whether a process handle still means the process it was made for, with proofs of what they promise.

- `Bytes`, `Decimal`, `Tokens`, `Permutations`: byte search, blocks of delimited records, numbers as Rust
  reads and prints them, the fallible token cursor.
- `Environment`, `ProcArgs`, `Command`, `ProcessName`, `CrossPlatform`: environment blocks, the macOS
  `KERN_PROCARGS2` blob, the Linux command line and process name, and what the two systems agree on.
- `Stat`: the `/proc/<pid>/stat` parser.
- `ProcessTable`: handles, `is_running`, signals and `wait` as a transition system. The kernel (spawn, exit,
  reap, id reuse, moving boot time) and any number of calls of the program take their steps in any order. A
  signal is two steps, the check and the kill. Every process has a serial number that no call can see; the
  results compare what the calls say with it. They hold in every run under two assumptions about the
  kernel, which are fields of the state: a reused id gets a later start tick, and boot time does not move.
  Dropping either one has a run that breaks the guarantee. Process ids are positive.
- `ChooseChain`: the stream combinator over streams with any answers in any order, `Pending` included.
- `KeyedLines`, `LineText`, `Meminfo`: the prefiltered line parsers with early exit. A format (separator, keys,
  prefixes) is a value, and one loop serves `Memory` and `Swap`, whose loops are the same in the source.
  `LineText` states what a line says by its characters alone, and `Meminfo` by the names in the source.
- `Frequency`: the average CPU frequency.
- `Records`: the iterators over packed buffers of macOS routes, Windows processors and Windows drives.

Conventions: a call gives `Ok`, `Err` or `Panic`; overflow, counter underflow and out-of-range slices are
panics, as in a build with debug assertions. Bytes are numbers below 256. Text is a sequence of Unicode
characters, and slicing it inside a character or a short line panics where the source slices bytes. Times are
clock ticks, amounts are kilobytes or kilohertz. Iterators are classes with the fields of the source.

Five findings are stated as exact conditions or counterexamples: the macOS decoder mistakes an empty first
argument for padding (`ArgumentsExact`, `EmptyArgumentsExact`); `to_os_string` gives the arguments with single
spaces only for some lines (`CommandLineExact`); repeated keys in `meminfo` can stand in for missing ones
(`SuccessExact`, `RepeatedKeyIsAccepted`); `ChooseChain::is_terminated` can stay false for ever after the end
(`NeverTerminatedAfterYield`); and a core without a maximum pulls the averaged maximum below the averaged
frequency (`MaximumExact`). The comment in `unix/process.rs` speaks of a failed task; the blocking
call returns its result directly, so only a failed `waitpid` leads to the polling loop, and the model follows
the code.

## Model

| member | source | states |
|---|---|---|
| Bytes.Memchr | heim-process/src/sys/unix/env.rs:21 | The search finds the first occurrence, and nothing iff there is none. |
| Bytes.NthFromMeaning | heim-process/src/sys/macos/wrappers/proc_args.rs:79-81 | Occurrence number n has n others in front of it; it is missing iff there are at most n. |
| Bytes.NulsToSpaces | heim-process/src/sys/macos/wrappers/proc_args.rs:92-96 | The in-place loop changes every NUL to a space and no other byte. |
| Environment.FromBytes | heim-process/src/sys/unix/env.rs:16-45 | The scanning loop reads exactly the entries that the block denotes. |
| Environment.ParseExact | heim-process/src/sys/unix/env.rs:21-42 | For all bytes: the entries, written with `=`, are in order and number exactly the records in front of the first empty one that have a `=` behind their first byte. |
| Environment.EntriesAreRecords | heim-process/src/sys/unix/env.rs:26-41 | For all bytes: every entry, written with `=`, is a NUL-terminated record of the block. |
| Environment.RoundTrip | heim-process/src/sys/unix/env.rs:16-45 | Every list of well-formed entries is read back from its encoding, also with a closing NUL and any bytes behind it. |
| Environment.ParseIsWellFormed | heim-process/src/sys/unix/env.rs:26-41 | For all bytes: keys are non-empty, have no `=` behind their first byte, nothing contains NUL, and there are at most as many entries as NULs. |
| Environment.NormalForm | heim-process/src/sys/unix/env.rs:16-45 | For all bytes: encoding what was parsed and parsing again gives the same entries. |
| Environment.PrefixMonotone | heim-process/src/sys/unix/env.rs:21-42 | More input only adds entries at the end, and none behind an empty record. |
| Environment.ClosedIffStopped | heim-process/src/sys/unix/env.rs:22-25 | No continuation changes the result if and only if the scan came to an empty record. |
| ProcArgs.RoundTrip | heim-process/src/sys/macos/wrappers/proc_args.rs:21-99 | For every path, padding, argument list with a non-empty first argument, environment and trailing bytes, the decoder gives back counter, path, arguments, environment and command line. |
| ProcArgs.ArgumentsExact | heim-process/src/sys/macos/wrappers/proc_args.rs:64-86 | For lists with any non-empty argument: the arguments are read back iff the first one is not empty. |
| ProcArgs.EmptyArgumentsExact | heim-process/src/sys/macos/wrappers/proc_args.rs:70-82 | For lists of empty strings only: read back iff nothing but NULs follows the path or fewer NULs than arguments follow the first other byte. |
| ProcArgs.TruncatedBlock | heim-process/src/sys/macos/wrappers/proc_args.rs:79-86 | With fewer NULs than arguments behind the padding: all arguments and the command line are empty, and the environment is read from the second byte of the block. |
| ProcArgs.NoPath | heim-process/src/sys/macos/wrappers/proc_args.rs:57-62 | Without a NUL behind the counter the path, all arguments and the environment are empty. |
| ProcArgs.PanicExact | heim-process/src/sys/macos/wrappers/proc_args.rs:25-29 | For all bytes: the calls panic iff the counter is missing or zero, the environment also when nothing follows the counter. |
| ProcArgs.ProcArgsArguments.Next | heim-process/src/sys/macos/wrappers/proc_args.rs:111-130 | Each call gives the head of the pending arguments and leaves the tail; at the end it gives nothing for ever. |
| ProcArgs.OpenArguments | heim-process/src/sys/macos/wrappers/proc_args.rs:48-54 | The new iterator has all arguments of the blob pending, and opening fails iff the range does. |
| ProcArgs.ToCommand | heim-process/src/sys/macos/wrappers/proc_args.rs:89-99 | The byte loop over a copy computes the command line of the round trip. |
| Command.CommandIter.Next | heim-process/src/sys/linux/process/procfs/command.rs:129-145 | Each call gives the head of the pending arguments and leaves the tail; at the end it gives nothing and does not move. |
| Command.Collect | heim-process/src/sys/linux/process/procfs/command.rs:106-145 | Draining the iterator ends and gives all pending arguments in order. |
| Command.LosslessSplit | heim-process/src/sys/linux/process/procfs/command.rs:91-103 | For every line: arguments are free of the delimiter, each followed by it they make up the line but for the bytes behind the last delimiter, and nothing is dropped iff the line is empty or ends in NUL or a space. |
| Command.CommandLineExact | heim-process/src/sys/linux/process/procfs/command.rs:57-84 | For every line: the command string is the arguments with single spaces iff the line is empty, ends in NUL, or is one byte other than a space. |
| Command.CommandLineForm | heim-process/src/sys/linux/process/procfs/command.rs:57-84 | What the string is for every line: the arguments joined by spaces after a final NUL, each followed by a space after a final space, and otherwise each followed by a space and then the unclosed rest without its last byte. |
| Command.IntoOsString | heim-process/src/sys/linux/process/procfs/command.rs:66-84 | The in-place replacement and the final pop compute the same string as `to_os_string`. |
| CrossPlatform.SameArguments | heim-process/src/sys/linux/process/procfs/command.rs:57-145 | One argument list with a non-empty first argument is recovered from the Linux line and the macOS blob alike, and all command strings are its members with single spaces. |
| ProcessName.NameExtendsStat | heim-process/src/sys/linux/process/mod.rs:39-69 | The name always begins with the kernel's name and is that name when it is shorter than 15 bytes. |
| ProcessName.NameExact | heim-process/src/sys/linux/process/mod.rs:39-69 | The name is the last path component of the first argument iff the kernel's name has 15 bytes and begins that component, and otherwise the kernel's name. |
| ProcessName.NameStays | heim-process/src/sys/linux/process/mod.rs:42-66 | The kernel's name stays when the command line is unreadable, empty, or begins with a path without a file name. |
| ProcessName.TrailingSlash | heim-process/src/sys/linux/process/mod.rs:50-54 | A slash, or a slash and a dot, at the end of a path does not change its file name. |
| ProcessName.NameRecovery | heim-process/src/sys/linux/process/mod.rs:39-69 | A process started under its own file name, with or without a directory, gets its whole name back from the truncated one. |
| ProcessTable.PidWait | heim-process/src/sys/unix/process.rs:55-93 | The wait returns at the first tick that finds no such id, at once when `waitpid` succeeded, and with an error only if the interval ends. |
| ProcessTable.WaitReturnsExact | heim-process/src/sys/unix/process.rs:81-85 | In every reached state, a poll of a waiting call returns iff no process has the id, and then the process of the handle is gone. |
| ProcessTable.KeptApply | heim-process/src/sys/linux/process/mod.rs:137-228 | Every step of kernel or library keeps the invariant that ties handles, logged answers and pending calls to the serial numbers. |
| ProcessTable.StalenessIsPermanent | heim-process/src/sys/linux/process/mod.rs:137-149 | In every run, a handle found dead by `is_running`, a signal or `wait` is never again taken for running. |
| ProcessTable.ChecksTellTheTruth | heim-process/src/sys/linux/process/mod.rs:137-149 | In every run, `is_running` answers whether the handle's own process is in the table, or `NoSuchProcess` iff no process has the id, or a load error iff the table is unreadable; a refused signal is `NoSuchProcess` iff the table is readable, and then that process is absent. |
| ProcessTable.WaitThenSignal | heim-process/src/sys/unix/process.rs:55-93 | In every run, after `wait` has returned no later signal passes its check; it fails with `NoSuchProcess` when the table is readable; a later kill belongs to a check made before. |
| ProcessTable.SignalTarget | heim-process/src/sys/unix/process.rs:39-52 | In every run, a kill follows a check that found the process and reaches that process iff it was not removed in between; it is reported done iff it finds a process and is permitted, denied iff it finds one and is not, and `NoSuchProcess` iff it finds none. |
| ProcessTable.HandlesIdentifyProcesses | heim-process/src/sys/common.rs:6-40 | In every run, two handles are equal iff they were made for the same process. |
| ProcessTable.SignalInFlight | heim-process/src/sys/linux/process/mod.rs:143-149 | A run in which `wait` returns between check and kill and the kill reaches a process that reuses the id. |
| ProcessTable.EqualStartsMislead | heim-process/src/sys/common.rs:8-17 | A run in which an id reused at the same tick makes a dead handle run again. |
| ProcessTable.MovingBootMisleads | heim-process/src/sys/linux/process/procfs/stat.rs:132-134 | A run in which a moving boot time makes a running process look dead and alive again. |
| ChooseChain.ChooseChain.PollNext | heim-common/src/utils/stream/choose_chain.rs:50-63 | The poll on the mutable fields and the two streams is one step of the state function. |
| ChooseChain.StateAfter | heim-common/src/utils/stream/choose_chain.rs:50-63 | After any number of polls: the first stream was polled up to its end and no further, the second only behind that and never when the first yielded. |
| ChooseChain.OutputAt | heim-common/src/utils/stream/choose_chain.rs:50-63 | Every answer of every run, for all streams: those of the first up to its end, then nothing more if it yielded, otherwise those of the second. |
| ChooseChain.TerminatedExact | heim-common/src/utils/stream/choose_chain.rs:37-41 | After any number of polls the chain says it is terminated iff the first stream was polled to its end and the second says so after the polls it got, none if the first yielded. |
| ChooseChain.RunToCompletion | heim-common/src/utils/stream/choose_chain.rs:50-63 | A run yields the items of the first stream if there are any and otherwise those of the second, with the exact numbers of polls; every pending answer is one of the polled streams. |
| ChooseChain.TerminatedIsFinal | heim-common/src/utils/stream/choose_chain.rs:37-41 | If the second stream is fused, a chain that says it is terminated gives its end at every later poll. |
| ChooseChain.NeverTerminatedAfterYield | heim-common/src/utils/stream/choose_chain.rs:38-40 | When the first stream yielded, the ended chain says it is terminated iff the untouched second stream does. |
| ChooseChain.StaysEndedExact | heim-common/src/utils/stream/choose_chain.rs:57-62 | The chain stays at its end iff the first stream yielded or the second stays at its own. |
| Decimal.ParsePrint | heim-common/src/utils/iter.rs:72-80 | Every number is read back from its decimal form iff it is in the range of its type, and refused otherwise. |
| Decimal.ParsePadded | heim-common/src/utils/iter.rs:72-80 | A plus sign and leading zeros change nothing. |
| Decimal.ParseRefuses | heim-common/src/utils/iter.rs:72-80 | Text without digits, with other characters, or with a minus sign where the type has none is refused. |
| Tokens.Cursor.TryNext | heim-common/src/utils/iter.rs:50-54 | Gives the next piece and moves on, or an error at the end. |
| Tokens.Cursor.TryParseNext | heim-common/src/utils/iter.rs:72-80 | Consumes one piece and gives its number, or an error for a missing or malformed one. |
| Stat.FromStr | heim-process/src/sys/linux/process/procfs/stat.rs:54-117 | The cursor moves compute the parse function, error by error and panic by panic. |
| Stat.RoundTrip | heim-process/src/sys/linux/process/procfs/stat.rs:54-117 | A printed line with any name, any state and any trailing text without `)` is read back iff the id and the twenty-two numbers are in their ranges, which are given as numbers; otherwise it is a number error. |
| Stat.ShortLine | heim-process/src/sys/linux/process/procfs/stat.rs:71-92 | A line with fewer numbers is refused, as missing data if all of its numbers fit and as a number error if not. |
| Stat.UnknownState | heim-process/src/sys/linux/process/procfs/stat.rs:63-70 | Any letter but the twelve of the states is an error, whatever follows it. |
| Stat.NoName | heim-process/src/sys/linux/process/procfs/stat.rs:55-60 | A line without anything behind the id, or without a `)`, is missing data. |
| Stat.PanicExact | heim-process/src/sys/linux/process/procfs/stat.rs:61-63 | The slices around the name panic iff nothing stands in front of or behind the last `)`, or a character skipped there has more than one byte. |
| Stat.AcceptedLine | heim-process/src/sys/linux/process/procfs/stat.rs:55-63 | Conversely, in every accepted line the id stands in front of the first space and the name reaches up to the last `)`. |
| KeyedLines.ParseLines | heim-memory/src/sys/linux/memory.rs:50-105 | The loop with prefilter, field update, match counter and early exit computes the parse function. |
| KeyedLines.FilterChangesNothing | heim-memory/src/sys/linux/memory.rs:55-61 | A prefilter that knows all keys lets every line through that matters. |
| KeyedLines.ParseMeaning | heim-memory/src/sys/linux/memory.rs:54-104 | When no key repeats: same result as the full scan without prefilter and early exit, accepted iff every key has a valid line, every field from its own line. |
| KeyedLines.EarlyExit | heim-memory/src/sys/linux/memory.rs:95-97 | A parse that succeeds or fails on a line is not changed by anything behind it. |
| KeyedLines.OrderIsIrrelevant | heim-memory/src/sys/linux/memory.rs:54-98 | When no key repeats, any permutation of the lines gives the same record. |
| KeyedLines.SuccessExact | heim-memory/src/sys/linux/memory.rs:87-97 | On any accepted text: as many matches as keys, missing keys read zero, and none is missing iff the matched lines have different keys. |
| LineText.ReadExact | heim-memory/src/sys/linux/memory.rs:63-85 | A line is read under a key iff it begins with key and separator, and as a number iff that number follows behind white space, up to the next space. |
| LineText.PrintedShows | heim-memory/src/sys/linux/memory.rs:77-85 | Key, separator, any number of spaces, any number up to 18446744073709551615 and any tail behind a space: the line shows that number. |
| LineText.PrintedText | heim-memory/src/sys/linux/memory.rs:54-98 | One printed line for each key among lines without these keys: exactly the printed numbers. |
| LineText.TextMeaning | heim-memory/src/sys/linux/memory.rs:54-104 | When no key and separator begins two lines: accepted iff every key has a line that shows a number, and every field is the number shown. |
| LineText.TextErrors | heim-memory/src/sys/linux/memory.rs:81-104 | Otherwise a number error iff some wanted line shows no number, and missing data if not. |
| LineText.ShortLinePanics | heim-memory/src/sys/linux/memory.rs:57 | A line of fewer than two bytes panics when it is reached. |
| Meminfo.FormatsAreSound | heim-memory/src/sys/linux/memory.rs:58-74 | The prefixes and keys of the memory, swap and vmstat parsers belong together. |
| Meminfo.MemoryFromStr | heim-memory/src/sys/linux/memory.rs:50-105 | The parser fills the record from the eight matched fields. |
| Meminfo.MemoryMeaning | heim-memory/src/sys/linux/memory.rs:64-74 | When no name begins two lines: accepted iff each of the eight names has a line with a number, and then each field is the number behind its own name. |
| Meminfo.MemoryOfText | heim-memory/src/sys/linux/memory.rs:50-98 | A text with the eight printed lines, with any spaces and any 64-bit numbers, among unwanted lines parses to exactly those numbers in the fields of those names. |
| Meminfo.SwapMeaning | heim-memory/src/sys/linux/swap.rs:87-138 | When neither name begins two lines: accepted iff both have a line with a number, and then each field is the number behind its own name. |
| Meminfo.SwapOfText | heim-memory/src/sys/linux/swap.rs:79-128 | A text with the two printed swap lines among unwanted lines parses to exactly those numbers. |
| Meminfo.Swap.Used | heim-memory/src/sys/linux/swap.rs:71-73 | Used and free add up to the total, and the subtraction panics iff free is larger. |
| Meminfo.VmStatFromStr | heim-memory/src/sys/linux/swap.rs:19-56 | The loop over all lines computes the scan. |
| Meminfo.VmStatMeaning | heim-memory/src/sys/linux/swap.rs:22-53 | Accepted iff every line of the two names shows a number that fits fourfold; `swapIn` is four times the number of the last `pswpin` line, `swapOut` of the last `pswpout` line, and nothing iff there is none. |
| Meminfo.VmStatOfText | heim-memory/src/sys/linux/swap.rs:29-46 | Printed counters are read back fourfold into the fields of their names, whatever earlier lines printed. |
| Meminfo.FirstFaultDecides | heim-memory/src/sys/linux/swap.rs:23-44 | The first line at fault decides: a number error for a wanted line without a number, a panic for a product that does not fit or a line of fewer than two bytes. |
| Meminfo.LastLineWins | heim-memory/src/sys/linux/swap.rs:22-53 | The scan succeeds iff every wanted value parses and fits fourfold; a field holds four times the value of its last line, or nothing without one. |
| Meminfo.RepeatedKeyIsAccepted | heim-memory/src/sys/linux/memory.rs:95-97 | One matched line repeated as often as there are keys is accepted with zeros for all others. |
| Frequency.Average | heim-cpu/src/sys/linux/freq.rs:80-103 | The accumulating loop computes the average function, stopping at the first error. |
| Frequency.AverageMeaning | heim-cpu/src/sys/linux/freq.rs:31-51 | On readings without errors: sums divided by the number of all cores, bounds present iff some core has one, panic iff a sum does not fit. |
| Frequency.FirstErrorIsReturned | heim-cpu/src/sys/linux/freq.rs:84-100 | The first error is returned iff the sums in front of it fit, whatever follows; no core at all is an error. |
| Frequency.OrderIsIrrelevant | heim-cpu/src/sys/linux/freq.rs:84-89 | Any permutation of the cores gives the same outcome. |
| Frequency.CurrentIsBetween | heim-cpu/src/sys/linux/freq.rs:91-96 | The averaged frequency lies between any bounds on the frequencies. |
| Frequency.MinimumStaysBelow | heim-cpu/src/sys/linux/freq.rs:36-41 | If every core runs between the bounds it reports, the averaged minimum is at most the averaged frequency. |
| Frequency.MaximumExact | heim-cpu/src/sys/linux/freq.rs:42-47 | For all readings of given cores the averaged maximum is at least the averaged frequency iff all of the cores report a maximum or none does. |
| Records.Routes.Next | heim-net/src/sys/macos/bindings.rs:15-66 | On well-formed messages the loop ends, stops at message boundaries, never trips its assertion, and gives the next interface message or the end. |
| Records.InterfaceTag | heim-net/src/sys/macos/bindings.rs:45-62 | Wherever a message stands, type 18 gives its first 168 bytes and any other type is passed over. |
| Records.CollectRoutes | heim-net/src/sys/macos/bindings.rs:12-67 | Draining gives exactly the interface messages in order. |
| Records.AssertionExact | heim-net/src/sys/macos/bindings.rs:27-32 | At a message boundary the bounds assertion fails iff the last message is a bare header. |
| Records.LogicalProcessorsIter.Next | heim-cpu/src/sys/windows/wrappers/count.rs:87-99 | Gives each record once, in order, by its own size. |
| Records.PhysicalCount | heim-cpu/src/sys/windows/count.rs:18-30 | The number of core records, or none iff it is zero. |
| Records.CoreCountMeaning | heim-cpu/src/sys/windows/count.rs:20-23 | That number is the number of positions that hold a record with four zero bytes in front. |
| Records.Drives.Next | heim-disk/src/sys/windows/bindings/drives.rs:48-66 | Gives the next root and leaves the rest, panics on a string that is no root, and at the end gives nothing and does not move. |
| Records.StringsOfRoots | heim-disk/src/sys/windows/bindings/drives.rs:48-66 | The walk is exactly the list of roots up to an empty string or one without a NUL, whatever follows. |
| Records.RootForm | heim-disk/src/sys/windows/bindings/drive.rs:134-139 | A root is a letter from `A` to `Z`, a colon, a backslash and a NUL. |

## Left out

- ProcArgs.ArgumentsExact: says nothing about the environment of a list whose first argument is empty; the wrong block boundary makes it depend on all later bytes.
- Stat.FromStr: the twenty-two consecutive numeric reads are one loop over the table of their types (`ReadFields`); times stay in ticks, without the division by the clock rate.
- Records.Routes.Next: messages with a wrong length field are excluded, because the source trusts the kernel there and a zero length would loop for ever.
- Records.LogicalProcessorsIter.Next: likewise requires records that give their own size.
- KeyedLines.ParseLines: works on lines; the splitting of text into lines is the standard library's.
- ProcessTable.PidWait: the interval is a finite list of table states; that a real interval never ends is not stated, and no claim is made that a process ever exits.
- ProcessTable.StalenessIsPermanent: creation times are whole ticks, so two different ticks that round to one `f64` are not modelled.
- ProcessTable: process groups, ids that are not positive, and signals sent by other programs.
- FFI calls, file reading, timers, the async runtime and pinning: bytes, lines, poll answers and table states are inputs.
- Unit conversions (kilobytes to bytes, kilohertz to hertz) and their overflow, CPU usage ratios, Windows file times.
- UTF-8: the process name and the command line are byte strings, assumed to be valid text, so that the lossy conversion at the end of `name` changes nothing.
- Growth loops that ask the operating system for a larger buffer, whose progress depends on the allocator and the kernel.
- The parsers of disk and network counters, which use the same cursor without the hard name field; `cpu_info`; file system names; signal, priority and status tables; virtualization and sensors.
