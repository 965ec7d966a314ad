# fm: a fanotify monitor, modelled in Dafny

`fm.cc` watches files through Linux `fanotify(7)`. It has four parts:

- **Command line.** It folds the options `-a -m -o -r -w` into an event mask. With no event letter it uses `FAN_MODIFY|FAN_CLOSE`.
- **Setup.** It registers every path operand.
- **Event loop.** It then reads event buffers until a read returns 0. For each record in a buffer it writes one line to standard output:

  ```
  mask: <event names>, fd: <fd>, pid: <pid>, file: <path of the descriptor>, command: <command line of the process>
  ```

  If the record's path cannot be resolved, the fields up to `file: ` are already on standard output, without a newline, and the error is logged on standard error (see the first finding below). Either way it closes the record's descriptor.
- **Helpers.** Two table-driven renderers turn an event mask and a set of `open(2)` flags into `|`-separated names. The `Proc` helpers build `/proc/<pid>/...` paths, read a process's command line and resolve a descriptor link.

This project models that logic and proves what it promises. The modules follow the program's pieces:

| module | file | models |
|---|---|---|
| `Common` | common.dfy | `Errno` as a `Result`, C `int`, `PATH_MAX`, `%d` formatting, C strings, how `|` joins names |
| `FlagTable` | flag_table.dfy | the table walk both renderers share (`if (word & table[i].value)`) |
| `FanMask` | fan_mask.dfy | `operator<<(FanMask)` and its table of eight event kinds |
| `FileFlags` | file_flags.dfy | `operator<<(FileFlags)`: an access-mode word and then the flag names |
| `Proc` | proc.dfy | `Proc::procfsPath`, `readData`, `commandLine`, `filePath` |
| `Options` | options.dfy | the getopt loop of `main`, usage, the default mask, the banner |
| `Monitor` | monitor.dfy | the read loop, the walk by `event_len`, the per-record report, `FDCloser` |

## How the system is represented

**System calls are inputs.**
- The process filesystem is a `Procfs` value. For each path it gives what `open` and the `read` calls that follow return (a `ReadScript` of chunks of 1 to 1024 bytes, then end of file or -1), and what `readlink` returns.
- Each fanotify `read` is a `NotifyRead`: the count returned, the record header found at each byte offset, and the `Procfs` that this buffer's records see.
- `strerror` is a parameter of type `int -> string`.

**Bits.**
- Event masks are `bv64` (`__u64`).
- Open flags are `bv32` (`int`). They are widened to `bv64` for the shared table walk.
- `FanMask` uses the constants of `<linux/fanotify.h>`. The walk itself is generic over any table.
- `FileFlags` takes the access-mode values as a parameter. Its table is also given with the x86-64 glibc values, to show the finding below.

**Imperative parts** are methods proved against the functions that specify them:
- `ReadData` uses a `while` loop over reads. It rewrites NULs in place in a 1024-element `array<char>` and appends to the text.
- `RenderMask` walks the table and updates `sep`.
- `RenderFlags` runs the switch and then the table walk.
- `FoldOptions` runs the getopt loop.
- `ProcessBuffer` advances `p` by `event_len`.
- `Monitor` is the outer `for (;;)`.
- `FDCloser` is a class. Its `Close` may run only once, and it appends the descriptor to a `CloseLog`, the model's record of the `close(2)` calls made, in order. The log and the `closed` flag are ghost state: they record the calls and are never read by the program. `ProcessRecord`, `ProcessBuffer` and `Monitor` state the new contents of that log.
- The loop writes what fm.cc writes as written (`RecordOutputAsWritten`), including the partial line of the finding below. The evidently intended output, `RecordOutput`, is the corrected half of that finding and is not what the loop uses.

**Where fm.cc does less than a careful monitor would, the model follows fm.cc as written:**
- **`event_len` is never checked.** A validating framer would reject a record whose length is zero or runs past the received bytes. fm.cc does not check it. So `Framed` (every record visited has a positive length and ends inside the received bytes) is a precondition, as the kernel promises, rather than invented validation.
- **A failed fanotify `read` does not stop the loop.** fm.cc does not test for -1: the end pointer lies before the buffer, so no record is visited and the loop reads again. `FailedReadFramesNothing` and `FailedReadContinues` model exactly that.
- **Options are parsed in `main`.** The getopt loop is part of `main` rather than of a separate command-line layer, so it is modelled with the rest.

## Model

| member | source | states |
|---|---|---|
| Common.DecimalRoundTrip | fm.cc:123 | the decimal text `%d` / `operator<<` prints for an integer is a well-formed numeral that reads back as that integer |
| Common.DecimalInt32Length | fm.cc:123 | a C `int` prints in at most 11 characters |
| Common.CString | fm.cc:172-173 | the string built from the NUL-terminated buffer is its longest NUL-free prefix: a prefix, without NUL, stopped by a NUL when shorter |
| Common.SplitJoin | fm.cc:49-54 | names written with `sep` (empty first, then `|`) split back at `|` into exactly those names when no name is empty or contains `|` |
| Common.JoinNonEmpty | fm.cc:49-54 | that rendering is empty only for no names, and never begins or ends with `|` |
| FlagTable.SelectedInTableOrder | fm.cc:50-51 | the names reported are exactly those of the entries whose value meets the word (both directions), in strictly increasing table order |
| FlagTable.PlainSelection | fm.cc:50-52 | when every table name is non-empty and has no `|`, so is every reported name |
| FlagTable.UnknownBitsIgnored | fm.cc:50-51 | bits of the word that no entry mentions change nothing: the word and the word masked by all entry values report the same names |
| FlagTable.ZeroSelectsNothing | fm.cc:51 | a zero word reports no name |
| FlagTable.RenderMask | fm.cc:49-55 | the loop with `sep` writes the `|`-join of the selected names |
| FanMask.FanMaskTextNames | fm.cc:38-55 | the event-mask text splits at `|` into exactly the names of the event kinds in the mask, in table order; it is empty exactly when none is named, and has no leading or trailing `|` |
| FanMask.KnownEventsCovered | fm.cc:38-47 | the table names exactly the bits 0x3403b |
| FanMask.UnknownEventsDropped | fm.cc:50-55 | the text of a mask equals the text of the mask restricted to the named bits |
| FanMask.EmptyMaskText | fm.cc:49-55 | mask 0 renders as "" |
| FanMask.OpenBeforeModify | fm.cc:39-41 | the order is the table's, not the bits': `FAN_MODIFY|FAN_OPEN` renders as `FAN_OPEN|FAN_MODIFY` |
| FileFlags.AccessWordMeaning | fm.cc:88-95 | with distinct mode values, each of `O_RDONLY`, `O_WRONLY`, `O_RDWR` is printed exactly when the access bits equal that mode, and `??ACCESS??` exactly when they equal none of them |
| FileFlags.SwitchAccessMode | fm.cc:88-95 | the switch on `flags & O_ACCMODE` prints `O_RDONLY`, `O_WRONLY` or `O_RDWR` exactly when the access bits are that mode, and `??ACCESS??` exactly when they are none of them |
| FileFlags.LinuxAccessWords | fm.cc:88-95 | with the Linux values, access bits 0, 1, 2 and 3 print exactly `O_RDONLY`, `O_WRONLY`, `O_RDWR` and `??ACCESS??` |
| FileFlags.RenderFlags | fm.cc:86-101 | the access word, then `|NAME` for each entry the flags meet, in table order |
| FileFlags.PipeSelected | fm.cc:97-101 | the loop over the table appends `|NAME` for exactly the entries the flags meet, in table order, after the access word |
| FileFlags.FlagsTextIsJoin | fm.cc:88-101 | the flags text is the `|`-join of the access word and the selected names |
| FileFlags.AccessWordChoice | fm.cc:90-95 | the access word is one of `O_RDWR`, `O_RDONLY`, `O_WRONLY`, `??ACCESS??` |
| FileFlags.FlagsTextShape | fm.cc:88-101 | the text starts with the access word and never with `|`; anything after the word starts with `|` |
| FileFlags.StrayEntryNamesDirectory | fm.cc:81-83 | as written (x86-64), a read-only directory open renders as `O_RDONLY|O_DIRECTORY|FAN_OPEN_PERM` |
| FileFlags.DirectoryFlagsCorrected | fm.cc:72-82 | without the stray row it renders as `O_RDONLY|O_DIRECTORY` |
| FileFlags.OnlyOpenFlagNames | fm.cc:72-82 | without the stray row, every name reported for any flags is an `O_` name |
| Proc.ProcfsPath | fm.cc:116-127 | the path is `/proc/<pid>/` and the stem, truncated to `PATH_MAX - 1` characters |
| Proc.ProcPathsExact | fm.cc:152 | `cmdline` (line 152) and `fd/<fd>` (line 167) paths are never truncated: exactly `/proc/<pid>/cmdline` and `/proc/<pid>/fd/<fd>` |
| Proc.SanitizeProperties | fm.cc:140-142 | replacing NULs keeps the length, leaves no NUL, and changes a NUL-free text not at all |
| Proc.ReadInto | fm.cc:133 | one read puts the next chunk at the start of the buffer and returns its length; after the chunks, 0 at end of file or -1, buffer untouched |
| Proc.ReadData | fm.cc:129-146 | the loop, with its in-place NUL rewrite of the buffer, returns what `ReadDataResult` specifies |
| Proc.ReadDataMeaning | fm.cc:129-146 | at end of file the result is every byte read, in order, with each NUL a space (same length, no NUL; "" for an immediate end of file); a `-1` read throws with its errno |
| Proc.CommandLineCases | fm.cc:151-164 | the command line never throws: a failed open or a failed read (whatever was read before) gives `(` + strerror(errno) + `)`; otherwise the file's bytes with NULs as spaces |
| Proc.FilePathMeaning | fm.cc:166-174 | `filePath` throws exactly when `readlink` fails, with its errno; otherwise it returns a prefix of the target of at most `PATH_MAX - 1` bytes; for a target without NUL exactly its first `PATH_MAX - 1` bytes, so the whole target when that fits |
| Options.FirstOther | fm.cc:197-208 | the position of the first letter the switch sends to `usage`: every letter before it adds a bit |
| Options.SwitchLetter | fm.cc:198-208 | an event letter ORs in its bit and continues; `-h` stops with usage on standard output, any other letter with usage on standard error |
| Options.FoldOptions | fm.cc:195-214 | the getopt loop, the operand check and the zero-mask default return what `Parse` specifies |
| Options.OrMaskClosedForm | fm.cc:199-203 | the folded mask has each event's bit exactly when its letter occurs |
| Options.OrMaskOrderAndRepeats | fm.cc:197-209 | the mask does not depend on the order of the letters or on repeats |
| Options.OrMaskZero | fm.cc:199-203 | the folded mask is zero exactly when no event letter is given |
| Options.ParseOutcomes | fm.cc:197-214 | usage follows exactly when some letter is not an event letter or no path is given, on standard output exactly when that first letter is `h`; otherwise the targets are the operands and the mask is non-zero: the letters' mask, or `FAN_MODIFY|FAN_CLOSE_WRITE|FAN_CLOSE_NOWRITE` with no letter |
| Options.DefaultMaskText | fm.cc:213-216 | the default mask renders as `FAN_MODIFY|FAN_CLOSE_WRITE|FAN_CLOSE_NOWRITE`, and the banner announces it as `mask events: FAN_MODIFY|FAN_CLOSE_WRITE|FAN_CLOSE_NOWRITE` and a newline |
| Options.Written | fm.cc:204-216 | something is written on standard output exactly for the `-h` usage exit; a usage exit writes exactly the usage text to one of the two streams; watching writes only the banner for its mask, on standard error |
| Monitor.FrameTotal | fm.cc:243 | the walk over a buffer ends exactly at `received`; with nothing received it visits nothing |
| Monitor.FrameOffsets | fm.cc:243-245 | the k-th record visited is the header at the running sum of the lengths before it; that offset is below `received` and the length is positive |
| Monitor.BackToBackRecords | fm.cc:243-245 | records of positive length laid end to end and filling the received bytes are exactly what the walk visits |
| Monitor.FailedReadFramesNothing | fm.cc:237-243 | a read returning -1 or 0 frames no record |
| Monitor.WalkStep | fm.cc:243-245 | one step of the walk: the record at offset `p`, the next offset, whether the walk goes on, and the output and closes after it |
| Monitor.RecordOutputCases | fm.cc:249-258 | as written, a record writes exactly the line `mask: …, fd: …, pid: …, file: <path>, command: <command line>\n` on standard output, the path being the link target cut to `PATH_MAX - 1` bytes (and up to its first NUL); or, when `readlink` fails, `mask: …, fd: …, pid: …, file: ` on standard output and strerror(errno) with a newline on standard error |
| Monitor.AsWrittenLeavesPartialLine | fm.cc:249-255 | as written, a failed path leaves `mask: …, file: ` without a newline on standard output, and the next report continues that line |
| Monitor.RecordOutputEndsLines | fm.cc:249-258 | corrected, a record writes one newline-terminated text to exactly one of the two streams |
| Monitor.OutputsAppend | fm.cc:243-260 | the output of a list of records is the output of its parts, one after the other |
| Monitor.FailureIsIsolated | fm.cc:244-259 | a record whose path fails contributes its fields up to `file: ` on standard output and its error line on standard error; the records after it are reported as usual |
| Monitor.CloseLog.constructor | fm.cc:109 | the record of `close(2)` calls starts empty |
| Monitor.FdCloser.constructor | fm.cc:108 | the closer owns the descriptor, not yet closed |
| Monitor.FdCloser.Close | fm.cc:109 | the destructor closes the descriptor, appending it to the close log, and may only run once |
| Monitor.ProcessRecord | fm.cc:244-259 | one record's output is `RecordOutputAsWritten`, and the close log gains exactly the record's descriptor, whether the report succeeds or throws |
| Monitor.ProcessBuffer | fm.cc:243-260 | the walk writes the as-written report of every framed record in order, and the close log gains exactly the records' descriptors, once each, in order |
| Monitor.FailedReadContinues | fm.cc:237-243 | a read returning -1 writes nothing, and the loop goes on to the next read |
| Monitor.EndOfStreamStops | fm.cc:238-239 | nothing after the first read that returns 0 is processed, nor needs to be framed |
| Monitor.Monitor | fm.cc:235-261 | the loop's output is the concatenated as-written reports of every buffer before the first 0-length read, and the close log gains exactly those records' descriptors, once each, in order |

## Left out

- `fanotify_init` and `fanotify_mark` (fm.cc:218-231), their fatal errors and the `added <path>` lines: kernel setup with no logic of its own beyond the call.
- The banner `mask events: …` (fm.cc:216) is the function `Options.Banner`, written by `Options.Written` for a `Watch` outcome. Its exact text is proved only for the default mask, by `DefaultMaskText`.
- How getopt scans `argv` is not modelled. The input is the sequence of characters `getopt` returns, plus the operands `argv[optind..]`. An unknown option arrives as any letter that is not an event letter or `h`. The message getopt itself prints on standard error for an unknown option, before `usage` runs, is not part of the modelled output.
- `usage` writing its text and calling `exit(1)`: the text is the constant `UsageText`, which `Options.Written` puts on the stream of the outcome `Usage(toStdout)`, and that outcome stands for the exit. The fall-through from `case 'h'` into `default` does not matter, since `usage` never returns.
- `fcntl(data->fd, F_GETFL)` (fm.cc:247): its result is never used. So `operator<<(FileFlags)` is modelled as a renderer that `main` never calls.
- The text `strerror` returns and the value of `errno` are parameters. The `Errno(err_)` constructor (fm.cc:18) reads `err` rather than `err_` when an explicit code is given. fm.cc never passes one, so only the `errno` path is modelled.
- `Procfs` and `NotifyRead`: the process filesystem is a snapshot per fanotify read. Changes to `/proc` between the calls for one record are not modelled.
- How the bytes of a `fanotify_event_metadata` are laid out is not modelled. A buffer is the map from offset to decoded header.
- Monitor.ProcessRecord: the descriptor that `commandLine` opens and closes with its own `FDCloser` is not tracked. Only the record's descriptor is in the close log.
- Monitor.Monitor: `Framed` is a precondition of every buffer up to the first read that returns 0 (`FramedRun`), because fm.cc does not validate `event_len`. With a zero length it reports the same record for ever. With a length that runs past `received`, it reports that record once from its header and then leaves the walk, because `p` is then beyond the end of the received bytes. `Framed` rules both cases out, so neither behaviour is modelled.
- Buffering and interleaving of `std::cout` and `std::clog`: the two streams are modelled separately, each in order.
- `std::string` and `char` are Dafny `string` and `char`. Bytes beyond NUL handling are not interpreted.

## Findings

| source | as written | input that shows it | evidently intended | confidence | as-written member | corrected member |
|---|---|---|---|---|---|---|
| fm.cc:249-255 | The report is one `std::cout << … << self.filePath(fd) << …` chain. Since C++17 each operand is evaluated after everything to its left has been written. So when `filePath` throws, `mask: …, fd: …, pid: …, file: ` is already on standard output, with no newline, and the error goes to standard error. The modelled loop (`ProcessRecord` to `Monitor`) writes this output. | A record whose `readlink` of `/proc/self/fd/<fd>` fails, followed by a record that succeeds: standard output holds one line starting with the first record's fields, then the second record's report. | One complete report line or one error line per record, nothing partial. | not executed | Monitor.RecordOutputAsWritten / Monitor.AsWrittenLeavesPartialLine | Monitor.RecordOutput / Monitor.RecordOutputEndsLines |
| fm.cc:83 | The open-flags table ends with `ENT(FAN_OPEN_PERM)`, an event bit (0x10000). On x86-64 Linux that is the value of `O_DIRECTORY`. | Flags `O_RDONLY|O_DIRECTORY` (0x10000) render as `O_RDONLY|O_DIRECTORY|FAN_OPEN_PERM`. | Only open-flag names in the open-flags rendering. | not executed | FileFlags.StrayEntryNamesDirectory | FileFlags.DirectoryFlagsCorrected / FileFlags.OnlyOpenFlagNames |
