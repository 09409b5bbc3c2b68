# sockproc: command line, command reader and I/O bridge

sockproc listens on a Unix-domain socket path or a loopback TCP port. For
each connection it forks a supervisor. The supervisor reads one CR LF
terminated command line from the client and runs it as `/bin/sh -c
<command>`. It then bridges the connection and the worker's stdio until
either side reaches end of stream or fails.

This project models the three pieces of sequential logic inside that
program, over abstract inputs instead of real descriptors:

- **Argument interpretation** (`arguments.dfy`, module `Arguments`). It
  covers the usage error (exit code 2) and the choice of endpoint. The
  endpoint is TCP on 127.0.0.1 when `sscanf("%d")` converts a number from
  the first argument, and a Unix-domain socket at that path otherwise. It
  also covers the foreground flag and which argument names the pid file.
  `sscanf("%d")` is modelled as glibc does it: leading white space, one
  optional sign, at least one digit, trailing characters ignored, the value
  saturated to `long` and truncated to `int`. The port that `htons`
  receives is that `int` modulo 2^16. The path is bound as `strncpy` leaves
  it in `sun_path`, at most 107 characters. `printf("%d")`, the pid file's
  content, is modelled as the partner of the scanner.
- **Command reader** (`command_reader.dfy`, module `CommandReader`). The
  connection is the byte sequence the client sends, then end of stream.
  `ReadCommand` zeroes a 2048-byte array and fills it one byte at a time.
  After each byte it rescans the array with `strstr` (the method
  `FindCrlf`). It stops at the first CR LF, at end of stream, or after 2047
  bytes, and on CR LF it overwrites the CR with NUL. It is proved against
  the declarative functions `Consumed`, `Command` and `FinalBuffer`.
- **Bridge** (`bridge.dfy`, module `Bridge`). `Forward` is one call of
  `forward`. A read error exits with -1, a zero-length read exits with 0,
  and otherwise exactly the bytes read are written. A round of the loop in
  `create_worker` serves the connection before the worker's pipe. `Run`
  folds rounds, and `Reference` states the result declaratively: per
  direction, every byte read before the first failed or empty read,
  unchanged and in order.

`base.dfy` (module `Base`) holds bytes, C strings (`CStr`) and the CR LF
search that `strstr` performs (`FirstCrlf`).

Behaviour worth knowing, all proved about the model:

- The reader reads one byte per `read`, so no byte after the terminating
  LF is ever taken from the connection: everything the client sends after
  CR LF is left unread on the socket (`CommandLineFraming`).
- `strstr` stops at the first NUL. A NUL byte before a CR LF therefore hides
  the CR LF: the reader keeps consuming until end of stream or 2047 bytes,
  and the command is cut at the NUL (`NulHidesCrlf`; `NulHidesLaterCrlf`
  is a concrete instance).
- Any argument that starts with a number is a TCP port, trailing
  characters included ("8080.sock" is port 8080), and leading zeros and a
  '+' sign change nothing ("0080" and "+80" are port 80). A number from
  65536 up to LONG_MAX (2^63 - 1) binds that number modulo 65536, so
  "65536" binds port 0 (`NumericArgumentIsTcp`). Above LONG_MAX glibc saturates the value to
  LONG_MAX, whose low 32 bits are the `int` -1, so every such number binds
  port 65535 (`HugeNumberBindsPort65535`).
- An argument that starts with white space is not a usage error, and the
  white space changes nothing: " 80" and "\t+80" scan as 80
  (`ScanSpaceUnsigned`). This holds even when a minus sign follows. With
  any run of digits after the sign it is TCP at the negated number
  (leading zeros allowed, so " -0080" scans as -80), wrapped modulo 65536
  down to LONG_MIN: " -1" binds port 65535 and " -0" binds port 0. Below LONG_MIN glibc saturates to LONG_MIN,
  whose low 32 bits are the `int` 0, so the port is 0
  (`ScanSpaceMinusNumber`, `ScannedArgumentIsTcp`, `NegativeNumberPort`).
  With anything else after the sign it is a Unix path
  (`SpaceSignWithoutDigitIsUnix`).
- A Unix path of 108 characters or more is bound as its first 107
  characters (`BindAddress`). The full path is still the one kept for
  removal on termination, so the bound socket file is not the one removed
  (`LongPathBoundElsewhere`).
- `progname <endpoint> --foreground` reaches `fopen` with a NULL pid-file
  path (`PidFileSelection`, the `NullPidPath` case).

## Model

| member | source | states |
|---|---|---|
| `Base.CStr` | sockproc.c:294 | the C string of a buffer is its longest NUL-free prefix, and the byte after it is NUL |
| `Base.FirstCrlf` | sockproc.c:294 | `strstr(buf, "\r\n")` finds the first index where CR LF starts, or nothing when there is no pair |
| `CommandReader.Clear` | sockproc.c:287 | every byte of the buffer is zero afterwards |
| `CommandReader.FindCrlf` | sockproc.c:294 | the scan of the buffer returns the first CR LF of its C string, never one after a NUL |
| `CommandReader.TakeByte` | sockproc.c:290-297 | one iteration stores the next byte; when the rescan finds CR LF the reader stops with the final buffer, otherwise the buffer holds one more byte and still no CR LF |
| `CommandReader.ReadCommand` | sockproc.c:287-301 | the reader consumes exactly `Consumed(input)` bytes and leaves the buffer equal to `FinalBuffer(input)` |
| `CommandReader.BufferAlwaysTerminated` | sockproc.c:287-300 | at most 2047 bytes are consumed and never more than sent; the last buffer byte stays NUL; the command is the buffer's C string, with no NUL and no CR LF pair |
| `CommandReader.CommandStopsAtFirstCrlf` | sockproc.c:290-297 | a first CR LF completed within the bound, with no NUL before it, stops the reader: the command is exactly the bytes before it and nothing after the LF is consumed |
| `CommandReader.StoppedOnlyAtCrlf` | sockproc.c:289-297 | without a CR LF the reader takes the whole window; with one, the last two bytes taken are CR LF and the command is everything before them |
| `CommandReader.CommandAtEndOfStream` | sockproc.c:289-293 | at end of stream without CR LF, all bytes sent are consumed and the command is what was received up to any NUL; an empty stream gives an empty command |
| `CommandReader.CommandWhenBufferFills` | sockproc.c:288-300 | when 2047 bytes arrive without CR LF, exactly 2047 are consumed and the command is their C string |
| `CommandReader.CommandLineFraming` | sockproc.c:294-308 | sending a command and CR LF makes the shell argv `/bin/sh -c <command>`, and every byte after the CR LF stays on the connection |
| `CommandReader.NulHidesCrlf` | sockproc.c:289-300 | a NUL within the reachable bytes with no CR LF before it means the reader never stops on CR LF, consumes the whole window (to end of stream or 2047 bytes), and the command is the bytes before the NUL |
| `CommandReader.NulHidesLaterCrlf` | sockproc.c:294 | on "a", NUL, CR, LF, "b" the reader does not stop at the CR LF, takes all 5 bytes, and the command is "a" |
| `CommandReader.ShellArgv` | sockproc.c:304-308 | the worker's argv is `/bin/sh`, `-c` and the C string in the buffer |
| `Arguments.Interpret` | sockproc.c:195-265 | usage error with code 2 iff fewer than 2 arguments or `argv[1]` starts with '-'; TCP iff `%d` converts a number, with the socket path NULL exactly then; daemonize iff no `argv[i]`, i >= 2, equals "--foreground"; no pid file iff argc is 2; `fopen` with NULL iff argc is 3 and `argv[2]` is the flag; otherwise the pid file is `argv[3]` after the flag, else `argv[2]` |
| `Arguments.CheckForeground` | sockproc.c:245-251 | the scan from `argv[2]` clears daemonize iff some entry equals "--foreground" exactly |
| `Arguments.ForegroundIff` | sockproc.c:245-255 | foreground mode is chosen iff some argument from `argv[2]` on is exactly "--foreground" |
| `Arguments.PidFileSelection` | sockproc.c:257-268 | with argv `p e --foreground` the pid-file path is NULL; after the flag the next argument is the pid file; before the flag `argv[2]` is; argc 2 writes no pid file |
| `Arguments.ScanFormatRoundTrip` | sockproc.c:203 | `%d` scanning reads back what `%d` printing wrote, ignoring whatever non-digit follows |
| `Arguments.NumericArgumentIsTcp` | sockproc.c:203-210 | an argument made of any run of digits (leading zeros allowed, optionally after '+') of value at most LONG_MAX, then a non-digit or nothing, chooses TCP on 127.0.0.1 at that value modulo 2^16 (the value itself below 65536) and keeps no socket path |
| `Arguments.HugeNumberBindsPort65535` | sockproc.c:203-210 | the same kind of argument with a value above LONG_MAX chooses TCP at the `int` -1, bound as port 65535 |
| `Arguments.ScanSignedDigits` | sockproc.c:203 | digits, optionally after '+', scan as their value whatever non-digit follows |
| `Arguments.LongPort` | sockproc.c:203-209 | a non-negative `long` is bound at its value modulo 2^16 |
| `Arguments.ScannedArgumentIsTcp` | sockproc.c:195-210 | an argument not starting with '-' from which `%d` converts a value chooses TCP at that value as an `int` |
| `Arguments.ScanSpaceMinusNumber` | sockproc.c:203 | white space, a minus sign and any run of digits (leading zeros allowed) scan as the negated value of the digits, whatever non-digit follows |
| `Arguments.ScanSpaceUnsigned` | sockproc.c:203 | white space followed by a run of digits, with or without a '+' sign, scans as the value of the digits, whatever non-digit follows |
| `Arguments.NegativeNumberPort` | sockproc.c:203-209 | a negated number is bound at its value modulo 2^16 down to LONG_MIN, and at port 0 below LONG_MIN |
| `Arguments.SpaceSignWithoutDigitIsUnix` | sockproc.c:195-230 | white space then a sign not followed by a digit is not a usage error and chooses a Unix socket at the whole argument |
| `Arguments.ScanInt` | sockproc.c:203 | `%d` converts exactly when, after leading white space and at most one sign, a digit follows |
| `Arguments.SkipSpace` | sockproc.c:203 | what `%d` skips is a run of white space at the front, and what remains does not start with white space |
| `Arguments.PathArgumentIsUnix` | sockproc.c:219-230 | an argument that cannot start a number chooses a Unix socket at that path, kept for removal, and bound unchanged when shorter than 108 characters |
| `Arguments.LongPathBoundElsewhere` | sockproc.c:228-230 | a path of 108 characters or more is bound under a different (truncated) name than the one kept for removal |
| `Arguments.BindAddress` | sockproc.c:206-230 | TCP binds 127.0.0.1 at the 16-bit port; Unix binds the whole path when it is shorter than 108 characters and exactly its first 107 characters otherwise |
| `Arguments.CInt` | sockproc.c:203 | the stored `int` lies in 32-bit range, equals the number when it fits, agrees with it modulo 2^32 within `long` range, and is -1 above LONG_MAX and 0 below LONG_MIN |
| `Arguments.SinPort` | sockproc.c:209 | the port is below 2^16, equals an in-range value, and agrees with the `int` modulo 2^16 |
| `Arguments.FormatInt` | sockproc.c:270 | `%d` output is non-empty, has no newline, is digits with a leading '-' only for negative numbers, and has no leading zero except for 0 itself |
| `Bridge.Forward` | sockproc.c:41-56 | exit -1 iff the read failed, exit 0 iff it returned no bytes, otherwise the write carries exactly the bytes read (1 to BUFSIZ of them) |
| `Bridge.Serve` | sockproc.c:41-56 | after an exit nothing changes; otherwise the call exits iff its read fails or is empty, with -1 or 0 by kind; output only grows, and only in the call's own direction |
| `Bridge.RoundStep` | sockproc.c:139-145 | after an exit nothing changes; a side that is not ready gets no bytes; output only grows; a new exit code is -1 or 0 |
| `Bridge.Run` | sockproc.c:125-147 | running one more round only extends each direction's output, and any exit code is -1 or 0 |
| `Bridge.RoundEvents` | sockproc.c:139-145 | a round makes one `forward` call per ready side: the connection's call, carrying its read, comes first when it is ready, and the pipe's call, carrying its read, comes last when it is ready |
| `Bridge.SocketServedFirst` | sockproc.c:139-145 | when both sides are ready: if the connection's read ends the supervisor, the pipe is never read; if only the pipe's read ends it, the connection's chunk still reaches the worker before the exit; if neither does, both chunks are delivered |
| `Bridge.RunIsReplay` | sockproc.c:125-147 | running rounds equals replaying their `forward` calls connection-first, round by round |
| `Bridge.ReplayMeetsReference` | sockproc.c:41-56 | replaying `forward` calls delivers each direction's bytes unchanged and in order up to the first failed or empty read, whose kind sets the exit code |
| `Bridge.BridgeMeetsReference` | sockproc.c:125-147 | the whole bridge copies each direction in order and unchanged and exits at the first failed or empty read on either side |
| `Bridge.ExitIsFinal` | sockproc.c:45-53 | after the supervisor exits, later rounds change nothing |

## Left out

- Socket creation, `bind`, `listen`, `setsockopt`, `accept`, and the
  `access`/`unlink` checks on the Unix path (sockproc.c:206-243, 280-283):
  operating-system I/O. Only the choice of endpoint and address is modelled.
- `fork`, `pipe`, `dup2`, `execve` and descriptor closing in
  `create_worker` (sockproc.c:67-116, 150-160): process plumbing. Only the
  argv given to the shell is modelled.
- `select` and its EINTR retry (sockproc.c:125-137): readiness is an input
  to each round, with at least one side ready. The `exit(1)` on a `select`
  failure other than EINTR (sockproc.c:133-135) is not modelled, so the
  bridge's exit code is only ever -1 or 0.
- `daemon`, `getpid` and writing the pid file, the `terminate` and
  `proc_exit` handlers and the SIGCHLD dispositions (sockproc.c:39,
  166-181, 253-255, 268-277): process-level side effects and asynchronous
  signals. Only the pid file's `%d` content format and the path that
  `terminate` would remove are modelled.
- The diagnostics printed with `printf` and `perror`: text output.
- Read errors inside the command reader (`rc == -1`, sockproc.c:290): the
  code does not handle them (`p += rc` steps backwards). The model's
  one-byte reads return 1 or 0 only.
- `Bridge.Forward`: the return value of `write` is ignored by the code; the
  model assumes every write delivers all bytes. Partial and failed writes
  are not modelled.
- The exit status a parent observes from `exit(-1)` (255) is not modelled;
  the model keeps the code passed to `exit`.
- `Arguments.CInt`: converting a number outside `int` range is undefined
  behaviour in C. The model uses glibc's conversion (saturate to `long`,
  truncate to 32 bits).
- `argv` entries are modelled as character strings without NUL. C `char`
  signedness and multi-byte encodings are not modelled.
