/** The connection supervisor's command reader: it takes one byte at a time
    from a freshly accepted connection into a zeroed 2048-byte buffer and
    stops at the first CR LF, at end of stream, or after 2047 bytes. The
    buffer, read as a C string, is the command handed to the shell.

    The connection is the sequence of bytes the client sends, followed by
    end of stream; a one-byte `read` returns 1 while bytes remain and 0 at
    the end. */
module CommandReader {
  import opened Base

  /** The size of the supervisor's `buf`. */
  const BufSize: nat := 2048
  /** The reader's initial `count`: one byte short of the buffer, so the
      last byte stays NUL. */
  const MaxRead: nat := BufSize - 1

  const Shell: seq<char> := "/bin/sh"
  const ShellFlag: seq<char> := "-c"

  /** The part of the stream the reader can reach: up to end of stream or
      up to the bound, whichever comes first. */
  function Window(input: seq<byte>): (w: seq<byte>)
    ensures w <= input
    ensures |w| == if |input| < MaxRead then |input| else MaxRead
  {
    if |input| < MaxRead then input else input[..MaxRead]
  }

  /** Index of the CR of the CR LF pair that stops the reader, if one does:
      the first pair in the window that lies before any NUL byte, because
      `strstr` only searches the buffer up to its first NUL. */
  function Terminator(input: seq<byte>): (t: Option<nat>)
    ensures t.Some? ==> t.value + 2 <= |Window(input)|
  {
    FirstCrlf(CStr(Window(input)))
  }

  /** How many bytes the reader takes from the connection. */
  function Consumed(input: seq<byte>): (n: nat)
    ensures n <= |Window(input)|
  {
    match Terminator(input)
    case Some(i) => i + 2
    case None => |Window(input)|
  }

  /** The command: the C string left in the buffer. */
  function Command(input: seq<byte>): (cmd: seq<byte>)
  {
    match Terminator(input)
    case Some(i) => input[..i]
    case None => CStr(Window(input))
  }

  /** The whole buffer after the reader stops: the bytes read, the CR of a
      terminating CR LF overwritten with NUL, and zeros after. */
  function FinalBuffer(input: seq<byte>): (b: seq<byte>)
  {
    match Terminator(input)
    case Some(i) => input[..i] + [Nul, LF] + Zeros(BufSize - (i + 2))
    case None => Window(input) + Zeros(BufSize - |Window(input)|)
  }

  /** The argument vector the supervisor passes to `execve`. */
  function ShellArgv(input: seq<byte>): (argv: (seq<char>, seq<char>, seq<byte>))
    ensures argv.0 == Shell && argv.1 == ShellFlag
    ensures argv.2 == CStr(FinalBuffer(input))
  {
    BufferAlwaysTerminated(input);
    (Shell, ShellFlag, Command(input))
  }

  /** `strstr(buf, "\r\n")`: scans the buffer as a C string for the first
      CR LF pair. */
  method FindCrlf(buf: array<byte>) returns (r: Option<nat>)
    ensures r == FirstCrlf(CStr(buf[..]))
  {
    ghost var c := CStr(buf[..]);
    var i := 0;
    while i < buf.Length && buf[i] != Nul
      invariant i <= |c|
      invariant forall j :: 0 <= j < i ==> !CrlfAt(c, j)
    {
      if buf[i] == CR && i + 1 < buf.Length && buf[i + 1] == LF {
        assert c[i] == buf[i] && c[i + 1] == buf[i + 1];
        assert CrlfAt(c, i);
        return Some(i);
      }
      i := i + 1;
    }
    assert i == |c|;
    return None;
  }

  /** A CR LF pair in a NUL-free prefix of the window is the one that stops
      the reader. */
  lemma TerminatorFromPrefix(input: seq<byte>, m: nat)
    requires m <= MaxRead && m <= |input|
    requires Nul !in input[..m] && FirstCrlf(input[..m]).Some?
    ensures Terminator(input) == FirstCrlf(input[..m])
  {
    var w := Window(input);
    var a := input[..m];
    assert w == a + w[m..];
    CStrAppend(a, w[m..]);
    FirstCrlfExtend(a, CStr(w[m..]));
  }

  /** One iteration's read: after byte `p` lands in a buffer whose C string
      held no CR LF, the pair can only be the one that byte completes. */
  lemma ReadStep(input: seq<byte>, p: nat)
    requires p < |input|
    requires FirstCrlf(CStr(input[..p])).None?
    ensures FirstCrlf(CStr(input[..p + 1])).None? ||
      (FirstCrlf(CStr(input[..p + 1])) == Some(p - 1) && 1 <= p &&
       Nul !in input[..p + 1] && input[p - 1] == CR && input[p] == LF)
    ensures FirstCrlf(CStr(input[..p + 1])).Some? && p < MaxRead ==>
      Terminator(input) == Some(p - 1)
  {
    var a, x := input[..p], input[p];
    assert input[..p + 1] == a + [x];
    CStrSnoc(a, x);
    if Nul !in a && x != Nul {
      CStrUnique(a, a);
      assert CStr(input[..p + 1]) == a + [x];
      FirstCrlfSnoc(a, x);
      if FirstCrlf(a + [x]).Some? && p < MaxRead {
        TerminatorFromPrefix(input, p + 1);
      }
    } else {
      assert CStr(input[..p + 1]) == CStr(a);
    }
  }

  /** The C string after appending one byte: the byte extends it only when
      no NUL came before and the byte itself is not NUL. */
  lemma CStrSnoc(a: seq<byte>, x: byte)
    ensures CStr(a + [x]) == if Nul !in a && x != Nul then a + [x] else CStr(a)
  {
    CStrAppend(a, [x]);
    if Nul !in a {
      CStrAppend(a, []);
      assert a + [] == a;
      if x != Nul {
        assert CStr([x]) == [x];
      } else {
        assert CStr([x]) == [];
      }
    }
  }

  /** Storing byte `p` into the buffer that holds the first `p` bytes. */
  lemma BufferAfterRead(input: seq<byte>, p: nat)
    requires p < |input| && p < MaxRead
    ensures (input[..p] + Zeros(BufSize - p))[p := input[p]] ==
      input[..p + 1] + Zeros(BufSize - (p + 1))
  {
  }

  /** Overwriting the CR of the terminating pair with NUL gives the final
      buffer. */
  lemma BufferAfterCrlf(input: seq<byte>, p: nat)
    requires 1 <= p < |input| && p < MaxRead
    requires Terminator(input) == Some(p - 1)
    ensures (input[..p + 1] + Zeros(BufSize - (p + 1)))[p - 1 := Nul] == FinalBuffer(input)
  {
    var c := CStr(Window(input));
    assert CrlfAt(c, p - 1);
    assert input[p - 1] == c[p - 1] && input[p] == c[p];
    var z := Zeros(BufSize - (p + 1));
    assert input[..p + 1] + z == input[..p - 1] + [CR] + ([LF] + z);
    UpdateMiddle(input[..p - 1], CR, Nul, [LF] + z);
  }

  /** Overwriting the element between two parts of a sequence. */
  lemma UpdateMiddle(u: seq<byte>, x: byte, y: byte, v: seq<byte>)
    ensures (u + [x] + v)[|u| := y] == u + [y] + v
  {
  }

  /** The loop ends without a CR LF at end of stream or at the bound. */
  lemma ReaderEnd(input: seq<byte>, p: nat)
    requires p <= |input| && p <= MaxRead && (p == |input| || p == MaxRead)
    requires FirstCrlf(CStr(input[..p])).None?
    ensures p == Consumed(input)
    ensures input[..p] + Zeros(BufSize - p) == FinalBuffer(input)
  {
    assert input[..p] == Window(input);
  }

  /** `memset(buf, 0, sizeof(buf))`. */
  method Clear(buf: array<byte>)
    modifies buf
    ensures buf[..] == Zeros(buf.Length)
  {
    var k := 0;
    while k < buf.Length
      invariant k <= buf.Length
      invariant forall j :: 0 <= j < k ==> buf[j] == Nul
    {
      buf[k] := Nul;
      k := k + 1;
    }
  }

  /** The supervisor's command reader (the loop after `fork`): zero the
      buffer, then read one byte at a time, rescanning the buffer for CR LF
      after every byte. Returns how many bytes it took from the stream. */
  method ReadCommand(buf: array<byte>, input: seq<byte>) returns (consumed: nat)
    requires buf.Length == BufSize
    modifies buf
    ensures consumed == Consumed(input)
    ensures buf[..] == FinalBuffer(input)
  {
    Clear(buf);
    assert input[..0] + Zeros(BufSize) == buf[..];
    var p, count := 0, MaxRead;
    while count > 0
      invariant 0 <= count && p + count == MaxRead
      invariant p <= |input|
      invariant buf[..] == input[..p] + Zeros(BufSize - p)
      invariant FirstCrlf(CStr(input[..p])).None?
    {
      var rc := if p < |input| then 1 else 0;
      if rc == 0 {
        break;
      }
      var found := TakeByte(buf, input, p);
      if found {
        return p + 1;
      }
      p, count := p + rc, count - rc;
    }
    ReaderEnd(input, p);
    consumed := p;
  }

  /** One iteration of the reader: store byte `p`, rescan the buffer, and
      on a CR LF overwrite its CR with NUL. Returns whether the reader
      stops. */
  method TakeByte(buf: array<byte>, input: seq<byte>, p: nat) returns (found: bool)
    requires buf.Length == BufSize && p < |input| && p < MaxRead
    requires buf[..] == input[..p] + Zeros(BufSize - p)
    requires FirstCrlf(CStr(input[..p])).None?
    modifies buf
    ensures found ==> p + 1 == Consumed(input) && buf[..] == FinalBuffer(input)
    ensures !found ==>
      buf[..] == input[..p + 1] + Zeros(BufSize - (p + 1)) &&
      FirstCrlf(CStr(input[..p + 1])).None?
  {
    buf[p] := input[p];
    BufferAfterRead(input, p);
    CStrPadded(input[..p + 1], BufSize - (p + 1));
    ReadStep(input, p);
    var end := FindCrlf(buf);
    found := end.Some?;
    if found {
      buf[end.value] := Nul;
      BufferAfterCrlf(input, p);
    }
  }

  /** The reader never takes more than 2047 bytes nor more than the stream
      holds, the last byte of the buffer stays NUL, and the command is the C
      string in the buffer: it holds no NUL and no CR LF pair. */
  lemma BufferAlwaysTerminated(input: seq<byte>)
    ensures Consumed(input) <= MaxRead && Consumed(input) <= |input|
    ensures |FinalBuffer(input)| == BufSize && FinalBuffer(input)[BufSize - 1] == Nul
    ensures CStr(FinalBuffer(input)) == Command(input)
    ensures Nul !in Command(input) && FirstCrlf(Command(input)).None?
    ensures |Command(input)| <= MaxRead
  {
    var w := Window(input);
    var c := CStr(w);
    match Terminator(input)
    case Some(i) =>
      assert input[..i] == c[..i];
      forall j | CrlfAt(c[..i], j) ensures false {
        assert CrlfAt(c, j);
      }
      assert FirstCrlf(c[..i]).None?;
      var b := FinalBuffer(input);
      assert b == input[..i] + ([Nul] + [LF] + Zeros(BufSize - (i + 2)));
      CStrAppend(input[..i], [Nul] + [LF] + Zeros(BufSize - (i + 2)));
      assert CStr([Nul] + [LF] + Zeros(BufSize - (i + 2))) == [];
      assert input[..i] + [] == input[..i];
    case None =>
      CStrPadded(w, BufSize - |w|);
  }

  /** A CR LF pair completed within the bound, with no NUL and no earlier
      pair before it, stops the reader: the command is exactly the bytes
      before it, and no byte after the LF is taken from the stream. */
  lemma CommandStopsAtFirstCrlf(input: seq<byte>, i: nat)
    requires CrlfAt(input, i) && i + 2 <= MaxRead
    requires forall j :: 0 <= j < i ==> !CrlfAt(input, j)
    requires Nul !in input[..i]
    ensures Terminator(input) == Some(i)
    ensures Command(input) == input[..i]
    ensures Consumed(input) == i + 2
  {
    var w := Window(input);
    var a := input[..i + 2];
    assert w == a + w[i + 2..];
    assert a == input[..i] + [CR, LF];
    assert Nul !in a;
    CStrAppend(a, w[i + 2..]);
    assert CrlfAt(a, i);
    forall j | 0 <= j < i ensures !CrlfAt(a, j) {
      assert !CrlfAt(input, j);
    }
    assert FirstCrlf(a) == Some(i);
    FirstCrlfExtend(a, CStr(w[i + 2..]));
  }

  /** The reader stops before reaching end of stream or the bound only on a
      CR LF pair: then the last two bytes it took are CR and LF and the
      command is everything it took before them. */
  lemma StoppedOnlyAtCrlf(input: seq<byte>)
    ensures Terminator(input).None? ==> Consumed(input) == |Window(input)|
    ensures Terminator(input).Some? ==>
      2 <= Consumed(input) &&
      input[Consumed(input) - 2] == CR && input[Consumed(input) - 1] == LF &&
      Command(input) == input[..Consumed(input) - 2]
  {
    var w := Window(input);
    if Terminator(input).Some? {
      var i := Terminator(input).value;
      var c := CStr(w);
      assert CrlfAt(c, i);
      assert c[i] == input[i] && c[i + 1] == input[i + 1];
    }
  }

  /** At end of stream before the bound and without a CR LF pair, the reader
      takes the whole stream and the command is what was received, up to
      its first NUL; an empty stream gives the empty command. */
  lemma CommandAtEndOfStream(input: seq<byte>)
    requires |input| < MaxRead
    requires forall j :: !CrlfAt(input, j)
    ensures Consumed(input) == |input|
    ensures Command(input) == CStr(input)
    ensures input == [] ==> Command(input) == []
  {
    var c := CStr(input);
    assert forall j :: CrlfAt(c, j) ==> CrlfAt(input, j);
  }

  /** When 2047 bytes arrive without a CR LF pair, the reader stops with a
      full buffer: it takes exactly those bytes and the command is their C
      string. */
  lemma CommandWhenBufferFills(input: seq<byte>)
    requires |input| >= MaxRead
    requires forall j :: !CrlfAt(input[..MaxRead], j)
    ensures Consumed(input) == MaxRead
    ensures Command(input) == CStr(input[..MaxRead])
  {
    var w := input[..MaxRead];
    var c := CStr(w);
    forall j | CrlfAt(c, j) ensures false {
      assert c[j] == w[j] && c[j + 1] == w[j + 1];
      assert CrlfAt(w, j);
    }
  }

  /** The client's framing round-trips: sending a command (no NUL, no CR LF
      pair, short enough) followed by CR LF makes the shell run exactly that
      command, and every byte sent after the CR LF stays on the connection
      for the worker. */
  lemma CommandLineFraming(cmd: seq<byte>, rest: seq<byte>)
    requires Nul !in cmd && FirstCrlf(cmd).None?
    requires |cmd| + 2 <= MaxRead
    ensures ShellArgv(cmd + [CR, LF] + rest) == (Shell, ShellFlag, cmd)
    ensures (cmd + [CR, LF] + rest)[Consumed(cmd + [CR, LF] + rest)..] == rest
  {
    var input := cmd + [CR, LF] + rest;
    var i := |cmd|;
    assert input[..i] == cmd;
    assert CrlfAt(input, i);
    forall j | 0 <= j < i ensures !CrlfAt(input, j) {
      if j + 1 < i {
        assert !CrlfAt(cmd, j);
      } else {
        assert input[j + 1] == CR;
      }
    }
    CommandStopsAtFirstCrlf(input, i);
    assert input[i + 2..] == rest;
  }

  /** A NUL byte hides every later CR LF from `strstr`: when the reachable
      bytes hold a NUL at `k` and no CR LF before it, the reader never stops
      early, it takes the whole window, and the command is what precedes
      the NUL. */
  lemma NulHidesCrlf(input: seq<byte>, k: nat)
    requires k < |Window(input)| && input[k] == Nul
    requires Nul !in input[..k] && FirstCrlf(input[..k]).None?
    ensures Terminator(input).None?
    ensures Consumed(input) == |Window(input)|
    ensures Command(input) == input[..k]
  {
    var w := Window(input);
    assert input[..k] <= w && w[k] == Nul;
    CStrUnique(w, input[..k]);
  }

  /** An instance: on the stream "a", NUL, CR, LF, "b" the reader does not
      stop at the CR LF but takes all five bytes, and the command is "a". */
  lemma NulHidesLaterCrlf()
    ensures Command([97, Nul, CR, LF, 98]) == [97]
    ensures Consumed([97, Nul, CR, LF, 98]) == 5
  {
    var input: seq<byte> := [97, Nul, CR, LF, 98];
    assert input[..1] == [97];
    assert FirstCrlf([97]).None?;
    NulHidesCrlf(input, 1);
  }
}
