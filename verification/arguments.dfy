/** How the listener interprets its command line
    `progname (<unix-socket-path>|<tcp-port>) [pidfile] [--foreground]`:
    the usage error, the choice between a loopback TCP port and a
    Unix-domain socket path, the foreground flag and the pid file. */
module Arguments {
  import opened Base

  /** An argv entry: the characters before its terminating NUL. */
  type CString = s: string | '\0' !in s

  const ForegroundFlag: CString := "--foreground"
  /** The fixed address the TCP endpoint listens on. */
  const Loopback: string := "127.0.0.1"
  /** The exit code of a usage error. */
  const UsageExit: int := 2
  /** `sizeof(addr.sun_path)` on Linux. */
  const SunPathSize: nat := 108
  /** Bounds of C `long` (64 bits) and `int` (32 bits). */
  const LongMin: int := -0x8000_0000_0000_0000
  const LongMax: int := 0x7FFF_FFFF_FFFF_FFFF
  const IntMin: int := -0x8000_0000
  const IntMax: int := 0x7FFF_FFFF

  /** White space as `isspace` sees it in the C locale. */
  predicate IsSpace(c: char)
  {
    c == ' ' || '\t' <= c <= '\r'
  }

  predicate IsDigit(c: char)
  {
    '0' <= c <= '9'
  }

  predicate AllDigits(s: string)
  {
    forall i :: 0 <= i < |s| ==> IsDigit(s[i])
  }

  /** What `%d` skips before a number: the leading white space. */
  function SkipSpace(s: string): (r: string)
    ensures |r| <= |s| && r == s[|s| - |r|..]
    ensures forall i :: 0 <= i < |s| - |r| ==> IsSpace(s[i])
    ensures r == [] || !IsSpace(r[0])
  {
    if s != [] && IsSpace(s[0]) then SkipSpace(s[1..]) else s
  }

  /** The longest run of decimal digits at the start of `s`. */
  function DigitRun(s: string): (d: string)
    ensures d <= s && AllDigits(d)
    ensures |d| < |s| ==> !IsDigit(s[|d|])
  {
    if s != [] && IsDigit(s[0]) then [s[0]] + DigitRun(s[1..]) else []
  }

  /** The value of a run of decimal digits, most significant first. */
  function DigitsValue(d: string): nat
    requires AllDigits(d)
  {
    if d == [] then 0 else DigitsValue(d[..|d| - 1]) * 10 + (d[|d| - 1] as int - '0' as int)
  }

  /** `sscanf(s, "%d", &n)`: the number it converts when it returns 1, or
      None when it converts nothing. Leading white space is skipped, one
      sign is accepted, at least one digit must follow, and anything after
      the digits is ignored. The value is the mathematical one; CInt gives
      what lands in the `int`. */
  function ScanInt(s: string): (r: Option<int>)
    ensures r.Some? <==>
      var t := SkipSpace(s);
      var u := if t != [] && (t[0] == '-' || t[0] == '+') then t[1..] else t;
      u != [] && IsDigit(u[0])
  {
    var t := SkipSpace(s);
    if t != [] && t[0] == '-' then
      match ScanDigits(t[1..])
      case Some(v) => Some(-v)
      case None => None
    else if t != [] && t[0] == '+' then ScanDigits(t[1..])
    else ScanDigits(t)
  }

  /** The unsigned number at the start of `s`, if `s` starts with a digit. */
  function ScanDigits(s: string): (r: Option<int>)
    ensures r.Some? <==> s != [] && IsDigit(s[0])
  {
    var d := DigitRun(s);
    if d == [] then None else Some(DigitsValue(d))
  }

  /** The `int` that `%d` stores under glibc: the value saturated to `long`
      by `strtol`, then truncated to 32 bits. */
  function CInt(v: int): (n: int)
    ensures IntMin <= n <= IntMax
    ensures IntMin <= v <= IntMax ==> n == v
    ensures LongMin <= v <= LongMax ==> (n - v) % 0x1_0000_0000 == 0
    ensures v > LongMax ==> n == -1
    ensures v < LongMin ==> n == 0
  {
    var l := if v < LongMin then LongMin else if v > LongMax then LongMax else v;
    (l - IntMin) % 0x1_0000_0000 + IntMin
  }

  /** The port `htons` receives: the `int` converted to a 16-bit unsigned
      value. */
  function SinPort(port: int): (p: nat)
    ensures p < 0x1_0000
    ensures 0 <= port < 0x1_0000 ==> p == port
    ensures (p - port) % 0x1_0000 == 0
  {
    port % 0x1_0000
  }

  /** `printf("%d", n)`: optional minus sign, then decimal digits without
      leading zeros. This is the content of the pid file. */
  function FormatInt(n: int): (s: CString)
    ensures s != [] && '\n' !in s
    ensures n >= 0 ==> AllDigits(s) && (s[0] == '0' <==> n == 0)
    ensures n < 0 ==> s[0] == '-' && AllDigits(s[1..]) && |s| >= 2 && s[1] != '0'
  {
    if n < 0 then "-" + FormatNat(-n) else FormatNat(n)
  }

  function FormatNat(n: nat): (s: string)
    ensures s != [] && AllDigits(s)
    ensures s[0] == '0' <==> n == 0
  {
    if n < 10 then [DigitChar(n)] else FormatNat(n / 10) + [DigitChar(n % 10)]
  }

  function DigitChar(d: nat): (c: char)
    requires d < 10
    ensures IsDigit(c) && c as int - '0' as int == d
  {
    ('0' as int + d) as char
  }

  /** The listening endpoint: a TCP port (the `int` `%d` stored) or the
      Unix-domain path as given. */
  datatype Endpoint = Tcp(port: int) | Unix(path: CString)

  /** The address actually bound. */
  datatype Address = Inet(host: string, port: nat) | Local(path: CString)

  /** What happens to the pid file: no `fopen` at all, `fopen` of a path,
      or `fopen` reached with a NULL path. */
  datatype PidFile = NoPidFile | PidPath(path: CString) | NullPidPath

  datatype Config = Config(
    endpoint: Endpoint,
    socketPath: Option<CString>,  // the path `terminate` unlinks
    daemonize: bool,
    pidFile: PidFile)

  datatype Startup = UsageError(code: int) | Listen(config: Config)

  /** The address bound for an endpoint: 127.0.0.1 and the 16-bit port, or
      the path as `strncpy` leaves it in `sun_path`, at most
      `sizeof(sun_path) - 1` characters. */
  function BindAddress(e: Endpoint): (a: Address)
    ensures e.Tcp? <==> a.Inet?
    ensures a.Inet? ==> a.host == Loopback && a.port == SinPort(e.port)
    ensures a.Local? ==> a.path <= e.path && |a.path| <= SunPathSize - 1
    ensures a.Local? && |e.path| < SunPathSize ==> a.path == e.path
    ensures a.Local? && |e.path| >= SunPathSize ==> a.path == e.path[..SunPathSize - 1]
  {
    match e
    case Tcp(p) => Inet(Loopback, SinPort(p))
    case Unix(path) =>
      Local(if |path| < SunPathSize then path else path[..SunPathSize - 1])
  }

  predicate ForegroundRequested(argv: seq<CString>)
  {
    exists i :: 2 <= i < |argv| && argv[i] == ForegroundFlag
  }

  /** The argument vector's first character test: `argv[1][0] == '-'`. */
  predicate StartsWithDash(s: CString)
  {
    s != [] && s[0] == '-'
  }

  /** The listener's argument handling, from the usage check to the pid
      file. */
  function Interpret(argv: seq<CString>): (r: Startup)
    ensures r.UsageError? <==> |argv| < 2 || StartsWithDash(argv[1])
    ensures r.UsageError? ==> r.code == UsageExit
    ensures r.Listen? ==>
      && (r.config.endpoint.Tcp? <==> ScanInt(argv[1]).Some?)
      && (r.config.endpoint.Tcp? ==> r.config.endpoint.port == CInt(ScanInt(argv[1]).value))
      && (r.config.endpoint.Unix? ==> r.config.endpoint.path == argv[1])
      && (r.config.socketPath.None? <==> r.config.endpoint.Tcp?)
      && (r.config.socketPath.Some? ==> r.config.socketPath.value == argv[1])
      && (r.config.daemonize <==> forall i :: 2 <= i < |argv| ==> argv[i] != ForegroundFlag)
      && (r.config.pidFile.NoPidFile? <==> |argv| == 2)
      && (r.config.pidFile.NullPidPath? <==> |argv| == 3 && argv[2] == ForegroundFlag)
      && (r.config.pidFile.PidPath? ==>
            r.config.pidFile.path == (if argv[2] == ForegroundFlag then argv[3] else argv[2]))
  {
    if |argv| < 2 || StartsWithDash(argv[1]) then UsageError(UsageExit)
    else
      var endpoint := match ScanInt(argv[1])
        case Some(v) => Tcp(CInt(v))
        case None => Unix(argv[1]);
      var socketPath := if endpoint.Tcp? then None else Some(argv[1]);
      var pidFile :=
        if |argv| <= 2 then NoPidFile
        else if argv[2] == ForegroundFlag then
          (if |argv| > 3 then PidPath(argv[3]) else NullPidPath)
        else PidPath(argv[2]);
      Listen(Config(endpoint, socketPath, !ForegroundRequested(argv), pidFile))
  }

  /** The scan for the foreground flag: `argv[2]` onwards, stopping at the
      first exact match. */
  method CheckForeground(argv: seq<CString>) returns (daemonize: bool)
    ensures daemonize <==> forall i :: 2 <= i < |argv| ==> argv[i] != ForegroundFlag
  {
    daemonize := true;
    var i := 2;
    while i <= |argv| - 1
      invariant 2 <= i && (i == 2 || i <= |argv|)
      invariant daemonize
      invariant forall j :: 2 <= j < i ==> argv[j] != ForegroundFlag
    {
      if argv[i] == ForegroundFlag {
        daemonize := false;
        break;
      }
      i := i + 1;
    }
  }

  /** The digits of `n` are read back as `n`, and the first character after
      them stops the run. */
  lemma {:induction false} DigitRunOfFormat(n: nat, rest: string)
    requires rest == [] || !IsDigit(rest[0])
    ensures DigitRun(FormatNat(n) + rest) == FormatNat(n)
    ensures DigitsValue(FormatNat(n)) == n
  {
    var s := FormatNat(n);
    DigitRunPrefix(s, rest);
    if n >= 10 {
      DigitRunOfFormat(n / 10, []);
      var t := FormatNat(n / 10);
      assert s[..|s| - 1] == t;
    }
  }

  lemma {:induction false} DigitRunPrefix(d: string, rest: string)
    requires AllDigits(d)
    requires rest == [] || !IsDigit(rest[0])
    ensures DigitRun(d + rest) == d
  {
    if d != [] {
      assert (d + rest)[1..] == d[1..] + rest;
      DigitRunPrefix(d[1..], rest);
      assert [d[0]] + d[1..] == d;
    } else {
      assert d + rest == rest;
    }
  }

  /** What the pid file holds reads back as the same number, whatever
      follows it (as long as it is not a digit): `%d` scanning undoes `%d`
      printing and ignores trailing characters. */
  lemma ScanFormatRoundTrip(n: int, rest: string)
    requires rest == [] || !IsDigit(rest[0])
    ensures ScanInt(FormatInt(n) + rest) == Some(n)
  {
    if n < 0 {
      ScanNegative(n, rest);
    } else {
      ScanNonNegative(n, rest);
    }
  }

  lemma ScanNonNegative(n: nat, rest: string)
    requires rest == [] || !IsDigit(rest[0])
    ensures ScanInt(FormatInt(n) + rest) == Some(n)
  {
    assert FormatInt(n) == FormatNat(n);
    ScanDigitsOfFormat(n, rest);
    ScanUnsigned(FormatNat(n) + rest, n);
  }

  lemma ScanNegative(n: int, rest: string)
    requires n < 0
    requires rest == [] || !IsDigit(rest[0])
    ensures ScanInt(FormatInt(n) + rest) == Some(n)
  {
    var u := FormatNat(-n) + rest;
    assert FormatInt(n) + rest == ['-'] + u;
    ScanDigitsOfFormat(-n, rest);
    ScanMinus(u, -n);
  }

  /** The digits `%d` prints for a natural number scan back as that number. */
  lemma ScanDigitsOfFormat(m: nat, rest: string)
    requires rest == [] || !IsDigit(rest[0])
    ensures ScanDigits(FormatNat(m) + rest) == Some(m)
  {
    DigitRunOfFormat(m, rest);
  }

  /** Text starting with a digit scans as its digits. */
  lemma ScanUnsigned(u: string, v: int)
    requires ScanDigits(u) == Some(v)
    ensures ScanInt(u) == Some(v)
  {
    assert SkipSpace(u) == u;
  }

  /** A leading minus sign negates the digits after it. */
  lemma ScanMinus(u: string, v: int)
    requires ScanDigits(u) == Some(v)
    ensures ScanInt(['-'] + u) == Some(-v)
  {
    var s := ['-'] + u;
    assert SkipSpace(s) == s;
    assert s[1..] == u;
  }

  /** A listen argument that starts with a decimal number chooses TCP on
      127.0.0.1: the port bound is the number modulo 2^16 (the number itself
      below 65536), and no socket path is kept for cleanup. */
  lemma NumericArgumentIsTcp(argv: seq<CString>, d: string, rest: string)
    requires |argv| >= 2
    requires d != [] && AllDigits(d) && DigitsValue(d) <= LongMax
    requires rest == [] || !IsDigit(rest[0])
    requires argv[1] == d + rest || argv[1] == ['+'] + (d + rest)
    ensures Interpret(argv).Listen?
    ensures Interpret(argv).config.endpoint == Tcp(CInt(DigitsValue(d)))
    ensures Interpret(argv).config.socketPath == None
    ensures BindAddress(Interpret(argv).config.endpoint) ==
      Inet(Loopback, DigitsValue(d) % 0x1_0000)
    ensures DigitsValue(d) < 0x1_0000 ==>
      BindAddress(Interpret(argv).config.endpoint) == Inet(Loopback, DigitsValue(d))
  {
    ScanSignedDigits(argv[1], d, rest);
    var v := DigitsValue(d);
    ScannedArgumentIsTcp(argv, v);
    LongPort(v);
  }

  /** A `long` that `%d` stored is bound at its value modulo 2^16. */
  lemma LongPort(v: int)
    requires 0 <= v <= LongMax
    ensures BindAddress(Tcp(CInt(v))) == Inet(Loopback, v % 0x1_0000)
  {
    SameLow16Bits(v, CInt(v));
  }

  /** A number above LONG_MAX saturates to LONG_MAX, whose low 32 bits are
      the `int` -1: TCP on port 65535 whatever the number. */
  lemma HugeNumberBindsPort65535(argv: seq<CString>, d: string, rest: string)
    requires |argv| >= 2
    requires d != [] && AllDigits(d) && DigitsValue(d) > LongMax
    requires rest == [] || !IsDigit(rest[0])
    requires argv[1] == d + rest || argv[1] == ['+'] + (d + rest)
    ensures Interpret(argv).Listen?
    ensures Interpret(argv).config.endpoint == Tcp(-1)
    ensures BindAddress(Interpret(argv).config.endpoint) == Inet(Loopback, 0xFFFF)
  {
    ScanSignedDigits(argv[1], d, rest);
    ScannedArgumentIsTcp(argv, DigitsValue(d));
  }

  /** Digits, with at most a '+' before them, scan as their value, whatever
      non-digit follows: leading zeros and the plus sign change nothing. */
  lemma ScanSignedDigits(a: string, d: string, rest: string)
    requires d != [] && AllDigits(d)
    requires rest == [] || !IsDigit(rest[0])
    requires a == d + rest || a == ['+'] + (d + rest)
    ensures ScanInt(a) == Some(DigitsValue(d))
    ensures a != [] && a[0] != '-'
  {
    ScanDigitsOfRun(d, rest);
    if a == d + rest {
      ScanUnsigned(a, DigitsValue(d));
    } else {
      ScanPlus(d + rest, DigitsValue(d));
    }
  }

  lemma ScanDigitsOfRun(d: string, rest: string)
    requires d != [] && AllDigits(d)
    requires rest == [] || !IsDigit(rest[0])
    ensures ScanDigits(d + rest) == Some(DigitsValue(d))
  {
    DigitRunPrefix(d, rest);
  }

  /** A leading plus sign is skipped. */
  lemma ScanPlus(u: string, v: int)
    requires ScanDigits(u) == Some(v)
    ensures ScanInt(['+'] + u) == Some(v)
  {
    var s := ['+'] + u;
    assert SkipSpace(s) == s;
    assert s[1..] == u;
  }

  /** An argument from which `%d` converts `v`, and that does not start
      with '-', chooses TCP at `CInt(v)`. */
  lemma ScannedArgumentIsTcp(argv: seq<CString>, v: int)
    requires |argv| >= 2 && !StartsWithDash(argv[1])
    requires ScanInt(argv[1]) == Some(v)
    ensures Interpret(argv).Listen?
    ensures Interpret(argv).config.endpoint == Tcp(CInt(v))
  {
    var e := Interpret(argv).config.endpoint;
    assert e.Tcp? && e.port == CInt(v);
  }

  /** Leading white space, a minus sign and a run of digits (leading zeros
      allowed) scan as the negated value. With `ScannedArgumentIsTcp` and
      `NegativeNumberPort`: such an argument (white space first, so no usage
      error) is TCP at a port that wraps modulo 2^16 down to LONG_MIN (" -1"
      binds 65535, " -0" binds 0), and is port 0 below it. */
  lemma {:induction false} ScanSpaceMinusNumber(ws: string, d: string, rest: string)
    requires forall i :: 0 <= i < |ws| ==> IsSpace(ws[i])
    requires d != [] && AllDigits(d)
    requires rest == [] || !IsDigit(rest[0])
    ensures ScanInt(ws + (['-'] + (d + rest))) == Some(-(DigitsValue(d) as int))
  {
    var v: int := DigitsValue(d);
    ScanDigitsOfRun(d, rest);
    ScanSpaceMinus(ws, d + rest, v);
  }

  lemma ScanSpaceMinus(ws: string, u: string, v: int)
    requires forall i :: 0 <= i < |ws| ==> IsSpace(ws[i])
    requires ScanDigits(u) == Some(v)
    ensures ScanInt(ws + (['-'] + u)) == Some(-v)
  {
    ScanMinus(u, v);
    ScanAfterSpace(ws, ['-'] + u);
  }

  /** Leading white space before digits, with or without '+', changes
      nothing: " 80" and "\t+80" scan as 80. */
  lemma ScanSpaceUnsigned(ws: string, a: string, d: string, rest: string)
    requires forall i :: 0 <= i < |ws| ==> IsSpace(ws[i])
    requires d != [] && AllDigits(d)
    requires rest == [] || !IsDigit(rest[0])
    requires a == d + rest || a == ['+'] + (d + rest)
    ensures ScanInt(ws + a) == Some(DigitsValue(d))
  {
    ScanSignedDigits(a, d, rest);
    assert a[0] == '+' || IsDigit(a[0]);
    ScanAfterSpace(ws, a);
  }

  /** The port for a negated number: its value modulo 2^16 down to
      LONG_MIN, and 0 below, where glibc saturates to LONG_MIN, whose low 32
      bits are the `int` 0. */
  lemma NegativeNumberPort(n: nat)
    ensures n <= -LongMin ==>
      BindAddress(Tcp(CInt(-(n as int)))) == Inet(Loopback, (-(n as int)) % 0x1_0000)
    ensures n > -LongMin ==> BindAddress(Tcp(CInt(-(n as int)))) == Inet(Loopback, 0)
  {
    if n <= -LongMin {
      SameLow16Bits(-(n as int), CInt(-(n as int)));
    }
  }

  /** Leading white space, a sign and no digit after it: a Unix path. */
  lemma SpaceSignWithoutDigitIsUnix(argv: seq<CString>, ws: string, sign: char, rest: string)
    requires |argv| >= 2 && ws != [] && forall i :: 0 <= i < |ws| ==> IsSpace(ws[i])
    requires sign == '-' || sign == '+'
    requires rest == [] || !IsDigit(rest[0])
    requires argv[1] == ws + ([sign] + rest)
    ensures Interpret(argv).Listen?
    ensures Interpret(argv).config.endpoint == Unix(argv[1])
  {
    SkipSpaceOver(ws, [sign] + rest);
    assert ([sign] + rest)[1..] == rest;
  }

  /** `%d` ignores the white space in front of what it scans. */
  lemma ScanAfterSpace(ws: string, s: string)
    requires forall i :: 0 <= i < |ws| ==> IsSpace(ws[i])
    requires s == [] || !IsSpace(s[0])
    ensures ScanInt(ws + s) == ScanInt(s)
  {
    SkipSpaceOver(ws, s);
    assert SkipSpace(s) == s;
  }

  lemma {:induction false} SkipSpaceOver(ws: string, s: string)
    requires forall i :: 0 <= i < |ws| ==> IsSpace(ws[i])
    requires s == [] || !IsSpace(s[0])
    ensures SkipSpace(ws + s) == s
  {
    if ws != [] {
      assert (ws + s)[1..] == ws[1..] + s;
      SkipSpaceOver(ws[1..], s);
    }
  }

  /** Values that agree modulo 2^32 agree modulo 2^16. */
  lemma SameLow16Bits(a: int, b: int)
    requires (b - a) % 0x1_0000_0000 == 0
    ensures b % 0x1_0000 == a % 0x1_0000
  {
    var k := (b - a) / 0x1_0000_0000;
    assert b == a + k * 0x1_0000_0000;
    var m := k * 0x1_0000;
    assert b == a + m * 0x1_0000;
    assert (a + m * 0x1_0000) % 0x1_0000 == a % 0x1_0000;
  }

  /** A listen argument whose first character cannot start a number (a path
      such as "/tmp/s.sock") chooses the Unix-domain socket at that path,
      which is also the path removed on termination. */
  lemma PathArgumentIsUnix(argv: seq<CString>)
    requires |argv| >= 2 && argv[1] != []
    requires !IsSpace(argv[1][0]) && !IsDigit(argv[1][0])
    requires argv[1][0] != '-' && argv[1][0] != '+'
    ensures Interpret(argv).Listen?
    ensures Interpret(argv).config.endpoint == Unix(argv[1])
    ensures Interpret(argv).config.socketPath == Some(argv[1])
    ensures |argv[1]| < SunPathSize ==>
      BindAddress(Interpret(argv).config.endpoint) == Local(argv[1])
  {
    assert SkipSpace(argv[1]) == argv[1];
    assert DigitRun(argv[1]) == [];
  }

  /** A Unix path of 108 characters or more is bound truncated to 107, yet
      the full path is the one kept for `terminate` to unlink: the two name
      different files. */
  lemma LongPathBoundElsewhere(argv: seq<CString>)
    requires |argv| >= 2 && Interpret(argv).Listen?
    requires Interpret(argv).config.endpoint.Unix?
    requires |argv[1]| >= SunPathSize
    ensures BindAddress(Interpret(argv).config.endpoint).path != argv[1]
    ensures Interpret(argv).config.socketPath == Some(argv[1])
  {
  }

  /** Foreground mode iff some argument from `argv[2]` on is exactly
      "--foreground", stated as an existence rather than as the absence that
      `CheckForeground` and `Interpret` state for daemonizing. */
  lemma ForegroundIff(argv: seq<CString>)
    requires Interpret(argv).Listen?
    ensures !Interpret(argv).config.daemonize <==>
      exists i :: 2 <= i < |argv| && argv[i] == ForegroundFlag
  {
  }

  /** The pid file edge case: `progname <endpoint> --foreground` reaches
      `fopen` with a NULL path, while an extra argument after the flag
      becomes the pid file and one before it always does. */
  lemma PidFileSelection(endpoint: CString, p: CString)
    requires !StartsWithDash(endpoint)
    ensures Interpret(["", endpoint, ForegroundFlag]).config.pidFile == NullPidPath
    ensures Interpret(["", endpoint, ForegroundFlag, p]).config.pidFile == PidPath(p)
    ensures Interpret(["", endpoint, p, ForegroundFlag]).config.pidFile == PidPath(p)
    ensures !Interpret(["", endpoint, p, ForegroundFlag]).config.daemonize
    ensures Interpret(["", endpoint]).config.pidFile == NoPidFile
    ensures Interpret(["", endpoint]).config.daemonize
  {
    var argv: seq<CString> := ["", endpoint, p, ForegroundFlag];
    assert argv[3] == ForegroundFlag;
  }
}
