/** `struct Proc`: a process seen through the process filesystem. Paths
    under `/proc/<pid>/`, the command line read to exhaustion with NUL
    separators turned into spaces, and the target of a descriptor link.
    The file system is a snapshot handed in as a value: what `open`, `read`
    and `readlink` would return for each path. */
module Proc {
  import opened Common

  // ---------------------------------------------------------------------
  // What the system calls return.
  // ---------------------------------------------------------------------

  /** The bytes one `read(fd, buf, 1024)` delivers: at least one (a 0 return
      is end of file) and at most the buffer size. */
  type Chunk = s: string | 1 <= |s| <= 1024 witness "x"

  /** How a run of `read` calls on an open file ends. */
  datatype ReadEnd = AtEof | ReadFailed(errno: int)

  /** The successive results of `read` on one open file: the chunks, in
      order, then either a 0 return or a -1 return. */
  datatype ReadScript = ReadScript(chunks: seq<Chunk>, end: ReadEnd)

  /** The result of `open(path, O_RDONLY)` and, when it succeeds, of the
      reads that follow on that descriptor. */
  datatype OpenOutcome = Opened(fd: Int32, script: ReadScript) | OpenFailed(errno: int)

  /** The result of `readlink(path, ...)`: the whole target, or -1. */
  datatype LinkOutcome = Link(target: string) | LinkFailed(errno: int)

  /** The process filesystem as the monitor finds it. */
  datatype Procfs = Procfs(open: string -> OpenOutcome, readlink: string -> LinkOutcome)

  // ---------------------------------------------------------------------
  // procfsPath
  // ---------------------------------------------------------------------

  /** `procfsPath(stem, ...)`: `snprintf` writes `/proc/<pid>/` into a
      `PATH_MAX` buffer, then `vsnprintf` writes the formatted stem into the
      room left, keeping one byte for the terminating NUL. */
  function ProcfsPath(pid: Int32, stem: string): (path: string)
    requires '\0' !in stem
    ensures path == Truncate("/proc/" + Decimal(pid) + "/" + stem, PathMax - 1)
    ensures |path| <= PathMax - 1
  {
    var prefix := "/proc/" + Decimal(pid) + "/";
    DecimalInt32Length(pid);
    var room := PathMax - |prefix|;
    assert ("/proc/" + Decimal(pid) + "/" + stem)[..|prefix|] == prefix;
    prefix + stem[..Min(|stem|, room - 1)]
  }

  /** `procfsPath("cmdline")`. */
  function CmdlinePath(pid: Int32): string
  {
    ProcfsPath(pid, "cmdline")
  }

  /** `procfsPath("fd/%d", fd)`. */
  function FdPath(pid: Int32, fd: Int32): string
  {
    ProcfsPath(pid, "fd/" + Decimal(fd))
  }

  /** Neither path is ever truncated: a C `int` prints in at most eleven
      characters, far below `PATH_MAX`. */
  lemma ProcPathsExact(pid: Int32, fd: Int32)
    ensures CmdlinePath(pid) == "/proc/" + Decimal(pid) + "/cmdline"
    ensures FdPath(pid, fd) == "/proc/" + Decimal(pid) + "/fd/" + Decimal(fd)
  {
    DecimalInt32Length(pid);
    DecimalInt32Length(fd);
    assert "/proc/" + Decimal(pid) + "/" + ("fd/" + Decimal(fd))
        == "/proc/" + Decimal(pid) + "/fd/" + Decimal(fd);
  }

  // ---------------------------------------------------------------------
  // readData
  // ---------------------------------------------------------------------

  function Blank(c: char): char { if c == '\0' then ' ' else c }

  /** Every NUL replaced by a space. */
  function Sanitize(s: string): string
  {
    if s == [] then [] else Sanitize(s[..|s| - 1]) + [Blank(s[|s| - 1])]
  }

  lemma {:induction false} SanitizeAt(s: string)
    ensures |Sanitize(s)| == |s|
    ensures forall i :: 0 <= i < |s| ==> Sanitize(s)[i] == Blank(s[i])
  {
    if s != [] {
      SanitizeAt(s[..|s| - 1]);
    }
  }

  /** Sanitizing leaves no NUL, keeps the length, and changes nothing else. */
  lemma {:induction false} SanitizeProperties(s: string)
    ensures |Sanitize(s)| == |s| && '\0' !in Sanitize(s)
    ensures '\0' !in s ==> Sanitize(s) == s
  {
    SanitizeAt(s);
  }

  lemma {:induction false} SanitizeAppend(a: string, b: string)
    ensures Sanitize(a + b) == Sanitize(a) + Sanitize(b)
  {
    if b != [] {
      var n := |b| - 1;
      assert (a + b)[..|a + b| - 1] == a + b[..n];
      SanitizeAppend(a, b[..n]);
    } else {
      assert a + b == a;
    }
  }

  /** All the chunks, in order. */
  function Flatten(chunks: seq<Chunk>): string
  {
    if chunks == [] then [] else Flatten(chunks[..|chunks| - 1]) + chunks[|chunks| - 1]
  }

  /** What `readData` returns or throws. */
  function ReadDataResult(script: ReadScript): Result<string>
  {
    match script.end
    case AtEof => Ok(Sanitize(Flatten(script.chunks)))
    case ReadFailed(e) => Err(e)
  }

  /** `readData` yields every byte read before end of file, in order, with
      NULs turned to spaces, so an immediate end of file yields ""; a failing
      read throws with its errno. */
  lemma ReadDataMeaning(script: ReadScript)
    ensures script.end.AtEof? ==> ReadDataResult(script).Ok?
    ensures script.end.ReadFailed? ==> ReadDataResult(script) == Err(script.end.errno)
    ensures ReadDataResult(script).Ok? ==>
      var r := ReadDataResult(script).value;
      var raw := Flatten(script.chunks);
      && |r| == |raw| && '\0' !in r
      && (forall i :: 0 <= i < |raw| ==> r[i] == Blank(raw[i]))
    ensures script == ReadScript([], AtEof) ==> ReadDataResult(script) == Ok("")
  {
    SanitizeAt(Flatten(script.chunks));
  }

  /** One `read(fd, buf, 1024)`: the k-th chunk lands at the start of `buf`
      and its length is returned; past the chunks, 0 at end of file or -1. */
  method ReadInto(script: ReadScript, k: nat, buf: array<char>) returns (rc: int)
    requires k <= |script.chunks| && buf.Length == 1024
    modifies buf
    ensures k < |script.chunks| ==> rc == |script.chunks[k]| && buf[..rc] == script.chunks[k]
    ensures k == |script.chunks| ==> rc == (if script.end.AtEof? then 0 else -1)
    ensures k == |script.chunks| ==> buf[..] == old(buf[..])
  {
    if k < |script.chunks| {
      var chunk := script.chunks[k];
      var j := 0;
      while j < |chunk|
        invariant 0 <= j <= |chunk|
        invariant buf[..j] == chunk[..j]
      {
        buf[j] := chunk[j];
        assert buf[..j + 1] == buf[..j] + [buf[j]];
        assert chunk[..j + 1] == chunk[..j] + [chunk[j]];
        j := j + 1;
      }
      rc := |chunk|;
    } else {
      rc := if script.end.AtEof? then 0 else -1;
    }
  }

  /** `readData(fd)`: read 1024-byte chunks until a read returns 0, turning
      each NUL of the chunk into a space where it lies in the buffer and
      appending the chunk to the text; a -1 return throws. */
  method ReadData(script: ReadScript) returns (r: Result<string>)
    ensures r == ReadDataResult(script)
  {
    var os: string := "";
    var buf := new char[1024];
    var k := 0;
    while true
      invariant 0 <= k <= |script.chunks|
      invariant os == Sanitize(Flatten(script.chunks[..k]))
      decreases |script.chunks| - k
    {
      var rc := ReadInto(script, k, buf);
      if rc == 0 {
        assert script.chunks[..k] == script.chunks;
        return Ok(os);
      } else if rc == -1 {
        return Err(script.end.errno);
      }
      ghost var chunk := script.chunks[k];
      var i := 0;
      while i < rc
        invariant 0 <= i <= rc
        invariant forall j :: 0 <= j < i ==> buf[j] == Blank(chunk[j])
        invariant forall j :: i <= j < rc ==> buf[j] == chunk[j]
      {
        if buf[i] == '\0' {
          buf[i] := ' ';
        }
        i := i + 1;
      }
      SanitizeAt(chunk);
      assert buf[..rc] == Sanitize(chunk);
      assert script.chunks[..k + 1][..k] == script.chunks[..k];
      SanitizeAppend(Flatten(script.chunks[..k]), chunk);
      os := os + buf[..rc];
      k := k + 1;
    }
  }

  // ---------------------------------------------------------------------
  // commandLine and filePath
  // ---------------------------------------------------------------------

  /** `"(" << err << ")"`: the diagnostic that stands in for a command line. */
  function Diagnostic(strerror: int -> string, errno: int): string
  {
    "(" + strerror(errno) + ")"
  }

  /** `Proc(pid).commandLine()`: the contents of `/proc/<pid>/cmdline` as
      `readData` returns them; an `Errno` from `open` or from any `read` is
      caught and turned into its diagnostic. */
  function CommandLine(fs: Procfs, pid: Int32, strerror: int -> string): string
  {
    match fs.open(CmdlinePath(pid))
    case OpenFailed(e) => Diagnostic(strerror, e)
    case Opened(_, script) =>
      match ReadDataResult(script)
      case Ok(text) => text
      case Err(e) => Diagnostic(strerror, e)
  }

  /** The command line never throws. A failed open or a failed read gives the
      parenthesised message for its errno, whatever was read before; otherwise
      it is the file's bytes with NULs turned to spaces. */
  lemma CommandLineCases(fs: Procfs, pid: Int32, strerror: int -> string)
    ensures var r := CommandLine(fs, pid, strerror);
      match fs.open("/proc/" + Decimal(pid) + "/cmdline")
      case OpenFailed(e) => r == "(" + strerror(e) + ")"
      case Opened(_, script) =>
        match script.end
        case ReadFailed(e) => r == "(" + strerror(e) + ")"
        case AtEof =>
          var raw := Flatten(script.chunks);
          |r| == |raw| && '\0' !in r && forall i :: 0 <= i < |raw| ==> r[i] == Blank(raw[i])
  {
    ProcPathsExact(pid, 0);
    match fs.open(CmdlinePath(pid))
    case OpenFailed(e) =>
    case Opened(_, script) =>
      ReadDataMeaning(script);
  }

  /** `self.filePath(fd)`: `readlink` of `/proc/<self>/fd/<fd>` into a
      `PATH_MAX` buffer with room for `PATH_MAX - 1` bytes, terminated with a
      NUL and returned as a C string; -1 throws `Errno`. */
  function FilePath(fs: Procfs, pid: Int32, fd: Int32): Result<string>
  {
    match fs.readlink(FdPath(pid, fd))
    case LinkFailed(e) => Err(e)
    case Link(target) => Ok(CString(Truncate(target, PathMax - 1)))
  }

  /** `filePath` throws exactly when `readlink` fails. Otherwise it returns at
      most `PATH_MAX - 1` bytes, a prefix of the link target: exactly its
      first `PATH_MAX - 1` bytes when the target has no NUL (a link target
      never has one), so the whole target when that is short enough. */
  lemma FilePathMeaning(fs: Procfs, pid: Int32, fd: Int32)
    ensures var link := fs.readlink("/proc/" + Decimal(pid) + "/fd/" + Decimal(fd));
      var r := FilePath(fs, pid, fd);
      && (r.Err? <==> link.LinkFailed?)
      && (r.Err? ==> r.errno == link.errno)
      && (r.Ok? ==>
            && |r.value| <= PathMax - 1 && |r.value| <= |link.target|
            && r.value == link.target[..|r.value|]
            && ('\0' !in link.target ==> r.value == Truncate(link.target, PathMax - 1))
            && ('\0' !in link.target && |link.target| <= PathMax - 1 ==> r.value == link.target))
  {
    ProcPathsExact(pid, fd);
    match fs.readlink(FdPath(pid, fd))
    case LinkFailed(e) =>
    case Link(target) =>
      var t := Truncate(target, PathMax - 1);
      if '\0' !in target {
        assert forall i :: 0 <= i < |t| ==> t[i] == target[i];
        CStringOfNulFree(t);
      }
  }
}
