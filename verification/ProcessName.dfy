/** `Process::name` on Linux: the kernel's 15-byte name, completed from the command line. */
module ProcessName {
  import opened Wrappers
  import opened Bytes
  import opened Command

  const DOT: Byte := 46
  const TASK_NAME_LENGTH: nat := 15

  /** The last component of a path that is neither empty nor a `.` behind a slash. */
  function LastComponent(pieces: seq<Blob>): Option<Blob> {
    if pieces == [] then None else
      var p := pieces[|pieces| - 1];
      if p == [] || (p == [DOT] && |pieces| > 1) then LastComponent(pieces[..|pieces| - 1]) else Some(p)
  }

  /** `Path::file_name`: the last component, unless it is `.` or `..`. */
  function FileName(path: Blob): Option<Blob> {
    match LastComponent(Records(path + [SLASH], SLASH))
    case None => None
    case Some(p) => if p == [DOT] || p == [DOT, DOT] then None else Some(p)
  }

  /** `cmdline` is `None` when reading the command fails. */
  function Name(statName: Blob, cmdline: Option<Blob>): Blob {
    if |statName| < TASK_NAME_LENGTH || cmdline.None? then statName else
      var arguments := Command.From(cmdline.value).Arguments();
      if arguments == [] then statName else
        match FileName(arguments[0])
        case Some(exe) => if statName <= exe then exe else statName
        case None => statName
  }

  /** The kernel name is never contradicted, and a name it did not have to cut is kept. */
  lemma NameExtendsStat(statName: Blob, cmdline: Option<Blob>)
    ensures statName <= Name(statName, cmdline)
    ensures |statName| < TASK_NAME_LENGTH ==> Name(statName, cmdline) == statName
  {
  }

  predicate IsBaseName(base: Blob) {
    base != [] && SLASH !in base && base != [DOT] && base != [DOT, DOT]
  }

  lemma {:induction false} FileNameOfBase(base: Blob)
    requires IsBaseName(base)
    ensures FileName(base) == Some(base)
  {
    RecordsStep(base, SLASH, []);
    assert base + [SLASH] + [] == base + [SLASH];
    assert Records<Byte>([], SLASH) == [];
  }

  lemma {:induction false} PiecesUpToSlash(path: Blob, tail: Blob) returns (pieces: seq<Blob>)
    ensures pieces != [] && Records(path + [SLASH] + tail, SLASH) == pieces + Records(tail, SLASH)
    ensures Records(path + [SLASH], SLASH) == pieces
  {
    var rest := TerminatedOfRecords(path, SLASH);
    pieces := Records(path, SLASH) + [rest];
    TerminatedAppend(Records(path, SLASH), [rest], SLASH);
    assert Terminated([rest], SLASH) == rest + [SLASH];
    assert Terminated(pieces, SLASH) == path + [SLASH];
    RecordsOfTerminated(pieces, SLASH, tail);
    RecordsOfTerminated(pieces, SLASH, []);
    assert path + [SLASH] + [] == path + [SLASH];
    assert pieces + Records([], SLASH) == pieces;
  }

  lemma {:induction false} PiecesAfter(path: Blob, piece: Blob)
    requires SLASH !in piece
    ensures Records(path + [SLASH], SLASH) != []
    ensures Records(path + [SLASH] + piece + [SLASH], SLASH) == Records(path + [SLASH], SLASH) + [piece]
  {
    var pieces := PiecesUpToSlash(path, piece + [SLASH]);
    assert path + [SLASH] + (piece + [SLASH]) == path + [SLASH] + piece + [SLASH];
    RecordsStep(piece, SLASH, []);
    assert piece + [SLASH] + [] == piece + [SLASH];
    assert [piece] + Records([], SLASH) == [piece];
  }

  lemma {:induction false} FileNameInDirectory(dir: Blob, base: Blob)
    requires IsBaseName(base)
    ensures FileName(dir + [SLASH] + base) == Some(base)
  {
    PiecesAfter(dir, base);
  }

  lemma {:induction false} FirstArgument(argv: seq<Blob>)
    requires AllFree(argv, NUL)
    ensures Command.From(Terminated(argv, NUL)).Arguments() == argv
  {
    if argv != [] {
      TerminatedEnds(argv, NUL);
    }
    RecordsOfTerminated(argv, NUL, []);
    assert Terminated(argv, NUL) + [] == Terminated(argv, NUL);
    assert argv + Records([], NUL) == argv;
  }

  /** Which of the two names it is: the last path component of the first argument, if the kernel's name has
      all of its 15 bytes and that component begins with it, and the kernel's name in every other case. */
  lemma {:induction false} NameExact(statName: Blob, argv: seq<Blob>, dir: Blob, base: Blob)
    requires argv != [] && AllFree(argv, 0)
    requires base != [] && 47 !in base && base != [46] && base != [46, 46]
    requires argv[0] == base || argv[0] == dir + [47] + base
    ensures Name(statName, Some(Terminated(argv, 0))) == if |statName| >= 15 && statName <= base then base else statName
  {
    FirstArgument(argv);
    FileNameOfBase(base);
    FileNameInDirectory(dir, base);
  }

  /** What the kernel keeps of the name of an executable. */
  function Truncated(base: Blob): Blob {
    if |base| <= TASK_NAME_LENGTH then base else base[..TASK_NAME_LENGTH]
  }

  /** A process started under its own file name gets the whole name back, however long it is. */
  lemma {:induction false} NameRecovery(argv: seq<Blob>, dir: Blob, base: Blob)
    requires argv != [] && AllFree(argv, NUL)
    requires IsBaseName(base)
    requires argv[0] == base || argv[0] == dir + [SLASH] + base
    ensures Name(Truncated(base), Some(Terminated(argv, NUL))) == base
  {
    NameExact(Truncated(base), argv, dir, base);
  }

  lemma LastComponentSkips(pieces: seq<Blob>)
    requires pieces != []
    ensures LastComponent(pieces + [[]]) == LastComponent(pieces + [[DOT]]) == LastComponent(pieces)
  {
    assert (pieces + [[]])[..|pieces|] == pieces && (pieces + [[DOT]])[..|pieces|] == pieces;
  }

  /** A slash at the end of a path does not change its file name, nor does a slash and a dot. */
  lemma {:induction false} TrailingSlash(path: Blob)
    ensures FileName(path + [47]) == FileName(path) && FileName(path + [47, 46]) == FileName(path)
  {
    PiecesAfter(path, []);
    PiecesAfter(path, [DOT]);
    LastComponentSkips(Records(path + [SLASH], SLASH));
    assert path + [SLASH] + [] + [SLASH] == path + [47] + [SLASH];
    assert path + [SLASH] + [DOT] + [SLASH] == path + [47, 46] + [SLASH];
  }

  function Slashes(n: nat): Blob {
    if n == 0 then [] else Slashes(n - 1) + [47]
  }

  lemma {:induction false} FileNameOfSlashes(n: nat)
    ensures FileName(Slashes(n)) == None
  {
    if n == 0 {
      RecordsStep([], SLASH, []);
      assert [] + [SLASH] + [] == [] + [SLASH];
      assert Records<Byte>([], SLASH) == [];
      assert LastComponent([[]]) == None;
    } else {
      FileNameOfSlashes(n - 1);
      TrailingSlash(Slashes(n - 1));
    }
  }

  lemma {:induction false} FileNameOfDots(dir: Blob)
    ensures FileName([DOT]) == None && FileName([DOT, DOT]) == None && FileName(dir + [SLASH] + [DOT, DOT]) == None
  {
    RecordsStep([DOT], SLASH, []);
    assert [DOT] + [SLASH] + [] == [DOT] + [SLASH];
    RecordsStep([DOT, DOT], SLASH, []);
    assert [DOT, DOT] + [SLASH] + [] == [DOT, DOT] + [SLASH];
    assert Records<Byte>([], SLASH) == [];
    PiecesAfter(dir, [DOT, DOT]);
  }

  /** The kernel's name stays if the command line cannot be read, has no argument, or begins with a path
      that has no file name: empty, slashes only, a single `.`, or a last component `..`. */
  lemma {:induction false} NameStays(statName: Blob, argv: seq<Blob>, dir: Blob, slashes: nat)
    requires AllFree(argv, 0)
    requires argv == [] || argv[0] in [Slashes(slashes), [46], [46, 46], dir + [47] + [46, 46]]
    ensures Name(statName, None) == statName && Name(statName, Some(Terminated(argv, 0))) == statName
  {
    FirstArgument(argv);
    FileNameOfSlashes(slashes);
    FileNameOfDots(dir);
  }
}
