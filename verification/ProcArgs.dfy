/** The `KERN_PROCARGS2` blob: argument count, executable path, padding, arguments, environment. */
module ProcArgs {
  import opened Wrappers
  import opened Bytes
  import Env = Environment

  /** Little-endian, as on every macOS machine. */
  function Le32(n: nat): Blob
    requires n < 0x1_0000_0000
  {
    [n % 256, n / 256 % 256, n / 65536 % 256, n / 16777216]
  }

  function FromLe32(b: Blob): nat
    requires |b| == 4
  {
    var (b0: int, b1: int, b2: int, b3: int) := (b[0], b[1], b[2], b[3]);
    b0 + 256 * b1 + 65536 * b2 + 16777216 * b3
  }

  lemma Le32RoundTrip(n: nat)
    requires n < 0x1_0000_0000
    ensures FromLe32(Le32(n)) == n
  {
    assert n / 65536 == n / 256 / 256 && n / 16777216 == n / 256 / 256 / 256;
  }

  /** The first byte at or behind `from` that is not NUL, or `from` when there is none. */
  function SkipNuls(b: Blob, from: nat): (start: nat)
    requires from <= |b|
    ensures from <= start <= |b|
    ensures start == from || (start < |b| && b[start] != NUL && forall k | from <= k < start :: b[k] == NUL)
    ensures start == from ==> from == |b| || b[from] != NUL || forall k | from <= k < |b| :: b[k] == NUL
  {
    if exists k :: from <= k < |b| && b[k] != NUL then FirstNonNul(b, from) else from
  }

  function FirstNonNul(b: Blob, from: nat): (start: nat)
    requires from <= |b|
    requires exists k :: from <= k < |b| && b[k] != NUL
    ensures from <= start < |b| && b[start] != NUL && forall k | from <= k < start :: b[k] == NUL
    decreases |b| - from
  {
    if b[from] != NUL then from else FirstNonNul(b, from + 1)
  }

  datatype ProcArgs = ProcArgs(data: Blob) {

    /** Its callers must leave room for the counter. */
    predicate HasCounter() {
      |data| >= 4
    }

    function Argc(): nat
      requires HasCounter()
    {
      FromLe32(data[..4])
    }

    /** Absolute positions of the path; without any NUL the range is empty. */
    function ExeRange(): (r: (nat, nat))
      requires HasCounter()
      ensures r.0 == 4 <= r.1 <= |data|
    {
      var i := IndexOf(data[4..], NUL);
      (4, if i == |data| - 4 then 4 else i + 4)
    }

    function Exe(): Blob
      requires HasCounter()
    {
      data[ExeRange().0..ExeRange().1]
    }

    /** Absolute positions of the argument block, without its closing NUL.
        `argc - 1` underflows for a zero count, and a missing NUL gives an empty range. */
    function ArgumentsRange(): (r: Outcome<(nat, nat)>)
      ensures r.Ok? ==> HasCounter() && r.value.0 <= r.value.1 <= |data|
    {
      if !HasCounter() || Argc() == 0 then Panic else
        var start := SkipNuls(data, ExeRange().1);
        match NthFrom(data, NUL, Argc() - 1, start)
        case Some(end) => Ok((start, end))
        case None => Ok((start, start))
    }

    /** All that `arguments()` yields. */
    function Arguments(): Outcome<seq<Blob>> {
      var (start, end) :- ArgumentsRange();
      Ok(Drain(Argc(), data[start..end]))
    }

    function Environment(): Outcome<seq<Env.Entry>> {
      var (_, end) :- ArgumentsRange();
      if end + 1 > |data| then Panic else Ok(Env.Parse(data[end + 1..]))
    }

    function ToCommand(): Outcome<Blob> {
      var (start, end) :- ArgumentsRange();
      Ok(Spaced(data[start..end]))
    }
  }

  /** What an iterator with `left` items to go over `data` yields; the last piece has no NUL. */
  function Drain(left: nat, data: Blob): seq<Blob> {
    if left == 0 then [] else
      var i := IndexOf(data, NUL);
      if i == |data| then [data] + Drain(left - 1, data)
      else [data[..i]] + Drain(left - 1, data[i + 1..])
  }

  class ProcArgsArguments {
    var left: nat
    var data: Blob

    /** The items that are still to come. */
    ghost function Pending(): seq<Blob>
      reads this
    {
      Drain(left, data)
    }

    constructor (left: nat, data: Blob)
      ensures this.left == left && this.data == data
    {
      this.left, this.data := left, data;
    }

    method Next() returns (r: Option<Blob>)
      modifies this
      ensures old(Pending()) == [] ==> r == None && Pending() == [] && left == 0
      ensures old(Pending()) != [] ==> r == Some(old(Pending())[0]) && Pending() == old(Pending())[1..]
    {
      if left == 0 {
        return None;
      }
      left := left - 1;
      NotFoundAtEnd(data, NUL);
      var found := Memchr(NUL, data);
      match found {
        case Some(end) =>
          var arg := data[..end];
          data := data[end + 1..];
          return Some(arg);
        case None =>
          return Some(data);
      }
    }
  }

  /** Opens the iterator; `None` when a slice or the counter panics. */
  method OpenArguments(args: ProcArgs) returns (r: Outcome<ProcArgsArguments>)
    ensures !r.Ok? <==> !args.Arguments().Ok?
    ensures r.Ok? ==> fresh(r.value) && r.value.Pending() == args.Arguments().value
  {
    var range :- args.ArgumentsRange();
    var iter := new ProcArgsArguments(args.Argc(), args.data[range.0..range.1]);
    return Ok(iter);
  }

  method ToCommand(args: ProcArgs) returns (r: Outcome<Blob>)
    ensures r == args.ToCommand()
  {
    var range :- args.ArgumentsRange();
    var block := args.data[range.0..range.1];
    var bytes := new Byte[|block|](k requires 0 <= k < |block| => block[k]);
    assert bytes[..] == block;
    NulsToSpaces(bytes);
    return Ok(bytes[..]);
  }

  // ----- the blob the kernel writes -----

  function Encode(exe: Blob, padding: nat, argv: seq<Blob>, env: seq<Env.Entry>, tail: Blob): Blob
    requires |argv| < 0x1_0000_0000
  {
    Le32(|argv|) + exe + Zeros(padding) + (Terminated(argv, NUL) + (Env.Encode(env) + [NUL] + tail))
  }

  /** What the kernel is given: at least one argument, no NUL inside a string, a closing NUL behind the path. */
  predicate Encodable(exe: Blob, padding: nat, argv: seq<Blob>, env: seq<Env.Entry>) {
    && NUL !in exe
    && 1 <= padding
    && 1 <= |argv| < 0x1_0000_0000
    && AllFree(argv, NUL)
    && Env.WellFormed(env)
  }

  /** The fixed part of the blob is read back, whatever bytes stand behind the padding. */
  lemma {:induction false} HeaderRoundTrip(argc: nat, exe: Blob, padding: nat, rest: Blob)
    requires argc < 0x1_0000_0000 && NUL !in exe && 1 <= padding
    ensures var p := ProcArgs(Le32(argc) + exe + Zeros(padding) + rest);
            && p.HasCounter()
            && p.Argc() == argc
            && p.ExeRange() == (4, 4 + |exe|)
            && p.Exe() == exe
  {
    var data := Le32(argc) + exe + Zeros(padding) + rest;
    Le32RoundTrip(argc);
    assert data[..4] == Le32(argc);
    assert data[4..] == exe + [NUL] + (Zeros(padding - 1) + rest);
    IndexOfFirst(exe, NUL, Zeros(padding - 1) + rest);
    assert data[4..4 + |exe|] == exe;
  }

  lemma {:induction false} SkipPadding(head: Blob, padding: nat, rest: Blob)
    requires rest != [] && rest[0] != NUL
    ensures SkipNuls(head + Zeros(padding) + rest, |head|) == |head| + padding
  {
    var b := head + Zeros(padding) + rest;
    assert b[|head| + padding] == rest[0];
    assert forall k | |head| <= k < |head| + padding :: b[k] == NUL;
  }

  lemma {:induction false} DrainCons(argv: seq<Blob>, more: Blob)
    requires argv != [] && NUL !in argv[0]
    requires Drain(|argv| - 1, more) == argv[1..]
    ensures Drain(|argv|, argv[0] + [NUL] + more) == argv
  {
    var data := argv[0] + [NUL] + more;
    IndexOfFirst(argv[0], NUL, more);
    assert data[..|argv[0]|] == argv[0] && data[|argv[0]| + 1..] == more;
  }

  lemma {:induction false} DrainLast(argv: seq<Blob>)
    requires |argv| == 1 && NUL !in argv[0]
    ensures Drain(1, argv[0]) == argv
  {
    NotFoundAtEnd(argv[0], NUL);
    assert Drain(0, argv[0]) == [];
  }

  /** A block of arguments with NULs between them yields exactly the arguments. */
  lemma {:induction false} DrainSeparated(argv: seq<Blob>)
    requires AllFree(argv, NUL)
    ensures Drain(|argv|, Separated(argv, NUL)) == argv
  {
    if |argv| == 1 {
      DrainLast(argv);
    } else if argv != [] {
      DrainSeparated(argv[1..]);
      DrainCons(argv, Separated(argv[1..], NUL));
    }
  }

  lemma SliceOfSuffix(data: Blob, start: nat, block: Blob, rest: Blob)
    requires start <= |data| && data[start..] == block + [NUL] + rest
    ensures start + |block| + 1 <= |data|
    ensures data[start..start + |block|] == block && data[start + |block| + 1..] == rest
  {
    assert |data[start..]| == |data| - start;
    assert data[start..start + |block|] == data[start..][..|block|];
    assert data[start + |block| + 1..] == data[start..][|block| + 1..];
  }

  lemma {:induction false} LocateArguments(p: ProcArgs, start: nat, argv: seq<Blob>, block: Blob, rest: Blob)
    requires p.HasCounter() && p.Argc() == |argv| && argv != [] && AllFree(argv, NUL)
    requires SkipNuls(p.data, p.ExeRange().1) == start && p.data[start..] == block + [NUL] + rest
    requires block + [NUL] == Terminated(argv, NUL)
    ensures p.ArgumentsRange() == Ok((start, start + |block|))
    ensures p.data[start..start + |block|] == block
    ensures start + |block| + 1 <= |p.data| && p.data[start + |block| + 1..] == rest
  {
    NthOfTerminated(p.data, start, argv, NUL);
    SliceOfSuffix(p.data, start, block, rest);
  }

  /** The padding ends at the first byte of a first argument that is not empty. */
  lemma {:induction false} LocateStart(p: ProcArgs, exe: Blob, padding: nat, argv: seq<Blob>, rest: Blob)
    requires NUL !in exe && 1 <= padding && 1 <= |argv| < 0x1_0000_0000 && AllFree(argv, NUL)
    requires argv[0] != []
    requires p == ProcArgs(Le32(|argv|) + exe + Zeros(padding) + (Terminated(argv, NUL) + rest))
    ensures var start := 4 + |exe| + padding;
            && p.HasCounter() && p.Argc() == |argv| && p.Exe() == exe
            && SkipNuls(p.data, p.ExeRange().1) == start <= |p.data|
            && p.data[start..] == Terminated(argv, NUL) + rest
  {
    var body := Terminated(argv, NUL) + rest;
    HeaderRoundTrip(|argv|, exe, padding, body);
    assert body[0] != NUL by {
      assert argv[0] in argv && argv[0][0] in argv[0];
      assert body[0] == argv[0][0];
    }
    SkipPadding(Le32(|argv|) + exe, padding, body);
  }

  lemma ReadBlock(p: ProcArgs, start: nat, end: nat)
    requires p.HasCounter() && p.ArgumentsRange() == Ok((start, end))
    ensures start <= end <= |p.data|
    ensures p.Arguments() == Ok(Drain(p.Argc(), p.data[start..end])) && p.ToCommand() == Ok(Spaced(p.data[start..end]))
  {
  }

  lemma ReadEnvironment(p: ProcArgs, start: nat, end: nat)
    requires p.ArgumentsRange() == Ok((start, end)) && end < |p.data|
    ensures p.Environment() == Ok(Env.Parse(p.data[end + 1..]))
  {
  }

  lemma {:induction false} ReadRange(p: ProcArgs, start: nat, end: nat, block: Blob, rest: Blob)
    requires p.HasCounter() && p.ArgumentsRange() == Ok((start, end))
    requires start <= end < |p.data| && p.data[start..end] == block && p.data[end + 1..] == rest
    ensures p.Arguments() == Ok(Drain(p.Argc(), block)) && p.Environment() == Ok(Env.Parse(rest))
    ensures p.ToCommand() == Ok(Spaced(block))
  {
    ReadBlock(p, start, end);
    ReadEnvironment(p, start, end);
  }

  lemma {:induction false} ReadArguments(p: ProcArgs, start: nat, end: nat, argv: seq<Blob>, rest: Blob)
    requires p.HasCounter() && p.ArgumentsRange() == Ok((start, end)) && p.Argc() == |argv| && AllFree(argv, NUL)
    requires start <= end < |p.data| && p.data[start..end] == Separated(argv, NUL) && p.data[end + 1..] == rest
    ensures p.Arguments() == Ok(argv) && p.Environment() == Ok(Env.Parse(rest))
    ensures p.ToCommand() == Ok(Separated(argv, SPACE))
  {
    DrainSeparated(argv);
    SpacedSeparated(argv);
    ReadRange(p, start, end, Separated(argv, NUL), rest);
  }

  lemma {:induction false} DecodeFrom(p: ProcArgs, start: nat, argv: seq<Blob>, env: seq<Env.Entry>, rest: Blob)
    requires p.HasCounter() && p.Argc() == |argv| && argv != [] && AllFree(argv, NUL)
    requires SkipNuls(p.data, p.ExeRange().1) == start && p.data[start..] == Terminated(argv, NUL) + rest
    requires Env.Parse(rest) == env
    ensures p.Arguments() == Ok(argv) && p.Environment() == Ok(env)
    ensures p.ToCommand() == Ok(Separated(argv, SPACE))
  {
    SeparatedCloses(argv, NUL);
    var block := Separated(argv, NUL);
    LocateArguments(p, start, argv, block, rest);
    ReadArguments(p, start, start + |block|, argv, rest);
  }

  /** Decoding what the kernel wrote gives back path, argument list and environment,
      and the command line with single spaces, whatever stands behind the closing NUL. */
  lemma {:induction false} RoundTrip(exe: Blob, padding: nat, argv: seq<Blob>, env: seq<Env.Entry>, tail: Blob)
    requires Encodable(exe, padding, argv, env)
    requires argv[0] != []
    ensures var p := ProcArgs(Encode(exe, padding, argv, env, tail));
            && p.HasCounter()
            && p.Argc() == |argv|
            && p.Exe() == exe
            && p.Arguments() == Ok(argv)
            && p.Environment() == Ok(env)
            && p.ToCommand() == Ok(Separated(argv, SPACE))
  {
    var rest := Env.Encode(env) + [NUL] + tail;
    var p := ProcArgs(Encode(exe, padding, argv, env, tail));
    LocateStart(p, exe, padding, argv, rest);
    Env.RoundTrip(env, tail);
    DecodeFrom(p, 4 + |exe| + padding, argv, env, rest);
  }

  lemma {:induction false} DrainOfEmpty(left: nat)
    ensures |Drain(left, [])| == left
    ensures forall a <- Drain(left, []) :: a == []
  {
    if left > 0 {
      DrainOfEmpty(left - 1);
    }
  }

  /** The decoder takes the NUL of an empty first argument for padding. So once any argument has
      a byte in it, the argument list is read back if and only if the first one is not empty. */
  lemma {:induction false} ArgumentsExact(exe: Blob, padding: nat, argv: seq<Blob>, env: seq<Env.Entry>, tail: Blob)
    requires Encodable(exe, padding, argv, env)
    requires exists a <- argv :: a != []
    ensures ProcArgs(Encode(exe, padding, argv, env, tail)).Arguments() == Ok(argv) <==> argv[0] != []
  {
    if argv[0] != [] {
      RoundTrip(exe, padding, argv, env, tail);
    } else {
      var rest := Env.Encode(env) + [NUL] + tail;
      var block := Terminated(argv, NUL);
      var p := ProcArgs(Encode(exe, padding, argv, env, tail));
      HeaderRoundTrip(|argv|, exe, padding, block + rest);
      var at := NonNulInBlock(argv);
      assert p.data[4 + |exe| + padding + at] == block[at];
      assert p.data[4 + |exe|] == NUL;
      var (start, end) := p.ArgumentsRange().value;
      assert p.data[start] != NUL;
      var items := p.data[start..end];
      if end == start {
        assert items == [];
        DrainOfEmpty(|argv|);
        var a :| a in argv && a != [];
        assert argv != Drain(|argv|, items);
      } else {
        assert items[0] != NUL;
        assert Drain(|argv|, items)[0] != [];
      }
    }
  }

  lemma {:induction false} EmptyStrings(argv: seq<Blob>)
    requires forall a <- argv :: a == []
    ensures Terminated(argv, NUL) == Zeros(|argv|)
  {
    if argv != [] {
      assert argv[0] in argv && forall a <- argv[1..] :: a in argv;
      EmptyStrings(argv[1..]);
    }
  }

  lemma {:induction false} OnlyNuls(p: ProcArgs, start: nat, argv: seq<Blob>)
    requires p.HasCounter() && p.Argc() == |argv| && argv != [] && forall a <- argv :: a == []
    requires SkipNuls(p.data, p.ExeRange().1) == start
    requires start + |argv| < |p.data| && forall k | start <= k < |p.data| :: p.data[k] == NUL
    ensures p.Arguments() == Ok(argv)
  {
    EmptyStrings(argv);
    SeparatedCloses(argv, NUL);
    var block, rest := Separated(argv, NUL), p.data[start + |argv|..];
    assert |block| == |argv| - 1;
    assert p.data[start..] == block + [NUL] + rest;
    LocateArguments(p, start, argv, block, rest);
    ReadArguments(p, start, start + |block|, argv, rest);
  }

  /** An argument list of nothing but empty strings cannot be told from padding. It is read back exactly
      if only NULs follow the path, or if so few NULs follow the first other byte that the iterator is
      left with an empty block. */
  lemma {:induction false} EmptyArgumentsExact(exe: Blob, padding: nat, argv: seq<Blob>, env: seq<Env.Entry>, tail: Blob)
    requires Encodable(exe, padding, argv, env)
    requires forall a <- argv :: a == []
    ensures var p := ProcArgs(Encode(exe, padding, argv, env, tail));
            var start := SkipNuls(p.data, 4 + |exe|);
            && start < |p.data|
            && (p.Arguments() == Ok(argv)
                <==> p.data[start] == NUL || Count(p.data[start..|p.data|], NUL) < |argv|)
  {
    var rest := Env.Encode(env) + [NUL] + tail;
    var p := ProcArgs(Encode(exe, padding, argv, env, tail));
    HeaderRoundTrip(|argv|, exe, padding, Terminated(argv, NUL) + rest);
    EmptyStrings(argv);
    var start := SkipNuls(p.data, 4 + |exe|);
    assert p.data[4 + |exe|] == NUL && 4 + |exe| + |argv| < |p.data|;
    if p.data[start] == NUL {
      OnlyNuls(p, start, argv);
    } else {
      FirstByteMatters(p, start, argv);
    }
  }

  function EmptyArguments(n: nat): seq<Blob> {
    seq(n, i => [])
  }

  lemma {:induction false} TooFewNuls(p: ProcArgs, start: nat)
    requires p.HasCounter() && p.Argc() > 0 && SkipNuls(p.data, p.ExeRange().1) == start < |p.data|
    requires Count(p.data[start..|p.data|], NUL) < p.Argc()
    ensures p.Arguments() == Ok(EmptyArguments(p.Argc())) && p.ToCommand() == Ok([])
    ensures p.Environment() == Ok(Env.Parse(p.data[start + 1..]))
  {
    var argc := p.Argc();
    NthFromMeaning(p.data, NUL, argc - 1, start);
    ReadRange(p, start, start, [], p.data[start + 1..]);
    DrainOfEmpty(argc);
    AreEmptyArguments(Drain(argc, []));
    assert Spaced([]) == [];
  }

  lemma AreEmptyArguments(argv: seq<Blob>)
    requires forall a <- argv :: a == []
    ensures argv == EmptyArguments(|argv|)
  {
    assert forall k | 0 <= k < |argv| :: argv[k] in argv;
  }

  lemma FirstItem(left: nat, items: Blob)
    requires left > 0 && items != [] && items[0] != NUL
    ensures Drain(left, items) != [] && Drain(left, items)[0] != []
  {
  }

  lemma {:induction false} EnoughNuls(p: ProcArgs, start: nat)
    requires p.HasCounter() && p.Argc() > 0
    requires SkipNuls(p.data, p.ExeRange().1) == start < |p.data| && p.data[start] != NUL
    requires Count(p.data[start..|p.data|], NUL) >= p.Argc()
    ensures p.Arguments().Ok? && p.Arguments().value != [] && p.Arguments().value[0] != []
  {
    NthFromMeaning(p.data, NUL, p.Argc() - 1, start);
    var end := NthFrom(p.data, NUL, p.Argc() - 1, start).value;
    ReadBlock(p, start, end);
    FirstItem(p.Argc(), p.data[start..end]);
  }

  lemma {:induction false} FirstByteMatters(p: ProcArgs, start: nat, argv: seq<Blob>)
    requires p.HasCounter() && p.Argc() == |argv| && argv != [] && forall a <- argv :: a == []
    requires SkipNuls(p.data, p.ExeRange().1) == start < |p.data| && p.data[start] != NUL
    ensures p.Arguments() == Ok(argv) <==> Count(p.data[start..|p.data|], NUL) < |argv|
  {
    if Count(p.data[start..|p.data|], NUL) < |argv| {
      TooFewNuls(p, start);
      AreEmptyArguments(argv);
    } else {
      EnoughNuls(p, start);
      assert argv[0] in argv;
    }
  }

  lemma {:induction false} NonNulInBlock(argv: seq<Blob>) returns (at: nat)
    requires AllFree(argv, NUL) && exists a <- argv :: a != []
    ensures at < |Terminated(argv, NUL)| && Terminated(argv, NUL)[at] != NUL
  {
    if argv[0] != [] {
      at := 0;
      assert argv[0][0] in argv[0];
    } else {
      var a :| a in argv && a != [];
      assert a in argv[1..];
      at := NonNulInBlock(argv[1..]);
      at := at + 1;
    }
  }

  // ----- blobs that the kernel does not write -----

  lemma CounterIsZero(b: Blob)
    requires |b| >= 4
    ensures FromLe32(b[..4]) == 0 <==> b[..4] == [0, 0, 0, 0]
  {
    assert b[..4] == [b[0], b[1], b[2], b[3]];
  }

  /** The decoder panics iff there is no counter or it is zero; the environment also if nothing follows it. */
  lemma {:induction false} PanicExact(p: ProcArgs)
    ensures var unusable := |p.data| < 4 || p.data[..4] == [0, 0, 0, 0];
            && (p.Arguments() == Panic <==> unusable) && (!unusable ==> p.Arguments().Ok?)
            && (p.ToCommand() == Panic <==> unusable) && (!unusable ==> p.ToCommand().Ok?)
            && (p.Environment() == Panic <==> unusable || |p.data| == 4)
            && (!unusable && |p.data| > 4 ==> p.Environment().Ok?)
  {
    if |p.data| >= 4 {
      CounterIsZero(p.data);
    }
  }

  /** A block with fewer NULs than arguments gives as many empty arguments as the counter says, an empty
      command line, and an environment that begins with the second byte of the block. */
  lemma {:induction false} TruncatedBlock(argc: nat, exe: Blob, padding: nat, block: Blob)
    requires 0 < argc < 0x1_0000_0000 && NUL !in exe && 1 <= padding
    requires block != [] && block[0] != 0 && Count(block, 0) < argc
    ensures var p := ProcArgs(Le32(argc) + exe + Zeros(padding) + block);
            && p.HasCounter() && p.Exe() == exe
            && p.Arguments() == Ok(EmptyArguments(argc)) && p.ToCommand() == Ok([])
            && p.Environment() == Ok(Env.Parse(block[1..]))
  {
    var head := Le32(argc) + exe;
    var p := ProcArgs(head + Zeros(padding) + block);
    var start := |head| + padding;
    HeaderRoundTrip(argc, exe, padding, block);
    SkipPadding(head, padding, block);
    assert p.data[start..|p.data|] == block && p.data[start + 1..] == block[1..];
    TooFewNuls(p, start);
  }

  /** Without any NUL behind the counter the path is empty, and so are all arguments. */
  lemma {:induction false} NoPath(argc: nat, bytes: Blob)
    requires 0 < argc < 0x1_0000_0000 && bytes != [] && 0 !in bytes
    ensures var p := ProcArgs(Le32(argc) + bytes);
            && p.HasCounter() && p.Exe() == []
            && p.Arguments() == Ok(EmptyArguments(argc)) && p.ToCommand() == Ok([])
            && p.Environment() == Ok([])
  {
    var p := ProcArgs(Le32(argc) + bytes);
    Le32RoundTrip(argc);
    assert p.data[..4] == Le32(argc) && p.data[4..] == bytes;
    NotFoundAtEnd(bytes, NUL);
    assert p.data[4] == bytes[0] && bytes[0] in bytes;
    CountFree(bytes, NUL);
    assert p.data[4..|p.data|] == bytes;
    assert p.data[5..] == bytes[1..];
    NotFoundAtEnd(bytes[1..], NUL);
    TooFewNuls(p, 4);
  }
}
