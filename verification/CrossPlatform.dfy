/** One argument list, two kernels: what Linux and macOS make of it. */
module CrossPlatform {
  import opened Wrappers
  import opened Bytes
  import opened Command
  import opened ProcArgs
  import Env = Environment

  /** The Linux iterator on `cmdline` and the macOS iterator on the `KERN_PROCARGS2` blob yield the
      argument list itself, and all command strings are its members with single spaces between them. */
  lemma {:induction false} SameArguments(exe: Blob, padding: nat, argv: seq<Blob>, env: seq<Env.Entry>, tail: Blob)
    requires Encodable(exe, padding, argv, env)
    requires argv[0] != []
    ensures var linux := Command.From(Terminated(argv, NUL));
            var macos := ProcArgs(Encode(exe, padding, argv, env, tail));
            && linux.Arguments() == argv
            && macos.Arguments() == Ok(argv)
            && linux.ToOsString() == Separated(argv, SPACE)
            && macos.ToCommand() == Ok(Separated(argv, SPACE))
  {
    LinuxArguments(argv);
    RoundTrip(exe, padding, argv, env, tail);
  }

  lemma {:induction false} LinuxArguments(argv: seq<Blob>)
    requires argv != [] && AllFree(argv, NUL)
    ensures var linux := Command.From(Terminated(argv, NUL));
            linux.Arguments() == argv && linux.ToOsString() == Separated(argv, SPACE)
  {
    var line := Terminated(argv, NUL);
    TerminatedEnds(argv, NUL);
    RecordsOfTerminated(argv, NUL, []);
    assert line + [] == line;
    assert argv + Records([], NUL) == argv;
    CommandLineExact(line);
  }
}
