/** The Linux `/proc/<pid>/cmdline` line and the iterator over its arguments. */
module Command {
  import opened Wrappers
  import opened Bytes

  datatype Delimiter = Null | Space {
    function AsByte(): Byte {
      match this
      case Null => NUL
      case Space => SPACE
    }

    /** Anything that is not a space falls back to NUL. */
    static function From(raw: Byte): Delimiter {
      if raw == SPACE then Space else Null
    }
  }

  datatype Command = Command(line: Blob, delimiter: Delimiter) {

    static function From(line: Blob): Command {
      Command(line, if line == [] then Null else Delimiter.From(line[|line| - 1]))
    }

    /** The arguments the line is split into. */
    function Arguments(): seq<Blob> {
      Records(line, delimiter.AsByte())
    }

    function ToOsString(): Blob {
      match delimiter
      case Space => line
      case Null => if line == [] then [] else Spaced(line)[..|line| - 1]
    }
  }

  /** `into_os_string`, with `with_spaces` as a loop over the bytes and a final `pop`. */
  method IntoOsString(command: Command) returns (r: Blob)
    ensures r == command.ToOsString()
  {
    if command.delimiter.Space? {
      return command.line;
    }
    var line := command.line;
    var bytes := new Byte[|line|](k requires 0 <= k < |line| => line[k]);
    assert bytes[..] == line;
    NulsToSpaces(bytes);
    if bytes.Length == 0 {
      return [];
    }
    return bytes[..bytes.Length - 1];
  }

  class CommandIter {
    const line: Blob
    const delimiter: Delimiter
    var position: nat

    ghost predicate Valid()
      reads this
    {
      position <= |line|
    }

    /** The arguments that are still to come. */
    ghost function Pending(): seq<Blob>
      requires Valid()
      reads this
    {
      Records(line[position..], delimiter.AsByte())
    }

    constructor (command: Command)
      ensures Valid() && Pending() == command.Arguments()
      ensures line == command.line && delimiter == command.delimiter
    {
      line, delimiter, position := command.line, command.delimiter, 0;
      new;
      assert line[position..] == line;
    }

    method Next() returns (r: Option<Blob>)
      requires Valid()
      modifies this
      ensures Valid()
      ensures old(Pending()) == [] ==> r == None && position == old(position)
      ensures old(Pending()) != [] ==> r == Some(old(Pending())[0]) && Pending() == old(Pending())[1..]
      ensures r.Some? ==> position > old(position)
    {
      if position >= |line| {
        return None;
      }
      var bytes := line[position..];
      NotFoundAtEnd(bytes, delimiter.AsByte());
      var found := Memchr(delimiter.AsByte(), bytes);
      match found {
        case Some(offset) =>
          var slice := bytes[..offset];
          assert bytes[offset + 1..] == line[position + offset + 1..];
          position := position + offset + 1;
          return Some(slice);
        case None =>
          return None;
      }
    }
  }

  /** Draining the iterator comes to an end and yields the arguments in order. */
  method Collect(iter: CommandIter) returns (r: seq<Blob>)
    requires iter.Valid()
    modifies iter
    ensures r == old(iter.Pending())
    ensures iter.Valid() && iter.Pending() == []
  {
    r := [];
    ghost var all := iter.Pending();
    var item := iter.Next();
    while item.Some?
      invariant iter.Valid()
      invariant item.Some? ==> r + [item.value] + iter.Pending() == all
      invariant item.None? ==> r == all && iter.Pending() == []
      decreases |iter.line| - iter.position, item.Some?
    {
      r := r + [item.value];
      assert r + iter.Pending() == all;
      item := iter.Next();
    }
  }

  /** The byte that closes every argument of a non-empty line is its last one when that is NUL or a space. */
  predicate Closed(line: Blob) {
    line == [] || line[|line| - 1] == NUL || line[|line| - 1] == SPACE
  }

  /** Nothing is lost but the bytes behind the last delimiter; so nothing is lost iff the line is closed. */
  lemma {:induction false} LosslessSplit(line: Blob) returns (dropped: Blob)
    ensures var c := Command.From(line);
            var d := c.delimiter.AsByte();
            && AllFree(c.Arguments(), d)
            && Terminated(c.Arguments(), d) + dropped == line
            && d !in dropped
            && (dropped == [] <==> Closed(line))
  {
    var c := Command.From(line);
    var d := c.delimiter.AsByte();
    dropped := TerminatedOfRecords(line, d);
    if dropped == [] && line != [] {
      assert Terminated(c.Arguments(), d) == line;
      TerminatedEnds(c.Arguments(), d);
    }
    if dropped != [] {
      assert line[|line| - 1] == dropped[|dropped| - 1];
    }
  }

  /** `to_os_string` is the arguments with single spaces between them exactly for the empty line,
      a NUL-terminated line, and a line of one byte that is not a space: a space-terminated line
      keeps its last space, and a line without a closing delimiter loses a byte of its own. */
  lemma {:induction false} CommandLineExact(line: Blob)
    ensures var c := Command.From(line);
            c.ToOsString() == Separated(c.Arguments(), SPACE)
            <==> line == [] || line[|line| - 1] == NUL || (|line| == 1 && line[0] != SPACE)
  {
    var c := Command.From(line);
    var items := c.Arguments();
    var d := c.delimiter.AsByte();
    var dropped := LosslessSplit(line);
    if items != [] {
      SeparatedCloses(items, d);
      var block := Separated(items, d);
      if d == NUL {
        SpacedSeparated(items);
        assert line == block + ([NUL] + dropped);
        SpacedAppend(block, [NUL] + dropped);
      } else {
        assert |Separated(items, SPACE)| < |line|;
      }
    }
  }

  lemma {:induction false} SpacedTerminated(rs: seq<Blob>)
    requires AllFree(rs, NUL)
    ensures Spaced(Terminated(rs, NUL)) == Terminated(rs, SPACE)
  {
    if rs != [] {
      SeparatedCloses(rs, NUL);
      SeparatedCloses(rs, SPACE);
      SpacedSeparated(rs);
      SpacedAppend(Separated(rs, NUL), [NUL]);
      assert Spaced([NUL]) == [SPACE];
    }
  }

  /** What the string is for every line, in terms of the arguments: joined by single spaces for a
      NUL-terminated line, each followed by a space for a space-terminated one, and otherwise each followed
      by a space and then the bytes behind the last NUL, without the last one of these. */
  lemma {:induction false} CommandLineForm(line: Blob) returns (dropped: Blob)
    ensures var c := Command.From(line);
            var items := c.Arguments();
            if line == [] then items == [] && c.ToOsString() == []
            else if line[|line| - 1] == 0 then Terminated(items, 0) == line && c.ToOsString() == Separated(items, 32)
            else if line[|line| - 1] == 32 then Terminated(items, 32) == line && c.ToOsString() == Terminated(items, 32)
            else
              && Terminated(items, 0) + dropped == line && 0 !in dropped && dropped != []
              && c.ToOsString() == Terminated(items, 32) + dropped[..|dropped| - 1]
  {
    var c := Command.From(line);
    var items := c.Arguments();
    dropped := LosslessSplit(line);
    if line != [] && line[|line| - 1] == NUL {
      CommandLineExact(line);
      assert Terminated(items, 0) + dropped == Terminated(items, 0);
    } else if line != [] && line[|line| - 1] == SPACE {
      assert Terminated(items, 32) + dropped == Terminated(items, 32);
    } else if line != [] {
      SpacedTerminated(items);
      SpacedFree(dropped);
      SpacedAppend(Terminated(items, NUL), dropped);
    }
  }
}
