/** The parser of `/proc/<pid>/stat`. */
module Stat {
  import opened Wrappers
  import opened Bytes
  import opened Decimal
  import opened Tokens

  datatype Status =
    Running | Sleeping | Waiting | Zombie | Stopped | Tracing | Dead | Wakekill | Waking | Parked | Idle
  {
    static function TryFromChar(c: char): Outcome<Status> {
      match c
      case 'R' => Ok(Running)
      case 'S' => Ok(Sleeping)
      case 'D' => Ok(Waiting)
      case 'Z' => Ok(Zombie)
      case 'T' => Ok(Stopped)
      case 't' => Ok(Tracing)
      case 'X' => Ok(Dead)
      case 'x' => Ok(Dead)
      case 'K' => Ok(Wakekill)
      case 'W' => Ok(Waking)
      case 'P' => Ok(Parked)
      case 'I' => Ok(Idle)
      case _ => Err(BadState)
    }
  }

  /** The letters of proc(5), written out the other way round; `x` is a second letter for dead. */
  predicate IsLetterOf(letter: char, state: Status) {
    match state
    case Running => letter == 'R'
    case Sleeping => letter == 'S'
    case Waiting => letter == 'D'
    case Zombie => letter == 'Z'
    case Stopped => letter == 'T'
    case Tracing => letter == 't'
    case Dead => letter == 'X' || letter == 'x'
    case Wakekill => letter == 'K'
    case Waking => letter == 'W'
    case Parked => letter == 'P'
    case Idle => letter == 'I'
  }

  /** Times are in clock ticks; `startTime` counts from boot. */
  datatype Stat = Stat(
    pid: int, name: string, state: Status, ppid: int, startTime: int, utime: int, stime: int, cutime: int, cstime: int)

  /** The numbers behind the state letter that are read, from the parent id to the memory limit. */
  const FIELDS: seq<IntType> :=
    [I32, I32, I32, I32, I32, U32, U64, U64, U64, U64, U64,
     U64, U64, U64, I64, I64, I64, I64, U64, I64, I64, U64]

  const PPID: nat := 0
  const UTIME: nat := 10
  const STIME: nat := 11
  const CUTIME: nat := 12
  const CSTIME: nat := 13
  const START_TIME: nat := 18

  function ParseFields(tokens: seq<string>, types: seq<IntType>): (r: Outcome<seq<int>>)
    ensures r.Ok? ==> |r.value| == |types|
    ensures !r.Panic?
  {
    if types == [] then Ok([])
    else if tokens == [] then Err(MissingData)
    else
      match ParseInt(types[0], tokens[0])
      case None => Err(BadNumber)
      case Some(v) =>
        var rest :- ParseFields(tokens[1..], types[1..]);
        Ok([v] + rest)
  }

  function ParseState(tokens: seq<string>): Outcome<Status> {
    if tokens == [] then Err(MissingData)
    else if tokens[0] == [] then Err(MissingData)
    else Status.TryFromChar(tokens[0][0])
  }

  predicate IsAscii(c: char) {
    c as int < 0x80
  }

  /** The name lies between the first character and the last `)`, and two bytes from there the fields
      begin. Slicing panics behind the end and inside a character. */
  function SplitName(leftover: string): Outcome<(string, string)> {
    match FindLast(leftover, ')')
    case None => Err(MissingData)
    case Some(end) =>
      if end == 0 || !IsAscii(leftover[0]) then Panic
      else if end + 1 == |leftover| || !IsAscii(leftover[end + 1]) then Panic
      else Ok((leftover[1..end], leftover[end + 2..]))
  }

  function MakeStat(pid: int, name: string, state: Status, values: seq<int>): Stat
    requires |values| == |FIELDS|
  {
    Stat(pid, name, state, values[PPID], values[START_TIME],
         values[UTIME], values[STIME], values[CUTIME], values[CSTIME])
  }

  /** All that follows the id and its space. */
  function ParseRest(pid: int, leftover: string): Outcome<Stat> {
    var (name, fields) :- SplitName(leftover);
    var tokens := SplitWhitespace(fields);
    var state :- ParseState(tokens);
    var values :- ParseFields(tokens[1..], FIELDS);
    Ok(MakeStat(pid, name, state, values))
  }

  function Parse(s: string): Outcome<Stat> {
    var parts := SplitOnce(s, ' ');
    match ParseInt(I32, parts[0])
    case None => Err(BadNumber)
    case Some(pid) => if |parts| == 1 then Err(MissingData) else ParseRest(pid, parts[1])
  }

  // ----- the parser as a sequence of cursor moves -----

  /** The consecutive `try_parse_next` calls, one for each entry of `types`. */
  method ReadFields(parts: Cursor, types: seq<IntType>) returns (r: Outcome<seq<int>>)
    modifies parts
    ensures r == ParseFields(old(parts.items), types)
  {
    var values := [];
    ghost var tokens := parts.items;
    ghost var left := types;
    BehindNothing(ParseFields(tokens, types));
    for i := 0 to |types|
      invariant left == types[i..]
      invariant ParseFields(tokens, types) == Behind(values, ParseFields(parts.items, left))
    {
      ghost var rest := parts.items;
      var v := parts.TryParseNext(types[i]);
      BehindStep(values, rest, left);
      if !v.Ok? {
        return v.PropagateFailure();
      }
      values := values + [v.value];
      left := left[1..];
    }
    assert values + [] == values;
    return Ok(values);
  }

  lemma BehindNothing(r: Outcome<seq<int>>)
    ensures Behind([], r) == r
  {
    if r.Ok? {
      assert [] + r.value == r.value;
    }
  }

  function Behind(values: seq<int>, r: Outcome<seq<int>>): Outcome<seq<int>> {
    match r
    case Ok(more) => Ok(values + more)
    case Err(e) => Err(e)
    case Panic => Panic
  }

  lemma BehindStep(values: seq<int>, tokens: seq<string>, types: seq<IntType>)
    requires types != []
    ensures tokens != [] && ParseInt(types[0], tokens[0]).Some? ==>
              Behind(values, ParseFields(tokens, types))
              == Behind(values + [ParseInt(types[0], tokens[0]).value], ParseFields(tokens[1..], types[1..]))
  {
    if tokens != [] && ParseInt(types[0], tokens[0]).Some? {
      var v := ParseInt(types[0], tokens[0]).value;
      var rest := ParseFields(tokens[1..], types[1..]);
      if rest.Ok? {
        assert values + ([v] + rest.value) == values + [v] + rest.value;
      }
    }
  }

  method FromStr(s: string) returns (r: Outcome<Stat>)
    ensures r == Parse(s)
  {
    var parts := new Cursor(SplitOnce(s, ' '));
    var pid :- parts.TryParseNext(I32);
    var leftover :- parts.TryNext();
    var split :- SplitName(leftover);
    var (name, fields) := split;
    parts := new Cursor(SplitWhitespace(fields));
    var letters :- parts.TryNext();
    if letters == [] {
      return Err(MissingData);
    }
    var state :- Status.TryFromChar(letters[0]);
    var values :- ReadFields(parts, FIELDS);
    return Ok(MakeStat(pid, name, state, values));
  }

  // ----- the line the kernel prints -----

  function PrintFields(values: seq<int>): string {
    if values == [] then [] else " " + Print(values[0]) + PrintFields(values[1..])
  }

  function PrintLine(pid: int, name: string, letter: char, values: seq<int>, rest: string): string {
    Print(pid) + " (" + name + ") " + ([letter] + (PrintFields(values) + rest))
  }

  /** The numbers that have the width of their fields. */
  predicate InRange(values: seq<int>, types: seq<IntType>)
    requires |values| <= |types|
  {
    forall i | 0 <= i < |values| :: types[i].lo <= values[i] <= types[i].hi
  }

  /** The same for the numbers of this file: ids and the terminal have 32 bits with a sign, the flags 32
      without; fault counts, CPU times, start time and memory limit have 64 without a sign, all others with one. */
  predicate FitsField(i: nat, v: int) {
    if i < 5 then -2147483648 <= v <= 2147483647
    else if i == 5 then 0 <= v <= 4294967295
    else if i < 14 || i == 18 || i == 21 then 0 <= v <= 18446744073709551615
    else -9223372036854775808 <= v <= 9223372036854775807
  }

  predicate FitFields(values: seq<int>) {
    forall i | 0 <= i < |values| :: FitsField(i, values[i])
  }

  lemma WidthsAgree(values: seq<int>)
    requires |values| <= 22
    ensures |FIELDS| == 22 && (InRange(values, FIELDS) <==> FitFields(values))
  {
    assert forall i: nat, v: int | i < 22 :: FitsField(i, v) <==> FIELDS[i].lo <= v <= FIELDS[i].hi;
  }

  lemma {:induction false} PrintIsToken(v: int)
    ensures IsToken(Print(v)) && ' ' !in Print(v) && ')' !in Print(v)
  {
    PrintChars(v);
    assert forall c <- Print(v) :: IsNumberChar(c);
  }

  /** What reading printed numbers gives: the first that does not fit stops it, and so does a missing one. */
  function FieldsVerdict(values: seq<int>, types: seq<IntType>): Outcome<seq<int>>
    requires |values| <= |types|
  {
    if !InRange(values, types) then Err(BadNumber) else if |values| < |types| then Err(MissingData) else Ok(values)
  }

  lemma {:induction false} FieldStep(token: string, tokens: seq<string>, values: seq<int>, types: seq<IntType>)
    requires values != [] && |values| <= |types|
    requires ParseInt(types[0], token) == if types[0].lo <= values[0] <= types[0].hi then Some(values[0]) else None
    requires ParseFields(tokens, types[1..]) == FieldsVerdict(values[1..], types[1..])
    ensures ParseFields([token] + tokens, types) == FieldsVerdict(values, types)
  {
    assert ([token] + tokens)[1..] == tokens;
    assert [values[0]] + values[1..] == values;
    InRangeStep(values, types);
  }

  lemma InRangeStep(values: seq<int>, types: seq<IntType>)
    requires values != [] && |values| <= |types|
    ensures InRange(values, types) <==> types[0].lo <= values[0] <= types[0].hi && InRange(values[1..], types[1..])
  {
    var tail, more := values[1..], types[1..];
    assert forall i | 0 <= i < |tail| :: tail[i] == values[i + 1] && more[i] == types[i + 1];
    assert forall i | 1 <= i < |values| :: values[i] == tail[i - 1] && types[i] == more[i - 1];
  }

  lemma {:induction false} SplitField(v: int, more: string)
    requires EndsToken(more)
    ensures SplitWhitespace(" " + Print(v) + more) == [Print(v)] + SplitWhitespace(more)
  {
    var line := " " + Print(v) + more;
    assert line[1..] == Print(v) + more;
    PrintIsToken(v);
    SplitToken(Print(v), more);
  }

  lemma {:induction false} FieldsExact(values: seq<int>, types: seq<IntType>, rest: string)
    requires |values| <= |types| && EndsToken(rest)
    requires |values| < |types| ==> SplitWhitespace(rest) == []
    ensures ParseFields(SplitWhitespace(PrintFields(values) + rest), types) == FieldsVerdict(values, types)
    ensures EndsToken(PrintFields(values) + rest)
  {
    if values == [] {
      assert PrintFields(values) + rest == rest;
    } else {
      var more := PrintFields(values[1..]) + rest;
      FieldsExact(values[1..], types[1..], rest);
      Assoc(" " + Print(values[0]), PrintFields(values[1..]), rest);
      SplitField(values[0], more);
      ParsePrint(types[0], values[0]);
      FieldStep(Print(values[0]), SplitWhitespace(more), values, types);
    }
  }

  lemma {:induction false} FieldsHaveNoParenthesis(values: seq<int>)
    ensures ')' !in PrintFields(values)
  {
    if values != [] {
      PrintIsToken(values[0]);
      FieldsHaveNoParenthesis(values[1..]);
    }
  }

  lemma {:induction false} StateLetter(letter: char, state: Status)
    requires IsLetterOf(letter, state)
    ensures Status.TryFromChar(letter) == Ok(state)
    ensures IsToken([letter]) && letter != ')'
  {
  }

  lemma {:induction false} NameRoundTrip(name: string, fields: string)
    requires ')' !in fields
    ensures SplitName("(" + name + ") " + fields) == Ok((name, fields))
  {
    var leftover := "(" + name + ") " + fields;
    var front := "(" + name;
    assert leftover == front + [')'] + (" " + fields);
    FindLastAt(front, ')', " " + fields);
    assert leftover[1..|front|] == name && leftover[|front| + 2..] == fields;
    assert leftover[0] == '(' && leftover[|front| + 1] == ' ';
  }

  lemma {:induction false} RestExact(
    pid: int, name: string, letter: char, state: Status, values: seq<int>, rest: string)
    requires |values| <= |FIELDS| && IsLetterOf(letter, state) && EndsToken(rest) && ')' !in rest
    requires |values| < |FIELDS| ==> SplitWhitespace(rest) == []
    ensures ParseRest(pid, "(" + name + ") " + ([letter] + (PrintFields(values) + rest)))
            == match FieldsVerdict(values, FIELDS)
               case Ok(vs) => Ok(MakeStat(pid, name, state, vs))
               case Err(e) => Err(e)
  {
    var fields := [letter] + (PrintFields(values) + rest);
    FieldsHaveNoParenthesis(values);
    StateLetter(letter, state);
    NameRoundTrip(name, fields);
    TokensExact(letter, state, values, FIELDS, rest);
    RestFrom(pid, "(" + name + ") " + fields, name, fields, state);
  }

  lemma {:induction false} TokensExact(
    letter: char, state: Status, values: seq<int>, types: seq<IntType>, rest: string)
    requires |values| <= |types| && IsLetterOf(letter, state) && EndsToken(rest)
    requires |values| < |types| ==> SplitWhitespace(rest) == []
    ensures var tokens := SplitWhitespace([letter] + (PrintFields(values) + rest));
            && tokens != [] && ParseState(tokens) == Ok(state)
            && ParseFields(tokens[1..], types) == FieldsVerdict(values, types)
  {
    var more := PrintFields(values) + rest;
    StateLetter(letter, state);
    FieldsExact(values, types, rest);
    SplitToken([letter], more);
    assert SplitWhitespace([letter] + more)[1..] == SplitWhitespace(more);
  }

  lemma RestFrom(pid: int, leftover: string, name: string, fields: string, state: Status)
    requires SplitName(leftover) == Ok((name, fields))
    requires SplitWhitespace(fields) != [] && ParseState(SplitWhitespace(fields)) == Ok(state)
    ensures ParseRest(pid, leftover)
            == match ParseFields(SplitWhitespace(fields)[1..], FIELDS)
               case Ok(vs) => Ok(MakeStat(pid, name, state, vs))
               case Err(e) => Err(e)
  {
  }

  lemma {:induction false} ParseAfterId(pid: int, leftover: string)
    ensures Parse(Print(pid) + " " + leftover)
            == if -2147483648 <= pid <= 2147483647 then ParseRest(pid, leftover) else Err(BadNumber)
  {
    PrintIsToken(pid);
    SplitOnceAt(Print(pid), ' ', leftover);
    ParsePrint(I32, pid);
  }

  lemma LineParts(pid: int, name: string, letter: char, values: seq<int>, rest: string)
    ensures PrintLine(pid, name, letter, values, rest)
            == Print(pid) + " " + ("(" + name + ") " + ([letter] + (PrintFields(values) + rest)))
  {
    var fields := [letter] + (PrintFields(values) + rest);
    assert Print(pid) + " (" + name + ") " + fields == Print(pid) + " " + ("(" + name + ") " + fields);
  }

  /** A printed line is read back if and only if its id and its twenty-two numbers have the widths of their
      fields, whatever characters the name is made of. The parent id is the first number behind the state
      letter, the four CPU times are numbers 11 to 14, the start time is number 19. */
  lemma {:induction false} RoundTrip(
    pid: int, name: string, letter: char, state: Status, values: seq<int>, rest: string)
    requires |values| == 22 && IsLetterOf(letter, state)
    requires EndsToken(rest) && ')' !in rest
    ensures Parse(PrintLine(pid, name, letter, values, rest))
            == if -2147483648 <= pid <= 2147483647 && FitFields(values)
               then Ok(Stat(pid, name, state, values[0], values[18], values[10], values[11], values[12], values[13]))
               else Err(BadNumber)
  {
    var leftover := "(" + name + ") " + ([letter] + (PrintFields(values) + rest));
    LineParts(pid, name, letter, values, rest);
    ParseAfterId(pid, leftover);
    WidthsAgree(values);
    RestExact(pid, name, letter, state, values, rest);
  }

  /** A line that stops before the last number is refused, for a number that does not fit or a missing one. */
  lemma {:induction false} ShortLine(pid: int, name: string, letter: char, state: Status, values: seq<int>, rest: string)
    requires |values| < 22 && IsLetterOf(letter, state) && (rest == "" || rest == "\n")
    requires -2147483648 <= pid <= 2147483647
    ensures Parse(PrintLine(pid, name, letter, values, rest))
            == Err(if FitFields(values) then MissingData else BadNumber)
  {
    var leftover := "(" + name + ") " + ([letter] + (PrintFields(values) + rest));
    LineParts(pid, name, letter, values, rest);
    ParseAfterId(pid, leftover);
    WidthsAgree(values);
    assert rest == "\n" ==> rest[1..] == "";
    RestExact(pid, name, letter, state, values, rest);
  }

  /** A letter that stands for no state is an error, whatever follows it. */
  lemma {:induction false} UnknownState(pid: int, name: string, letter: char, rest: string)
    requires -2147483648 <= pid <= 2147483647 && !IsWhitespace(letter) && letter != ')'
    requires letter !in "RSDZTtXxKWPI" && ')' !in rest
    ensures Parse(Print(pid) + " " + ("(" + name + ") " + ([letter] + rest))) == Err(BadState)
  {
    var fields := [letter] + rest;
    ParseAfterId(pid, "(" + name + ") " + fields);
    NameRoundTrip(name, fields);
    LettersOf(letter);
    assert SplitWhitespace(fields)[0][0] == letter;
  }

  lemma LettersOf(letter: char)
    requires letter !in "RSDZTtXxKWPI"
    ensures Status.TryFromChar(letter) == Err(BadState)
  {
    var all := "RSDZTtXxKWPI";
    assert all[0] == 'R' && all[1] == 'S' && all[2] == 'D' && all[3] == 'Z' && all[4] == 'T' && all[5] == 't';
    assert all[6] == 'X' && all[7] == 'x' && all[8] == 'K' && all[9] == 'W' && all[10] == 'P' && all[11] == 'I';
  }

  /** What becomes of a line with nothing behind its id, or with no `)` behind it. */
  lemma {:induction false} NoName(pid: int, leftover: string)
    requires -2147483648 <= pid <= 2147483647 && ')' !in leftover
    ensures Parse(Print(pid)) == Err(MissingData)
    ensures Parse(Print(pid) + " " + leftover) == Err(MissingData)
  {
    ParseAfterId(pid, leftover);
    PrintIsToken(pid);
    NotFoundAtEnd(Print(pid), ' ');
    ParsePrint(I32, pid);
  }

  /** The slices around the name panic exactly if nothing stands in front of the last `)` or behind it,
      or if one of the two characters skipped there has more than one byte. */
  lemma {:induction false} PanicExact(pid: int, front: string, back: string)
    requires -2147483648 <= pid <= 2147483647 && ')' !in back
    ensures Parse(Print(pid) + " " + (front + [')'] + back)) == Panic
            <==> front == [] || front[0] as int >= 128 || back == [] || back[0] as int >= 128
  {
    var leftover := front + [')'] + back;
    ParseAfterId(pid, leftover);
    FindLastAt(front, ')', back);
    RestPanics(pid, leftover);
  }

  lemma {:induction false} RestPanics(pid: int, leftover: string)
    ensures ParseRest(pid, leftover) == Panic <==> SplitName(leftover) == Panic
  {
  }

  lemma {:induction false} AcceptedName(leftover: string, name: string, fields: string) returns (open: char, gap: char)
    requires SplitName(leftover) == Ok((name, fields))
    ensures leftover == [open] + name + [')', gap] + fields
    ensures gap != ')' && ')' !in fields
  {
    var end := FindLast(leftover, ')').value;
    open, gap := leftover[0], leftover[end + 1];
    assert leftover == [open] + leftover[1..end] + [')', gap] + leftover[end + 2..];
  }

  lemma AcceptedRest(pid: int, leftover: string, stat: Stat)
    requires ParseRest(pid, leftover) == Ok(stat)
    ensures SplitName(leftover).Ok? && stat.pid == pid && stat.name == SplitName(leftover).value.0
  {
  }

  lemma AcceptedParts(s: string, i: nat, stat: Stat)
    requires Parse(s) == Ok(stat) && i == IndexOf(s, ' ')
    ensures i < |s| && ParseInt(I32, s[..i]) == Some(stat.pid)
    ensures SplitName(s[i + 1..]).Ok? && stat.name == SplitName(s[i + 1..]).value.0
  {
    AcceptedRest(ParseInt(I32, s[..i]).value, s[i + 1..], stat);
  }

  lemma {:induction false} AcceptedShape(s: string, i: nat, name: string, fields: string) returns (open: char, gap: char)
    requires i < |s| && s[i] == ' ' && SplitName(s[i + 1..]) == Ok((name, fields))
    ensures s == s[..i] + [' '] + ([open] + name + [')', gap] + fields)
    ensures gap != ')' && ')' !in fields
  {
    open, gap := AcceptedName(s[i + 1..], name, fields);
    assert s == s[..i] + [' '] + s[i + 1..];
  }

  /** Every accepted line holds its id in front of the first space and, one character further, its name
      up to the last `)` of the line. */
  lemma {:induction false} AcceptedLine(s: string, stat: Stat)
    returns (number: string, open: char, gap: char, fields: string)
    requires Parse(s) == Ok(stat)
    ensures s == number + [' '] + ([open] + stat.name + [')', gap] + fields)
    ensures ' ' !in number && ParseInt(I32, number) == Some(stat.pid)
    ensures gap != ')' && ')' !in fields
  {
    var i := IndexOf(s, ' ');
    AcceptedParts(s, i, stat);
    number := s[..i];
    fields := SplitName(s[i + 1..]).value.1;
    open, gap := AcceptedShape(s, i, stat.name, fields);
  }
}
