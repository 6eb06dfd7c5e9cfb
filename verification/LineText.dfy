/** What the keyed lines say, in terms of their text alone. */
module LineText {
  import opened Wrappers
  import opened Bytes
  import opened Decimal
  import opened KeyedLines
  import opened Tokens

  /** A line that is a tag, white space, a number without a space in it, and anything behind a space. */
  ghost predicate Layout(line: string, tag: string, blanks: string, number: string, tail: string) {
    && line == tag + blanks + number + tail
    && (forall c <- blanks :: IsWhitespace(c))
    && ' ' !in number
    && (number != [] ==> !IsWhitespace(number[0]))
    && (tail != [] ==> tail[0] == ' ' && number != [])
  }

  /** The number behind the tag is `v`, in 64 bits without a sign. */
  ghost predicate Shows(line: string, tag: string, v: nat) {
    exists blanks, number, tail ::
      Layout(line, tag, blanks, number, tail)
      && ParseInt(IntType(0, 18446744073709551615), number) == Some(v)
  }

  /** Some line shows `v` behind `key` and the separator. */
  ghost predicate Says(separator: char, lines: seq<string>, key: string, v: nat) {
    exists line <- lines :: Shows(line, key + [separator], v)
  }

  function NumberText(rest: string): string {
    SplitOnce(TrimStart(rest), ' ')[0]
  }

  lemma {:induction false} TrimSplit(rest: string) returns (blanks: string)
    ensures rest == blanks + TrimStart(rest)
    ensures forall c <- blanks :: IsWhitespace(c)
    ensures TrimStart(rest) != [] ==> !IsWhitespace(TrimStart(rest)[0])
  {
    if rest != [] && IsWhitespace(rest[0]) {
      var more := TrimSplit(rest[1..]);
      blanks := [rest[0]] + more;
      assert rest == [rest[0]] + rest[1..];
    } else {
      blanks := [];
    }
  }

  lemma {:induction false} TrimBlanks(blanks: string, more: string)
    requires forall c <- blanks :: IsWhitespace(c)
    requires more != [] ==> !IsWhitespace(more[0])
    ensures TrimStart(blanks + more) == more
  {
    if blanks == [] {
      assert blanks + more == more;
    } else {
      assert blanks[0] in blanks;
      assert (blanks + more)[1..] == blanks[1..] + more;
      TrimBlanks(blanks[1..], more);
    }
  }

  lemma {:induction false} NumberHasLayout(tag: string, rest: string) returns (blanks: string, tail: string)
    ensures Layout(tag + rest, tag, blanks, NumberText(rest), tail)
  {
    blanks := TrimSplit(rest);
    var trimmed := TrimStart(rest);
    tail := CutNumber(trimmed);
    Regroup(tag, blanks, NumberText(rest), tail);
  }

  lemma {:induction false} CutNumber(trimmed: string) returns (tail: string)
    requires trimmed != [] ==> !IsWhitespace(trimmed[0])
    ensures var number := SplitOnce(trimmed, ' ')[0];
            && trimmed == number + tail && ' ' !in number
            && (number != [] ==> !IsWhitespace(number[0]))
            && (tail != [] ==> tail[0] == ' ' && number != [])
  {
    var i := IndexOf(trimmed, ' ');
    tail := trimmed[i..];
    assert SplitOnce(trimmed, ' ')[0] == trimmed[..i];
    assert trimmed != [] ==> trimmed[0] != ' ';
  }

  lemma Regroup(tag: string, blanks: string, number: string, tail: string)
    ensures tag + (blanks + (number + tail)) == tag + blanks + number + tail
  {
  }

  lemma {:induction false} LayoutFixesNumber(line: string, tag: string, blanks: string, number: string, tail: string)
    requires Layout(line, tag, blanks, number, tail)
    ensures tag <= line && NumberText(line[|tag|..]) == number
  {
    assert line[|tag|..] == blanks + (number + tail);
    TrimBlanks(blanks, number + tail);
    if tail == [] {
      assert number + tail == number;
      NotFoundAtEnd(number, ' ');
    } else {
      assert number + tail == number + [' '] + tail[1..];
      SplitOnceAt(number, ' ', tail[1..]);
    }
  }

  lemma {:induction false} ShowsExact(line: string, tag: string, v: nat)
    ensures Shows(line, tag, v) <==> tag <= line && ParseInt(U64, NumberText(line[|tag|..])) == Some(v)
  {
    if Shows(line, tag, v) {
      var blanks, number, tail :|
        Layout(line, tag, blanks, number, tail) && ParseInt(IntType(0, 18446744073709551615), number) == Some(v);
      LayoutFixesNumber(line, tag, blanks, number, tail);
    }
    if tag <= line && ParseInt(U64, NumberText(line[|tag|..])) == Some(v) {
      var rest := line[|tag|..];
      assert line == tag + rest;
      var blanks, tail := NumberHasLayout(tag, rest);
    }
  }

  lemma {:induction false} KeyPosition(keys: seq<string>, i: nat)
    requires i < |keys| && forall a, b | 0 <= a < b < |keys| :: keys[a] != keys[b]
    ensures IndexOf(keys, keys[i]) == i
  {
    NotFoundAtEnd(keys, keys[i]);
  }

  /** A line is read under a key iff it begins with the key and the separator. */
  lemma {:induction false} ReadTag(f: Format, line: string, i: nat)
    requires f.Sound() && i < |f.keys| && f.keys[i] + [f.separator] <= line
    ensures Read(f, line) == match ParseInt(U64, NumberText(line[|f.keys[i]| + 1..]))
                             case None => Bad(i)
                             case Some(v) => Set(i, v)
  {
    var rest := line[|f.keys[i]| + 1..];
    assert line == f.keys[i] + [f.separator] + rest;
    assert f.keys[i] in f.keys;
    SplitOnceAt(f.keys[i], f.separator, rest);
    KeyPosition(f.keys, i);
  }

  lemma {:induction false} ReadHasTag(f: Format, line: string)
    requires !Read(f, line).Skip?
    ensures f.keys[Read(f, line).key] + [f.separator] <= line
    ensures f.keys[Read(f, line).key] in f.keys
  {
    var i := IndexOf(line, f.separator);
    assert line == line[..i] + [f.separator] + line[i + 1..];
  }

  lemma {:induction false} ReadExact(f: Format, line: string, i: nat)
    requires f.Sound() && i < |f.keys|
    ensures (!Read(f, line).Skip? && Read(f, line).key == i) <==> f.keys[i] + [f.separator] <= line
    ensures forall v: nat :: Read(f, line) == Set(i, v) <==> Shows(line, f.keys[i] + [f.separator], v)
  {
    var tag := f.keys[i] + [f.separator];
    if tag <= line {
      ReadTag(f, line, i);
    } else if !Read(f, line).Skip? {
      ReadHasTag(f, line);
    }
    forall v: nat
      ensures Read(f, line) == Set(i, v) <==> Shows(line, tag, v)
    {
      ShowsExact(line, tag, v);
    }
  }

  // ----- printed lines -----

  function Blanks(n: nat): string {
    seq(n, i => ' ')
  }

  lemma {:induction false} PrintedLayout(tag: string, n: nat, digits: string, tail: string)
    requires digits != [] && (forall c <- digits :: IsNumberChar(c)) && (tail == "" || tail[0] == ' ')
    ensures Layout(tag + Blanks(n) + digits + tail, tag, Blanks(n), digits, tail)
  {
    assert digits[0] in digits;
  }

  /** A line as the kernel prints it: the tag, any number of spaces, the number, and the tail. */
  lemma {:induction false} PrintedShows(tag: string, n: nat, v: nat, tail: string)
    requires v <= 18446744073709551615 && (tail == "" || tail[0] == ' ')
    ensures Shows(tag + Blanks(n) + Print(v) + tail, tag, v)
  {
    PrintChars(v);
    ParsePrint(IntType(0, 18446744073709551615), v);
    PrintedLayout(tag, n, Print(v), tail);
  }

  lemma {:induction false} ShowsOne(line: string, tag: string, u: nat, v: nat)
    requires Shows(line, tag, u) && Shows(line, tag, v)
    ensures u == v
  {
    ShowsExact(line, tag, u);
    ShowsExact(line, tag, v);
  }

  /** The line at `a` is a printed one, and no other line begins with its tag. */
  ghost predicate PrintedAt(lines: seq<string>, tag: string, tail: string, v: nat, a: nat, n: nat) {
    && a < |lines| && lines[a] == tag + Blanks(n) + Print(v) + tail
    && forall b | 0 <= b < |lines| && b != a :: !(tag <= lines[b])
  }

  ghost predicate PrintedOnce(lines: seq<string>, tag: string, tail: string, v: nat) {
    exists a: nat, n: nat :: PrintedAt(lines, tag, tail, v, a, n)
  }

  lemma {:induction false} PrintedOnceShows(lines: seq<string>, tag: string, tail: string, v: nat)
    requires v <= 18446744073709551615 && (tail == "" || tail[0] == ' ') && PrintedOnce(lines, tag, tail, v)
    ensures exists a: nat :: a < |lines| && Shows(lines[a], tag, v)
                             && forall b | 0 <= b < |lines| && b != a :: !(tag <= lines[b])
  {
    var a: nat, n: nat :| PrintedAt(lines, tag, tail, v, a, n);
    PrintedShows(tag, n, v, tail);
    assert Shows(lines[a], tag, v);
  }

  /** The same in the terms of the parser. */
  lemma {:induction false} PrintedIsGiven(f: Format, lines: seq<string>, i: nat, tail: string, v: nat)
    requires f.Sound() && i < |f.keys| && v <= 18446744073709551615 && (tail == "" || tail[0] == ' ')
    requires PrintedOnce(lines, f.keys[i] + [f.separator], tail, v)
    ensures Gives(f, lines, i, v) && HasValue(f, lines, i)
    ensures forall a, b | 0 <= a < b < |lines| && !Read(f, lines[a]).Skip? && !Read(f, lines[b]).Skip? ::
              !(Read(f, lines[a]).key == Read(f, lines[b]).key == i)
  {
    var tag := f.keys[i] + [f.separator];
    PrintedOnceShows(lines, tag, tail, v);
    var a: nat :| a < |lines| && Shows(lines[a], tag, v)
                  && forall b | 0 <= b < |lines| && b != a :: !(tag <= lines[b]);
    ReadExact(f, lines[a], i);
    assert lines[a] in lines;
    forall b | 0 <= b < |lines| && b != a
      ensures Read(f, lines[b]).Skip? || Read(f, lines[b]).key != i
    {
      ReadExact(f, lines[b], i);
    }
  }

  /** A text with one printed line for each key, anywhere among lines without these tags, gives exactly
      the printed numbers. */
  lemma {:induction false} PrintedText(f: Format, lines: seq<string>, tail: string, values: seq<nat>)
    requires f.Sound() && Readable(lines) && |values| == |f.keys| && (tail == "" || tail[0] == ' ')
    requires forall i | 0 <= i < |f.keys| ::
               values[i] <= 18446744073709551615 && PrintedOnce(lines, f.keys[i] + [f.separator], tail, values[i])
    ensures Parse(f, lines) == Ok(values)
  {
    forall i | 0 <= i < |f.keys|
      ensures Gives(f, lines, i, values[i]) && HasValue(f, lines, i)
    {
      PrintedIsGiven(f, lines, i, tail, values[i]);
    }
    forall a, b | 0 <= a < b < |lines| && !Read(f, lines[a]).Skip? && !Read(f, lines[b]).Skip?
      ensures Read(f, lines[a]).key != Read(f, lines[b]).key
    {
      var i := Read(f, lines[a]).key;
      PrintedIsGiven(f, lines, i, tail, values[i]);
    }
    ParseMeaning(f, lines);
    var r := Parse(f, lines).value;
    forall i | 0 <= i < |f.keys|
      ensures r[i] == values[i]
    {
      GivenOnce(f, lines, i, r[i], values[i]);
    }
    assert r == values;
  }

  // ----- every text in which no tag occurs twice -----

  ghost predicate TagsOnce(f: Format, lines: seq<string>) {
    forall a, b, key | 0 <= a < b < |lines| && key in f.keys ::
      !(key + [f.separator] <= lines[a] && key + [f.separator] <= lines[b])
  }

  lemma {:induction false} TagsOnceIsAtMostOnce(f: Format, lines: seq<string>)
    requires f.Sound() && TagsOnce(f, lines)
    ensures AtMostOnce(f, lines)
  {
    forall a, b | 0 <= a < b < |lines| && !Read(f, lines[a]).Skip? && !Read(f, lines[b]).Skip?
      ensures Read(f, lines[a]).key != Read(f, lines[b]).key
    {
      ReadHasTag(f, lines[a]);
      ReadHasTag(f, lines[b]);
      assert f.keys[Read(f, lines[a]).key] in f.keys;
    }
  }

  /** A line with a wanted tag that shows no number. */
  ghost predicate ShowsNone(f: Format, line: string) {
    exists key <- f.keys :: key + [f.separator] <= line && forall v: nat :: !Shows(line, key + [f.separator], v)
  }

  lemma {:induction false} BadExact(f: Format, line: string)
    requires f.Sound()
    ensures Read(f, line).Bad? <==> ShowsNone(f, line)
  {
    if Read(f, line).Bad? {
      var i := Read(f, line).key;
      ReadExact(f, line, i);
      assert f.keys[i] in f.keys;
    }
    if ShowsNone(f, line) {
      var key :| key in f.keys && key + [f.separator] <= line && forall v: nat :: !Shows(line, key + [f.separator], v);
      var i :| 0 <= i < |f.keys| && f.keys[i] == key;
      ReadExact(f, line, i);
      var h := Read(f, line);
      assert h.Set? ==> (h == Set(i, h.value) <==> Shows(line, key + [f.separator], h.value));
    }
  }

  lemma {:induction false} ScanAllVerdict(f: Format, lines: seq<string>, record: seq<nat>, matched: nat)
    requires |record| == |f.keys|
    ensures var r := ScanAll(f, lines, record, matched);
            && (r == Err(BadNumber) <==> exists line <- lines :: Read(f, line).Bad?)
            && (r.Ok? || r == Err(BadNumber) || r == Err(MissingData))
  {
    if lines != [] {
      assert forall line :: line in lines <==> line == lines[0] || line in lines[1..];
      match Read(f, lines[0])
      case Skip => ScanAllVerdict(f, lines[1..], record, matched);
      case Bad(_) => assert lines[0] in lines;
      case Set(i, v) => ScanAllVerdict(f, lines[1..], record[i := v], matched + 1);
    }
  }

  lemma {:induction false} GivesExact(f: Format, lines: seq<string>, i: nat, v: nat)
    requires f.Sound() && i < |f.keys|
    ensures Gives(f, lines, i, v) <==> Says(f.separator, lines, f.keys[i], v)
  {
    forall line <- lines
      ensures Read(f, line) == Set(i, v) <==> Shows(line, f.keys[i] + [f.separator], v)
    {
      ReadExact(f, line, i);
    }
  }

  ghost predicate SaysAny(separator: char, lines: seq<string>, key: string) {
    exists v: nat :: Says(separator, lines, key, v)
  }

  lemma {:induction false} HasValueExact(f: Format, lines: seq<string>, i: nat)
    requires f.Sound() && i < |f.keys|
    ensures HasValue(f, lines, i) <==> SaysAny(f.separator, lines, f.keys[i])
  {
    if HasValue(f, lines, i) {
      var line :| line in lines && Read(f, line).Set? && Read(f, line).key == i;
      GivesExact(f, lines, i, Read(f, line).value);
    }
    if SaysAny(f.separator, lines, f.keys[i]) {
      var v: nat :| Says(f.separator, lines, f.keys[i], v);
      GivesExact(f, lines, i, v);
    }
  }

  /** On a text in which no tag occurs twice, the parse succeeds iff every key has a line that shows a
      number, and every field is the number shown behind its tag. */
  lemma {:induction false} TextMeaning(f: Format, lines: seq<string>)
    requires f.Sound() && Readable(lines) && TagsOnce(f, lines)
    ensures var r := Parse(f, lines);
            && (r.Ok? <==> forall i | 0 <= i < |f.keys| :: SaysAny(f.separator, lines, f.keys[i]))
            && (r.Ok? ==> forall i | 0 <= i < |f.keys| :: Says(f.separator, lines, f.keys[i], r.value[i]))
  {
    TagsOnceIsAtMostOnce(f, lines);
    ParseMeaning(f, lines);
    var r := Parse(f, lines);
    forall i | 0 <= i < |f.keys|
      ensures HasValue(f, lines, i) <==> SaysAny(f.separator, lines, f.keys[i])
      ensures r.Ok? ==> Says(f.separator, lines, f.keys[i], r.value[i])
    {
      HasValueExact(f, lines, i);
      if r.Ok? {
        GivesExact(f, lines, i, r.value[i]);
      }
    }
  }

  /** Otherwise the error is a malformed number if some wanted line shows none, and a missing line if not. */
  lemma {:induction false} TextErrors(f: Format, lines: seq<string>)
    requires f.Sound() && Readable(lines) && TagsOnce(f, lines)
    ensures Parse(f, lines) == Err(BadNumber) <==> exists line <- lines :: ShowsNone(f, line)
    ensures Parse(f, lines).Ok? || Parse(f, lines) == Err(BadNumber) || Parse(f, lines) == Err(MissingData)
  {
    TagsOnceIsAtMostOnce(f, lines);
    ParseMeaning(f, lines);
    ScanAllVerdict(f, lines, Nothing(f), 0);
    forall line <- lines
      ensures Read(f, line).Bad? <==> ShowsNone(f, line)
    {
      BadExact(f, line);
    }
  }

  /** A line of fewer than two bytes that is reached panics, whatever stands behind it. */
  lemma {:induction false} ShortLinePanics(f: Format, front: seq<string>, short: string, rest: seq<string>, record: seq<nat>, matched: nat)
    requires f.Sound() && |record| == |f.keys|
    requires short == "" || (|short| == 1 && short[0] as int < 128)
    requires Readable(front) && forall line <- front, key <- f.keys :: !(key + [f.separator] <= line)
    ensures Scan(f, front + [short] + rest, record, matched) == Panic
  {
    var lines := front + [short] + rest;
    if front != [] {
      assert lines[0] == front[0] && lines[1..] == front[1..] + [short] + rest;
      assert front[0] in front;
      if !Read(f, front[0]).Skip? {
        ReadHasTag(f, front[0]);
        assert false;
      }
      FilterChangesNothing(f, front[0]);
      assert forall line <- front[1..] :: line in front;
      ShortLinePanics(f, front[1..], short, rest, record, matched);
    }
  }
}
