/** `/proc/meminfo` and `/proc/vmstat`: memory, swap, and swap traffic. Amounts are in kilobytes. */
module Meminfo {
  import opened Wrappers
  import opened Decimal
  import opened Tokens
  import opened KeyedLines
  import opened LineText

  const MEMORY := Format(':',
    ["MemTotal", "MemFree", "MemAvailable", "Buffers", "Cached", "Active", "Inactive", "Shmem"],
    {"Me", "Ac", "In", "Bu", "Ca", "Sh"})

  const SWAP := Format(':', ["SwapTotal", "SwapFree"], {"Sw"})

  const VM_STAT := Format(' ', ["pswpin", "pswpout"], {"ps"})

  datatype Memory = Memory(
    total: nat, free: nat, available: nat, buffers: nat, cached: nat, active: nat, inactive: nat, shared: nat)

  datatype VmStat = VmStat(swapIn: Option<nat>, swapOut: Option<nat>)

  datatype Swap = Swap(total: nat, free: nat, vmStat: VmStat) {
    /** The subtraction is checked: more free than total panics. */
    function Used(): (r: Outcome<nat>)
      ensures r.Ok? <==> free <= total
      ensures r.Ok? ==> r.value + free == total
    {
      if free > total then Panic else Ok(total - free)
    }
  }

  function MemoryOf(lines: seq<string>): Outcome<Memory> {
    var v :- Parse(MEMORY, lines);
    Ok(Memory(v[0], v[1], v[2], v[3], v[4], v[5], v[6], v[7]))
  }

  method MemoryFromStr(lines: seq<string>) returns (r: Outcome<Memory>)
    ensures r == MemoryOf(lines)
  {
    var v :- ParseLines(MEMORY, lines);
    return Ok(Memory(v[0], v[1], v[2], v[3], v[4], v[5], v[6], v[7]));
  }

  function SwapOf(lines: seq<string>, vmStat: VmStat): Outcome<Swap> {
    var v :- Parse(SWAP, lines);
    Ok(Swap(v[0], v[1], vmStat))
  }

  method SwapParseStr(lines: seq<string>, vmStat: VmStat) returns (r: Outcome<Swap>)
    ensures r == SwapOf(lines, vmStat)
  {
    var v :- ParseLines(SWAP, lines);
    return Ok(Swap(v[0], v[1], vmStat));
  }

  /** Keys that differ in length or in their first letter are different. */
  ghost predicate EasilyToldApart(keys: seq<string>) {
    forall i, j | 0 <= i < j < |keys| :: |keys[i]| != |keys[j]| || (keys[i] != [] && keys[i][0] != keys[j][0])
  }

  lemma MemoryPrefixes()
    ensures forall key <- MEMORY.keys :: |key| >= 2 && key[..2] in MEMORY.prefixes
  {
    assert "MemTotal"[..2] == "Me" && "MemFree"[..2] == "Me" && "MemAvailable"[..2] == "Me";
    assert "Buffers"[..2] == "Bu" && "Cached"[..2] == "Ca" && "Active"[..2] == "Ac";
    assert "Inactive"[..2] == "In" && "Shmem"[..2] == "Sh";
  }

  lemma SwapPrefixes()
    ensures forall key <- SWAP.keys :: |key| >= 2 && key[..2] in SWAP.prefixes
    ensures forall key <- VM_STAT.keys :: |key| >= 2 && key[..2] in VM_STAT.prefixes
  {
    assert "SwapTotal"[..2] == "Sw" && "SwapFree"[..2] == "Sw";
    assert "pswpin"[..2] == "ps" && "pswpout"[..2] == "ps";
  }

  lemma KeysWithoutSeparator()
    ensures forall key <- MEMORY.keys :: ':' !in key
    ensures forall key <- SWAP.keys :: ':' !in key
    ensures forall key <- VM_STAT.keys :: ' ' !in key
  {
  }

  lemma KeysToldApart()
    ensures EasilyToldApart(MEMORY.keys) && EasilyToldApart(SWAP.keys) && EasilyToldApart(VM_STAT.keys)
  {
  }

  /** The two-byte prefixes in the source belong to its keys, so every result about a sound format holds
      of all three parsers. */
  lemma {:induction false} FormatsAreSound()
    ensures MEMORY.Sound() && SWAP.Sound() && VM_STAT.Sound()
  {
    MemoryPrefixes();
    SwapPrefixes();
    KeysWithoutSeparator();
    KeysToldApart();
  }

  /** `p` holds of every name in the text and the field that it fills. */
  ghost predicate ForMemory(p: (string, nat) -> bool, m: Memory) {
    && p("MemTotal", m.total)
    && p("MemFree", m.free)
    && p("MemAvailable", m.available)
    && p("Buffers", m.buffers)
    && p("Cached", m.cached)
    && p("Active", m.active)
    && p("Inactive", m.inactive)
    && p("Shmem", m.shared)
  }

  /** The text prints the number in exactly one line, behind the name, a colon and spaces, with its unit. */
  ghost function PrintsIn(lines: seq<string>): (string, nat) -> bool {
    (name: string, n: nat) => PrintedOnce(lines, name + [':'], " kB", n)
  }

  /** Some line of the text shows the number behind the name and a colon. */
  ghost function SaysIn(lines: seq<string>): (string, nat) -> bool {
    (name: string, n: nat) => Says(':', lines, name, n)
  }

  function Fields(m: Memory): seq<nat> {
    [m.total, m.free, m.available, m.buffers, m.cached, m.active, m.inactive, m.shared]
  }

  ghost predicate ForAll(p: (string, nat) -> bool, keys: seq<string>, v: seq<nat>)
    requires |keys| <= |v|
  {
    forall i | 0 <= i < |keys| :: p(keys[i], v[i])
  }

  lemma NamesAreKeys(p: (string, nat) -> bool, m: Memory)
    ensures |MEMORY.keys| == 8
    ensures ForMemory(p, m) <==> ForAll(p, MEMORY.keys, Fields(m))
  {
    var keys, v := MEMORY.keys, Fields(m);
    if ForAll(p, keys, v) {
      assert p(keys[0], v[0]) && p(keys[1], v[1]) && p(keys[2], v[2]) && p(keys[3], v[3]);
      assert p(keys[4], v[4]) && p(keys[5], v[5]) && p(keys[6], v[6]) && p(keys[7], v[7]);
    }
  }

  lemma MemoryFromRecord(lines: seq<string>, m: Memory)
    ensures MemoryOf(lines) == Ok(m) <==> Parse(MEMORY, lines) == Ok(Fields(m))
  {
    var r := Parse(MEMORY, lines);
    if r.Ok? {
      assert |r.value| == 8;
      assert MemoryOf(lines) == Ok(m) ==> r.value == Fields(m);
    }
  }

  /** No line is shorter than two bytes. */
  predicate HaveTwoBytes(lines: seq<string>) {
    forall line <- lines :: |line| >= 2 || (|line| == 1 && line[0] as int >= 128)
  }

  lemma TwoBytesAreReadable(lines: seq<string>)
    requires HaveTwoBytes(lines)
    ensures Readable(lines)
  {
  }

  lemma {:induction false} AllPrinted(f: Format, lines: seq<string>, v: seq<nat>)
    requires f.Sound() && f.separator == ':' && |f.keys| == |v| && HaveTwoBytes(lines)
    requires forall n <- v :: n <= 18446744073709551615
    requires ForAll(PrintsIn(lines), f.keys, v)
    ensures Parse(f, lines) == Ok(v)
  {
    forall i | 0 <= i < |f.keys|
      ensures v[i] <= 18446744073709551615 && PrintedOnce(lines, f.keys[i] + [f.separator], " kB", v[i])
    {
      assert v[i] in v;
      assert PrintsIn(lines)(f.keys[i], v[i]);
    }
    TwoBytesAreReadable(lines);
    PrintedText(f, lines, " kB", v);
  }

  lemma {:induction false} AllSaid(f: Format, lines: seq<string>)
    requires f.Sound() && f.separator == ':' && HaveTwoBytes(lines) && TagsOnce(f, lines)
    ensures Parse(f, lines).Ok? ==> ForAll(SaysIn(lines), f.keys, Parse(f, lines).value)
  {
    TwoBytesAreReadable(lines);
    TextMeaning(f, lines);
  }

  lemma {:induction false} SaidIsOk(f: Format, lines: seq<string>, v: seq<nat>)
    requires f.Sound() && f.separator == ':' && HaveTwoBytes(lines) && TagsOnce(f, lines)
    requires |v| == |f.keys| && ForAll(SaysIn(lines), f.keys, v)
    ensures Parse(f, lines).Ok?
  {
    TwoBytesAreReadable(lines);
    TextMeaning(f, lines);
    forall i | 0 <= i < |f.keys|
      ensures SaysAny(':', lines, f.keys[i])
    {
      assert SaysIn(lines)(f.keys[i], v[i]);
    }
  }

  /** The record of a text with one printed line for each of the eight names, with any number of spaces and
      any 64-bit number, anywhere among lines that begin with none of the names and a colon. */
  lemma {:induction false} MemoryOfText(lines: seq<string>, m: Memory)
    requires HaveTwoBytes(lines) && forall n <- Fields(m) :: n <= 18446744073709551615
    requires ForMemory(PrintsIn(lines), m)
    ensures MemoryOf(lines) == Ok(m)
  {
    NamesAreKeys(PrintsIn(lines), m);
    MemoryPrinted(lines, Fields(m));
    MemoryFromRecord(lines, m);
  }

  lemma {:induction false} MemoryPrinted(lines: seq<string>, v: seq<nat>)
    requires HaveTwoBytes(lines) && |v| == |MEMORY.keys| && forall n <- v :: n <= 18446744073709551615
    requires ForAll(PrintsIn(lines), MEMORY.keys, v)
    ensures Parse(MEMORY, lines) == Ok(v)
  {
    FormatsAreSound();
    AllPrinted(MEMORY, lines, v);
  }

  /** When none of the names begins two lines, every field of an accepted text is the number in the line
      that bears its name, and a text is accepted iff each name has a line with a valid number. */
  lemma {:induction false} MemoryMeaning(lines: seq<string>)
    requires HaveTwoBytes(lines) && TagsOnce(MEMORY, lines)
    ensures MemoryOf(lines).Ok? <==> exists m :: ForMemory(SaysIn(lines), m)
    ensures MemoryOf(lines).Ok? ==> ForMemory(SaysIn(lines), MemoryOf(lines).value)
  {
    if MemoryOf(lines).Ok? {
      MemorySays(lines, MemoryOf(lines).value);
    }
    if m :| ForMemory(SaysIn(lines), m) {
      NamesAreKeys(SaysIn(lines), m);
      MemoryAccepts(lines, Fields(m));
    }
  }

  lemma {:induction false} MemorySays(lines: seq<string>, m: Memory)
    requires HaveTwoBytes(lines) && TagsOnce(MEMORY, lines) && MemoryOf(lines) == Ok(m)
    ensures ForMemory(SaysIn(lines), m)
  {
    MemoryFromRecord(lines, m);
    NamesAreKeys(SaysIn(lines), m);
    FormatsAreSound();
    AllSaid(MEMORY, lines);
  }

  lemma {:induction false} MemoryAccepts(lines: seq<string>, v: seq<nat>)
    requires HaveTwoBytes(lines) && TagsOnce(MEMORY, lines)
    requires |v| == |MEMORY.keys| && ForAll(SaysIn(lines), MEMORY.keys, v)
    ensures Parse(MEMORY, lines).Ok?
  {
    FormatsAreSound();
    SaidIsOk(MEMORY, lines, v);
  }

  ghost predicate IsSwapFormat(f: Format) {
    f.Sound() && f.separator == ':' && |f.keys| == 2 && f.keys[0] == "SwapTotal" && f.keys[1] == "SwapFree"
  }

  lemma SwapFormat()
    ensures IsSwapFormat(SWAP)
  {
    FormatsAreSound();
  }

  lemma {:induction false} TwoPrinted(f: Format, lines: seq<string>, total: nat, free: nat)
    requires IsSwapFormat(f) && HaveTwoBytes(lines) && total <= 18446744073709551615 && free <= 18446744073709551615
    requires PrintedOnce(lines, "SwapTotal" + [':'], " kB", total) && PrintedOnce(lines, "SwapFree" + [':'], " kB", free)
    ensures Parse(f, lines) == Ok([total, free])
  {
    TwoBytesAreReadable(lines);
    PrintedText(f, lines, " kB", [total, free]);
  }

  lemma {:induction false} TwoSaid(f: Format, lines: seq<string>)
    requires IsSwapFormat(f) && HaveTwoBytes(lines) && TagsOnce(f, lines)
    ensures var r := Parse(f, lines);
            && (r.Ok? <==> SaysAny(':', lines, "SwapTotal") && SaysAny(':', lines, "SwapFree"))
            && (r.Ok? ==> Says(':', lines, "SwapTotal", r.value[0]) && Says(':', lines, "SwapFree", r.value[1]))
  {
    TwoBytesAreReadable(lines);
    TextMeaning(f, lines);
    var r := Parse(f, lines);
    assert r.Ok? ==> Says(':', lines, f.keys[0], r.value[0]) && Says(':', lines, f.keys[1], r.value[1]);
    assert r.Ok? ==> SaysAny(':', lines, f.keys[0]) && SaysAny(':', lines, f.keys[1]);
  }

  /** The two swap lines give the two fields, with any number of spaces and any 64-bit number. */
  lemma {:induction false} SwapOfText(lines: seq<string>, total: nat, free: nat, vmStat: VmStat)
    requires HaveTwoBytes(lines) && total <= 18446744073709551615 && free <= 18446744073709551615
    requires PrintedOnce(lines, "SwapTotal" + [':'], " kB", total) && PrintedOnce(lines, "SwapFree" + [':'], " kB", free)
    ensures SwapOf(lines, vmStat) == Ok(Swap(total, free, vmStat))
  {
    SwapFormat();
    TwoPrinted(SWAP, lines, total, free);
  }

  /** The same of any text in which neither of the two names begins two lines. */
  lemma {:induction false} SwapMeaning(lines: seq<string>, vmStat: VmStat)
    requires HaveTwoBytes(lines) && TagsOnce(SWAP, lines)
    ensures SwapOf(lines, vmStat).Ok? <==> SaysAny(':', lines, "SwapTotal") && SaysAny(':', lines, "SwapFree")
    ensures SwapOf(lines, vmStat).Ok? ==>
              var s := SwapOf(lines, vmStat).value;
              Says(':', lines, "SwapTotal", s.total) && Says(':', lines, "SwapFree", s.free) && s.vmStat == vmStat
  {
    SwapFormat();
    TwoSaid(SWAP, lines);
  }

  // ----- swap traffic -----

  /** All lines are read; a later line for a key overwrites an earlier one. Values count blocks of four
      kilobytes, and the product is checked. */
  function ScanBlocks(f: Format, lines: seq<string>, record: seq<Option<nat>>): (r: Outcome<seq<Option<nat>>>)
    requires |record| == |f.keys|
    ensures r.Ok? ==> |r.value| == |f.keys|
  {
    if lines == [] then Ok(record)
    else if TooShort(lines[0]) then Panic
    else
      match ReadFiltered(f, lines[0])
      case Skip => ScanBlocks(f, lines[1..], record)
      case Bad(_) => Err(BadNumber)
      case Set(i, v) =>
        if 4 * v > U64.hi then Panic else ScanBlocks(f, lines[1..], record[i := Some(4 * v)])
  }

  function VmStatOf(lines: seq<string>): Outcome<VmStat> {
    var v :- ScanBlocks(VM_STAT, lines, [None, None]);
    Ok(VmStat(v[0], v[1]))
  }

  method VmStatFromStr(lines: seq<string>) returns (r: Outcome<VmStat>)
    ensures r == VmStatOf(lines)
  {
    var record: seq<Option<nat>> := [None, None];
    ghost var left := lines;
    for n := 0 to |lines|
      invariant left == lines[n..] && |record| == 2
      invariant ScanBlocks(VM_STAT, left, record) == ScanBlocks(VM_STAT, lines, [None, None])
    {
      var line := lines[n];
      left := left[1..];
      if TooShort(line) {
        return Panic;
      }
      match ReadFiltered(VM_STAT, line) {
        case Skip =>
        case Bad(_) =>
          return Err(BadNumber);
        case Set(field, value) =>
          if 4 * value > U64.hi {
            return Panic;
          }
          record := record[field := Some(4 * value)];
      }
    }
    return Ok(VmStat(record[0], record[1]));
  }

  /** The line at `a` is the last one for key number `i`. */
  ghost predicate LastFor(f: Format, lines: seq<string>, i: nat, a: nat) {
    && a < |lines| && Read(f, lines[a]).Set? && Read(f, lines[a]).key == i
    && forall b | a < b < |lines| :: !(Read(f, lines[b]).Set? && Read(f, lines[b]).key == i)
  }

  ghost predicate Fine(f: Format, line: string) {
    !Read(f, line).Bad? && (Read(f, line).Set? ==> 4 * Read(f, line).value <= U64.hi)
  }

  /** A field holds four times the value of the last line with its key, and what it held before if there
      is no such line. */
  ghost predicate HoldsLast(f: Format, lines: seq<string>, i: nat, before: Option<nat>, after: Option<nat>) {
    if HasValue(f, lines, i)
    then exists a: nat :: LastFor(f, lines, i, a) && after == Some(4 * Read(f, lines[a]).value)
    else after == before
  }

  function Updated(f: Format, line: string, i: nat, before: Option<nat>): Option<nat> {
    var h := Read(f, line);
    if h.Set? && h.key == i then Some(4 * h.value) else before
  }

  lemma {:induction false} HoldsLastStep(f: Format, lines: seq<string>, i: nat, before: Option<nat>, after: Option<nat>)
    requires lines != [] && HoldsLast(f, lines[1..], i, Updated(f, lines[0], i, before), after)
    ensures HoldsLast(f, lines, i, before, after)
  {
    var line, rest := lines[0], lines[1..];
    assert forall x :: x in lines <==> x == line || x in rest;
    assert forall b | 0 < b < |lines| :: lines[b] == rest[b - 1] && rest[b - 1] in rest;
    if HasValue(f, rest, i) {
      var a: nat :| LastFor(f, rest, i, a) && after == Some(4 * Read(f, rest[a]).value);
      assert lines[a + 1] == rest[a];
      assert LastFor(f, lines, i, a + 1);
    } else if Read(f, line).Set? && Read(f, line).key == i {
      assert LastFor(f, lines, i, 0);
    }
  }

  /** The scan succeeds iff every wanted value parses and fits, and then the last line for a key wins. */
  lemma {:induction false} LastLineWins(f: Format, lines: seq<string>, record: seq<Option<nat>>)
    requires f.Sound() && Readable(lines) && |record| == |f.keys|
    ensures var r := ScanBlocks(f, lines, record);
            && (r.Ok? <==> forall line <- lines :: Fine(f, line))
            && (r.Ok? ==> forall i | 0 <= i < |f.keys| :: HoldsLast(f, lines, i, record[i], r.value[i]))
  {
    if lines != [] {
      var line, rest := lines[0], lines[1..];
      assert line in lines && !TooShort(line);
      assert forall x :: x in lines <==> x == line || x in rest;
      FilterChangesNothing(f, line);
      if Fine(f, line) {
        var h := Read(f, line);
        var next := if h.Set? then record[h.key := Some(4 * h.value)] else record;
        LastLineWins(f, rest, next);
        var r := ScanBlocks(f, rest, next);
        forall i | r.Ok? && 0 <= i < |f.keys|
          ensures HoldsLast(f, lines, i, record[i], r.value[i])
        {
          assert next[i] == Updated(f, line, i, record[i]);
          HoldsLastStep(f, lines, i, record[i], r.value[i]);
        }
      }
    }
  }

  /** Every line with the tag shows a number that fits into 64 bits as a number of kilobytes. */
  ghost predicate AllFit(lines: seq<string>, tag: string) {
    forall line <- lines | tag <= line :: exists v: nat :: v <= 4611686018427387903 && Shows(line, tag, v)
  }

  /** The line at `a` is the last one with the tag and shows `v`. */
  ghost predicate LastShows(lines: seq<string>, tag: string, a: nat, v: nat) {
    && a < |lines| && Shows(lines[a], tag, v)
    && forall b | a < b < |lines| :: !(tag <= lines[b])
  }

  /** Four times what the last line with the tag shows, and nothing iff there is no such line. */
  ghost predicate LastTimesFour(lines: seq<string>, tag: string, field: Option<nat>) {
    match field
    case None => forall line <- lines :: !(tag <= line)
    case Some(w) => exists a: nat, v: nat :: LastShows(lines, tag, a, v) && w == 4 * v
  }

  lemma {:induction false} FineExact(f: Format, line: string)
    requires f.Sound()
    ensures Fine(f, line) <==>
              forall i | 0 <= i < |f.keys| && f.keys[i] + [f.separator] <= line ::
                exists v: nat :: v <= 4611686018427387903 && Shows(line, f.keys[i] + [f.separator], v)
  {
    var h := Read(f, line);
    forall i | 0 <= i < |f.keys|
      ensures (!h.Skip? && h.key == i) <==> f.keys[i] + [f.separator] <= line
      ensures forall v: nat :: h == Set(i, v) <==> Shows(line, f.keys[i] + [f.separator], v)
    {
      ReadExact(f, line, i);
    }
    assert h.Set? ==> Shows(line, f.keys[h.key] + [f.separator], h.value);
  }

  lemma {:induction false} AllFineExact(f: Format, lines: seq<string>)
    requires f.Sound()
    ensures (forall line <- lines :: Fine(f, line))
            <==> forall i | 0 <= i < |f.keys| :: AllFit(lines, f.keys[i] + [f.separator])
  {
    forall line <- lines
      ensures Fine(f, line) <==>
                forall i | 0 <= i < |f.keys| && f.keys[i] + [f.separator] <= line ::
                  exists v: nat :: v <= 4611686018427387903 && Shows(line, f.keys[i] + [f.separator], v)
    {
      FineExact(f, line);
    }
  }

  lemma {:induction false} HoldsLastExact(f: Format, lines: seq<string>, i: nat, field: Option<nat>)
    requires f.Sound() && i < |f.keys| && (forall line <- lines :: Fine(f, line))
    requires HoldsLast(f, lines, i, None, field)
    ensures LastTimesFour(lines, f.keys[i] + [f.separator], field)
  {
    var tag := f.keys[i] + [f.separator];
    forall line <- lines
      ensures (Read(f, line).Set? && Read(f, line).key == i) <==> tag <= line
      ensures forall v: nat :: Read(f, line) == Set(i, v) <==> Shows(line, tag, v)
    {
      ReadExact(f, line, i);
    }
    if HasValue(f, lines, i) {
      var a: nat :| LastFor(f, lines, i, a) && field == Some(4 * Read(f, lines[a]).value);
      assert LastShows(lines, tag, a, Read(f, lines[a]).value);
    }
  }

  ghost predicate IsVmFormat(f: Format) {
    f.Sound() && f.separator == ' ' && |f.keys| == 2 && f.keys[0] == "pswpin" && f.keys[1] == "pswpout"
  }

  lemma VmFormat()
    ensures IsVmFormat(VM_STAT)
  {
    FormatsAreSound();
  }

  lemma {:induction false} TwoCounts(f: Format, lines: seq<string>)
    requires IsVmFormat(f) && HaveTwoBytes(lines)
    ensures var r := ScanBlocks(f, lines, [None, None]);
            && (r.Ok? <==> AllFit(lines, "pswpin ") && AllFit(lines, "pswpout "))
            && (r.Ok? ==> LastTimesFour(lines, "pswpin ", r.value[0]) && LastTimesFour(lines, "pswpout ", r.value[1]))
  {
    TwoBytesAreReadable(lines);
    assert f.keys[0] + [f.separator] == "pswpin " && f.keys[1] + [f.separator] == "pswpout ";
    LastLineWins(f, lines, [None, None]);
    AllFineExact(f, lines);
    var r := ScanBlocks(f, lines, [None, None]);
    if r.Ok? {
      HoldsLastExact(f, lines, 0, r.value[0]);
      HoldsLastExact(f, lines, 1, r.value[1]);
    }
  }

  /** Both counters of a text: accepted iff all of their lines show numbers that fit fourfold, and then four
      times the number in the last line of each. */
  lemma {:induction false} VmStatMeaning(lines: seq<string>)
    requires HaveTwoBytes(lines)
    ensures VmStatOf(lines).Ok? <==> AllFit(lines, "pswpin ") && AllFit(lines, "pswpout ")
    ensures VmStatOf(lines).Ok? ==>
              && LastTimesFour(lines, "pswpin ", VmStatOf(lines).value.swapIn)
              && LastTimesFour(lines, "pswpout ", VmStatOf(lines).value.swapOut)
  {
    VmFormat();
    TwoCounts(VM_STAT, lines);
  }

  /** The line at `a` is the last one with the tag and prints `v`; all lines with the tag print such numbers. */
  ghost predicate PrintedLast(lines: seq<string>, tag: string, v: nat, a: nat) {
    && a < |lines| && lines[a] == tag + Print(v)
    && (forall b | a < b < |lines| :: !(tag <= lines[b]))
    && forall b | 0 <= b < a && tag <= lines[b] :: exists u: nat :: u <= 4611686018427387903 && lines[b] == tag + Print(u)
  }

  lemma {:induction false} PrintShows(tag: string, v: nat)
    requires v <= 4611686018427387903
    ensures Shows(tag + Print(v), tag, v)
  {
    PrintedShows(tag, 0, v, "");
    assert tag + Blanks(0) + Print(v) + "" == tag + Print(v);
  }

  lemma {:induction false} PrintedCount(lines: seq<string>, tag: string, v: nat, a: nat, field: Option<nat>)
    requires v <= 4611686018427387903 && PrintedLast(lines, tag, v, a)
    ensures AllFit(lines, tag)
    ensures LastTimesFour(lines, tag, field) ==> field == Some(4 * v)
  {
    PrintShows(tag, v);
    assert tag <= lines[a] && lines[a] in lines;
    forall line <- lines | tag <= line
      ensures exists u: nat :: u <= 4611686018427387903 && Shows(line, tag, u)
    {
      var b :| 0 <= b < |lines| && lines[b] == line;
      if b != a {
        var u: nat :| u <= 4611686018427387903 && lines[b] == tag + Print(u);
        PrintShows(tag, u);
      }
    }
    if LastTimesFour(lines, tag, field) {
      var b: nat, w: nat :| LastShows(lines, tag, b, w) && field == Some(4 * w);
      ShowsExact(lines[b], tag, w);
      assert b == a;
      ShowsOne(lines[a], tag, v, w);
    }
  }

  /** Printed counters, each behind its name and a space, are read back fourfold; earlier ones do not matter. */
  lemma {:induction false} VmStatOfText(lines: seq<string>, pagesIn: nat, pagesOut: nat, a: nat, b: nat)
    requires HaveTwoBytes(lines) && pagesIn <= 4611686018427387903 && pagesOut <= 4611686018427387903
    requires PrintedLast(lines, "pswpin ", pagesIn, a) && PrintedLast(lines, "pswpout ", pagesOut, b)
    ensures VmStatOf(lines) == Ok(VmStat(Some(4 * pagesIn), Some(4 * pagesOut)))
  {
    VmStatMeaning(lines);
    PrintedCount(lines, "pswpin ", pagesIn, a, None);
    PrintedCount(lines, "pswpout ", pagesOut, b, None);
    var s := VmStatOf(lines).value;
    PrintedCount(lines, "pswpin ", pagesIn, a, s.swapIn);
    PrintedCount(lines, "pswpout ", pagesOut, b, s.swapOut);
  }

  /** The first line at fault decides: a wanted line without a number is an error, and a number that does not
      fit fourfold or a line of fewer than two bytes is a panic. */
  lemma {:induction false} FirstFaultDecides(f: Format, front: seq<string>, line: string, rest: seq<string>, record: seq<Option<nat>>)
    requires f.Sound() && |record| == |f.keys| && Readable(front) && forall fine <- front :: Fine(f, fine)
    requires TooShort(line) || !Fine(f, line)
    ensures ScanBlocks(f, front + [line] + rest, record)
            == if ShowsNone(f, line) && !TooShort(line) then Err(BadNumber) else Panic
  {
    var lines := front + [line] + rest;
    if front == [] {
      assert lines[0] == line;
      FilterChangesNothing(f, line);
      BadExact(f, line);
    } else {
      assert front[0] in front;
      assert lines[0] == front[0] && lines[1..] == front[1..] + [line] + rest;
      FilterChangesNothing(f, front[0]);
      var h := Read(f, front[0]);
      FirstFaultDecides(f, front[1..], line, rest, if h.Set? then record[h.key := Some(4 * h.value)] else record);
    }
  }

  // ----- what the match counter does not see -----

  function Copies(line: string, n: nat): seq<string> {
    if n == 0 then [] else [line] + Copies(line, n - 1)
  }

  lemma {:induction false} RepeatedScan(f: Format, line: string, n: nat, record: seq<nat>, k: nat, v: nat)
    requires f.Sound() && |record| == |f.keys| && 1 <= n <= |f.keys|
    requires !TooShort(line) && Read(f, line) == Set(k, v)
    ensures Scan(f, Copies(line, n), record, |f.keys| - n) == Ok(record[k := v])
  {
    FilterChangesNothing(f, line);
    if n > 1 {
      assert Copies(line, n)[1..] == Copies(line, n - 1);
      RepeatedScan(f, line, n - 1, record[k := v], k, v);
      assert record[k := v][k := v] == record[k := v];
    }
  }

  /** One line repeated as often as there are keys is accepted, and all other fields stay zero. */
  lemma {:induction false} RepeatedKeyIsAccepted(f: Format, line: string, k: nat, v: nat)
    requires f.Sound() && !TooShort(line) && Read(f, line) == Set(k, v)
    ensures Parse(f, Copies(line, |f.keys|)) == Ok(Nothing(f)[k := v])
  {
    RepeatedScan(f, line, |f.keys|, Nothing(f), k, v);
  }
}
