/** Parsers of `key<separator> value` lines that look at two bytes of every line first. */
module KeyedLines {
  import opened Wrappers
  import opened Bytes
  import opened Decimal
  import opened Permutations
  import opened Tokens

  /** The wanted keys, in the order of the fields they fill, and the two-byte beginnings that are let through. */
  datatype Format = Format(separator: char, keys: seq<string>, prefixes: set<string>) {
    /** The prefilter knows every key, a key ends where the separator begins, and none stands for two fields. */
    ghost predicate Sound() {
      && keys != []
      && (forall key <- keys :: separator !in key)
      && (forall key <- keys :: |key| >= 2 && key[..2] in prefixes)
      && (forall i, j | 0 <= i < j < |keys| :: keys[i] != keys[j])
    }
  }

  /** What a line says: nothing that is wanted, a wanted key with a bad number, or a value for a key. */
  datatype Hit = Skip | Bad(key: nat) | Set(key: nat, value: nat)

  function TrimStart(s: string): string {
    if s != [] && IsWhitespace(s[0]) then TrimStart(s[1..]) else s
  }

  /** The line as it is read without the prefilter. */
  function Read(f: Format, line: string): (h: Hit)
    ensures !h.Skip? ==> h.key < |f.keys|
  {
    var parts := SplitOnce(line, f.separator);
    var i := IndexOf(f.keys, parts[0]);
    if i == |f.keys| || |parts| == 1 then Skip else
      match ParseInt(U64, SplitOnce(TrimStart(parts[1]), ' ')[0])
      case None => Bad(i)
      case Some(v) => Set(i, v)
  }

  /** `line.as_bytes()[..2]` panics on a line of fewer than two bytes. */
  predicate TooShort(line: string) {
    line == [] || (|line| == 1 && line[0] as int < 0x80)
  }

  predicate Passes(f: Format, line: string) {
    |line| >= 2 && line[..2] in f.prefixes
  }

  function ReadFiltered(f: Format, line: string): Hit {
    if Passes(f, line) then Read(f, line) else Skip
  }

  /** The prefilter rejects no line that has a wanted key. */
  lemma {:induction false} FilterChangesNothing(f: Format, line: string)
    requires f.Sound()
    ensures ReadFiltered(f, line) == Read(f, line)
  {
    var parts := SplitOnce(line, f.separator);
    var i := IndexOf(f.keys, parts[0]);
    if i < |f.keys| {
      assert f.keys[i] in f.keys;
      assert line[..2] == parts[0][..2];
    }
  }

  /** The loop over the lines: it returns at the match that completes the count of keys. */
  function Scan(f: Format, lines: seq<string>, record: seq<nat>, matched: nat): (r: Outcome<seq<nat>>)
    requires |record| == |f.keys|
    ensures r.Ok? ==> |r.value| == |f.keys|
  {
    if lines == [] then Err(MissingData)
    else if TooShort(lines[0]) then Panic
    else
      match ReadFiltered(f, lines[0])
      case Skip => Scan(f, lines[1..], record, matched)
      case Bad(_) => Err(BadNumber)
      case Set(i, v) =>
        if matched + 1 == |f.keys| then Ok(record[i := v])
        else Scan(f, lines[1..], record[i := v], matched + 1)
  }

  function Nothing(f: Format): seq<nat> {
    seq(|f.keys|, i => 0)
  }

  function Parse(f: Format, lines: seq<string>): Outcome<seq<nat>> {
    Scan(f, lines, Nothing(f), 0)
  }

  method ParseLines(f: Format, lines: seq<string>) returns (r: Outcome<seq<nat>>)
    ensures r == Parse(f, lines)
  {
    var record: seq<nat> := Nothing(f);
    var matched := 0;
    ghost var left := lines;
    for n := 0 to |lines|
      invariant left == lines[n..] && |record| == |f.keys|
      invariant Scan(f, left, record, matched) == Parse(f, lines)
    {
      var line := lines[n];
      left := left[1..];
      if TooShort(line) {
        return Panic;
      }
      if !Passes(f, line) {
        continue;
      }
      var parts := SplitOnce(line, f.separator);
      var field := IndexOf(f.keys, parts[0]);
      if field == |f.keys| || |parts| == 1 {
        continue;
      }
      match ParseInt(U64, SplitOnce(TrimStart(parts[1]), ' ')[0]) {
        case None =>
          return Err(BadNumber);
        case Some(v) =>
          record := record[field := v];
      }
      matched := matched + 1;
      if matched == |f.keys| {
        return Ok(record);
      }
    }
    return Err(MissingData);
  }

  /** The match that completes the count ends the parse, and so does a failure: what follows is not even
      looked at. Only a text that is short of matches can be completed. */
  lemma {:induction false} ScanStops(f: Format, front: seq<string>, rest: seq<string>, record: seq<nat>, matched: nat)
    requires |record| == |f.keys|
    ensures Scan(f, front, record, matched) != Err(MissingData) ==>
              Scan(f, front + rest, record, matched) == Scan(f, front, record, matched)
  {
    if front != [] {
      assert (front + rest)[0] == front[0] && (front + rest)[1..] == front[1..] + rest;
      match ReadFiltered(f, front[0])
      case Skip => ScanStops(f, front[1..], rest, record, matched);
      case Bad(_) =>
      case Set(i, v) => ScanStops(f, front[1..], rest, record[i := v], matched + 1);
    }
  }

  lemma {:induction false} EarlyExit(f: Format, front: seq<string>, rest: seq<string>)
    requires Parse(f, front) != Err(MissingData)
    ensures Parse(f, front + rest) == Parse(f, front)
  {
    ScanStops(f, front, rest, Nothing(f), 0);
  }

  /** The parser without prefilter and without early exit: all lines are read, and the matches are
      counted at the end. */
  function ScanAll(f: Format, lines: seq<string>, record: seq<nat>, matched: nat): Outcome<seq<nat>>
    requires |record| == |f.keys|
  {
    if lines == [] then if matched == |f.keys| then Ok(record) else Err(MissingData)
    else
      match Read(f, lines[0])
      case Skip => ScanAll(f, lines[1..], record, matched)
      case Bad(_) => Err(BadNumber)
      case Set(i, v) => ScanAll(f, lines[1..], record[i := v], matched + 1)
  }

  predicate Readable(lines: seq<string>) {
    forall line <- lines :: !TooShort(line)
  }

  /** No two lines have the same wanted key. */
  ghost predicate AtMostOnce(f: Format, lines: seq<string>) {
    forall a, b | 0 <= a < b < |lines| && !Read(f, lines[a]).Skip? && !Read(f, lines[b]).Skip? ::
      Read(f, lines[a]).key != Read(f, lines[b]).key
  }

  ghost predicate Unseen(f: Format, lines: seq<string>, seen: set<nat>) {
    forall line <- lines | !Read(f, line).Skip? :: Read(f, line).key !in seen
  }

  /** A line gives key number `i` the value `v`. */
  ghost predicate Gives(f: Format, lines: seq<string>, i: nat, v: nat) {
    exists line <- lines :: Read(f, line) == Set(i, v)
  }

  ghost predicate HasValue(f: Format, lines: seq<string>, i: nat) {
    exists line <- lines :: Read(f, line).Set? && Read(f, line).key == i
  }

  function Below(n: nat): (s: set<nat>)
    ensures |s| == n
    ensures forall i: nat :: i in s <==> i < n
  {
    if n == 0 then {} else Below(n - 1) + {n - 1}
  }

  lemma FullSet(s: set<nat>, n: nat)
    requires s <= Below(n)
    ensures |s| <= n
    ensures |s| == n <==> s == Below(n)
  {
    assert Below(n) == s + (Below(n) - s);
    assert |Below(n)| == |s| + |Below(n) - s|;
  }

  lemma {:induction false} NothingLeft(f: Format, lines: seq<string>, record: seq<nat>)
    requires |record| == |f.keys| && Unseen(f, lines, Below(|f.keys|))
    ensures ScanAll(f, lines, record, |f.keys|) == Ok(record)
  {
    if lines != [] {
      assert lines[0] in lines;
      NothingLeft(f, lines[1..], record);
    }
  }

  /** The loop, with the keys in `seen` already matched, finds what the full scan finds: a value for
      each of the other keys. */
  ghost predicate ScanIsExact(f: Format, lines: seq<string>, record: seq<nat>, seen: set<nat>)
    requires |record| == |f.keys|
  {
    var r := Scan(f, lines, record, |seen|);
    && r == ScanAll(f, lines, record, |seen|)
    && (r.Ok? <==> HasOthers(f, lines, seen))
    && (r.Ok? ==> forall i | 0 <= i < |f.keys| ::
          if i in seen then r.value[i] == record[i] else Gives(f, lines, i, r.value[i]))
  }

  ghost predicate HasOthers(f: Format, lines: seq<string>, seen: set<nat>) {
    forall i | 0 <= i < |f.keys| && i !in seen :: HasValue(f, lines, i)
  }

  lemma OthersAfterSet(f: Format, lines: seq<string>, seen: set<nat>, k: nat, v: nat)
    requires lines != [] && Read(f, lines[0]) == Set(k, v) && k !in seen
    ensures HasOthers(f, lines, seen) <==> HasOthers(f, lines[1..], seen + {k})
  {
    SetHead(f, lines, k, v);
    assert lines[0] in lines && HasValue(f, lines, k);
  }

  lemma {:induction false} ScanOfSkip(f: Format, lines: seq<string>, record: seq<nat>, seen: set<nat>)
    requires f.Sound() && |record| == |f.keys|
    requires lines != [] && !TooShort(lines[0]) && Read(f, lines[0]) == Skip
    requires ScanIsExact(f, lines[1..], record, seen)
    ensures ScanIsExact(f, lines, record, seen)
  {
    FilterChangesNothing(f, lines[0]);
    SkipHead(f, lines);
  }

  lemma {:induction false} ScanOfBad(f: Format, lines: seq<string>, record: seq<nat>, seen: set<nat>, k: nat)
    requires f.Sound() && |record| == |f.keys|
    requires lines != [] && !TooShort(lines[0]) && Read(f, lines[0]) == Bad(k) && k !in seen
    requires Unseen(f, lines[1..], {k})
    ensures ScanIsExact(f, lines, record, seen)
  {
    FilterChangesNothing(f, lines[0]);
    forall line <- lines
      ensures !(Read(f, line).Set? && Read(f, line).key == k)
    {
      assert line == lines[0] || line in lines[1..];
    }
    assert !HasValue(f, lines, k);
  }

  lemma {:induction false} ScanOfSet(f: Format, lines: seq<string>, record: seq<nat>, seen: set<nat>, k: nat, v: nat)
    requires f.Sound() && |record| == |f.keys|
    requires lines != [] && !TooShort(lines[0]) && Read(f, lines[0]) == Set(k, v)
    requires k !in seen && |seen| + 1 < |f.keys|
    requires ScanIsExact(f, lines[1..], record[k := v], seen + {k})
    ensures ScanIsExact(f, lines, record, seen)
  {
    FilterChangesNothing(f, lines[0]);
    OthersAfterSet(f, lines, seen, k, v);
    SetHead(f, lines, k, v);
    assert |seen + {k}| == |seen| + 1;
    assert Scan(f, lines, record, |seen|) == Scan(f, lines[1..], record[k := v], |seen + {k}|);
    assert Gives(f, lines, k, v) by {
      assert lines[0] in lines;
    }
  }

  lemma {:induction false} LastSetStep(f: Format, lines: seq<string>, record: seq<nat>, matched: nat, k: nat, v: nat)
    requires f.Sound() && |record| == |f.keys| == matched + 1
    requires lines != [] && !TooShort(lines[0]) && Read(f, lines[0]) == Set(k, v)
    requires Unseen(f, lines[1..], Below(|f.keys|))
    ensures Scan(f, lines, record, matched) == ScanAll(f, lines, record, matched) == Ok(record[k := v])
  {
    FilterChangesNothing(f, lines[0]);
    NothingLeft(f, lines[1..], record[k := v]);
  }

  lemma {:induction false} ScanOfLastSet(f: Format, lines: seq<string>, record: seq<nat>, seen: set<nat>, k: nat, v: nat)
    requires f.Sound() && |record| == |f.keys|
    requires lines != [] && !TooShort(lines[0]) && Read(f, lines[0]) == Set(k, v)
    requires k !in seen && seen + {k} == Below(|f.keys|) && Unseen(f, lines[1..], seen + {k})
    ensures ScanIsExact(f, lines, record, seen)
  {
    OthersAfterSet(f, lines, seen, k, v);
    assert |seen + {k}| == |seen| + 1;
    LastSetStep(f, lines, record, |seen|, k, v);
    assert Gives(f, lines, k, v) by {
      assert lines[0] in lines;
    }
    assert forall i: nat | i < |f.keys| :: i in seen || i == k;
  }

  lemma {:induction false} ScanMeaning(f: Format, lines: seq<string>, record: seq<nat>, seen: set<nat>)
    requires f.Sound() && Readable(lines) && AtMostOnce(f, lines) && Unseen(f, lines, seen)
    requires |record| == |f.keys| && seen <= Below(|f.keys|) && |seen| < |f.keys|
    ensures ScanIsExact(f, lines, record, seen)
    decreases |lines|
  {
    FullSet(seen, |f.keys|);
    if lines == [] {
      var i :| i in Below(|f.keys|) && i !in seen;
      assert !HasValue(f, lines, i);
    } else {
      var line, rest := lines[0], lines[1..];
      assert line in lines && !TooShort(line);
      RestKeepsOnce(f, lines);
      match Read(f, line)
      case Skip =>
        ScanMeaning(f, rest, record, seen);
        ScanOfSkip(f, lines, record, seen);
      case Bad(k) =>
        ScanOfBad(f, lines, record, seen, k);
      case Set(k, v) =>
        var more := seen + {k};
        FullSet(more, |f.keys|);
        if more == Below(|f.keys|) {
          ScanOfLastSet(f, lines, record, seen, k, v);
        } else {
          ScanMeaning(f, rest, record[k := v], more);
          ScanOfSet(f, lines, record, seen, k, v);
        }
    }
  }

  lemma {:induction false} RestKeepsOnce(f: Format, lines: seq<string>)
    requires lines != [] && AtMostOnce(f, lines)
    ensures AtMostOnce(f, lines[1..])
    ensures !Read(f, lines[0]).Skip? ==> Unseen(f, lines[1..], {Read(f, lines[0]).key})
  {
    assert forall k | 0 <= k < |lines| - 1 :: lines[1..][k] == lines[k + 1];
  }

  lemma SkipHead(f: Format, lines: seq<string>)
    requires lines != [] && Read(f, lines[0]).Skip?
    ensures forall i: nat :: HasValue(f, lines, i) <==> HasValue(f, lines[1..], i)
    ensures forall i: nat, v: nat :: Gives(f, lines, i, v) <==> Gives(f, lines[1..], i, v)
  {
    assert lines == [lines[0]] + lines[1..];
    assert forall line :: line in lines <==> line == lines[0] || line in lines[1..];
  }

  lemma SetHead(f: Format, lines: seq<string>, k: nat, v: nat)
    requires lines != [] && Read(f, lines[0]) == Set(k, v)
    ensures forall i: nat | i != k :: HasValue(f, lines, i) <==> HasValue(f, lines[1..], i)
    ensures forall i: nat, u: nat | i != k :: Gives(f, lines, i, u) <==> Gives(f, lines[1..], i, u)
  {
    assert lines == [lines[0]] + lines[1..];
    assert forall line :: line in lines <==> line == lines[0] || line in lines[1..];
  }

  /** When no wanted key occurs twice, prefilter and early exit change nothing: the parse is the full
      scan, it succeeds iff every key has a line with a value, and every field is the value of its line. */
  lemma {:induction false} ParseMeaning(f: Format, lines: seq<string>)
    requires f.Sound() && Readable(lines) && AtMostOnce(f, lines)
    ensures var r := Parse(f, lines);
            && r == ScanAll(f, lines, Nothing(f), 0)
            && (r.Ok? <==> forall i | 0 <= i < |f.keys| :: HasValue(f, lines, i))
            && (r.Ok? ==> forall i | 0 <= i < |f.keys| :: Gives(f, lines, i, r.value[i]))
  {
    assert 0 in Below(|f.keys|);
    ScanMeaning(f, lines, Nothing(f), {});
  }

  lemma {:induction false} GivenOnce(f: Format, lines: seq<string>, i: nat, u: nat, v: nat)
    requires AtMostOnce(f, lines) && Gives(f, lines, i, u) && Gives(f, lines, i, v)
    ensures u == v
  {
    var x :| x in lines && Read(f, x) == Set(i, u);
    var y :| y in lines && Read(f, y) == Set(i, v);
    var a :| 0 <= a < |lines| && lines[a] == x;
    var b :| 0 <= b < |lines| && lines[b] == y;
  }

  lemma {:induction false} PermutedOnce(f: Format, lines: seq<string>, shuffled: seq<string>)
    requires multiset(lines) == multiset(shuffled) && AtMostOnce(f, lines)
    ensures AtMostOnce(f, shuffled)
  {
    forall a, b | 0 <= a < b < |shuffled| && !Read(f, shuffled[a]).Skip? && !Read(f, shuffled[b]).Skip?
      ensures Read(f, shuffled[a]).key != Read(f, shuffled[b]).key
    {
      var c, d := PermutedPositions(shuffled, lines, a, b);
    }
  }

  /** The order of the lines does not matter. */
  lemma {:induction false} OrderIsIrrelevant(f: Format, lines: seq<string>, shuffled: seq<string>)
    requires f.Sound() && Readable(lines) && AtMostOnce(f, lines)
    requires multiset(lines) == multiset(shuffled)
    ensures Parse(f, lines).Ok? <==> Parse(f, shuffled).Ok?
    ensures Parse(f, lines).Ok? ==> Parse(f, lines) == Parse(f, shuffled)
  {
    assert forall line :: line in lines <==> line in shuffled by {
      assert forall line :: line in lines <==> line in multiset(lines);
      assert forall line :: line in shuffled <==> line in multiset(shuffled);
    }
    PermutedOnce(f, lines, shuffled);
    ParseMeaning(f, lines);
    ParseMeaning(f, shuffled);
    assert forall i: nat :: HasValue(f, lines, i) <==> HasValue(f, shuffled, i);
    if Parse(f, lines).Ok? {
      var r, t := Parse(f, lines).value, Parse(f, shuffled).value;
      forall i | 0 <= i < |f.keys|
        ensures r[i] == t[i]
      {
        assert Gives(f, shuffled, i, t[i]) ==> Gives(f, lines, i, t[i]);
        GivenOnce(f, lines, i, r[i], t[i]);
      }
      assert r == t;
    }
  }

  /** The keys of the first `n` lines that are matched. */
  function Matched(f: Format, lines: seq<string>, n: nat): (ks: seq<nat>)
    ensures |ks| <= n
    ensures forall k <- ks :: k < |f.keys|
  {
    if lines == [] || n == 0 then [] else
      var h := ReadFiltered(f, lines[0]);
      if h.Set? then [h.key] + Matched(f, lines[1..], n - 1) else Matched(f, lines[1..], n)
  }

  lemma {:induction false} ScanMatches(f: Format, lines: seq<string>, record: seq<nat>, matched: nat)
    requires |record| == |f.keys| && matched < |f.keys| && Scan(f, lines, record, matched).Ok?
    ensures var ks := Matched(f, lines, |f.keys| - matched);
            && |ks| == |f.keys| - matched
            && forall i | 0 <= i < |f.keys| && i !in ks :: Scan(f, lines, record, matched).value[i] == record[i]
  {
    match ReadFiltered(f, lines[0])
    case Skip =>
      ScanMatches(f, lines[1..], record, matched);
    case Bad(_) =>
    case Set(i, v) =>
      if matched + 1 < |f.keys| {
        ScanMatches(f, lines[1..], record[i := v], matched + 1);
      }
  }

  ghost predicate Distinct(ks: seq<nat>) {
    forall a, b | 0 <= a < b < |ks| :: ks[a] != ks[b]
  }

  function KeySet(ks: seq<nat>): (s: set<nat>)
    ensures forall k :: k in s <==> k in ks
  {
    set k | k in ks
  }

  lemma DistinctTail(ks: seq<nat>)
    requires ks != []
    ensures Distinct(ks) <==> ks[0] !in ks[1..] && Distinct(ks[1..])
  {
    var tail := ks[1..];
    assert forall a | 0 <= a < |tail| :: tail[a] == ks[a + 1];
    if ks[0] in tail {
      var a :| 0 <= a < |tail| && tail[a] == ks[0];
      assert ks[a + 1] == ks[0];
    }
    if Distinct(tail) && ks[0] !in tail {
      assert forall b | 0 < b < |ks| :: ks[b] == tail[b - 1];
    }
  }

  lemma {:induction false} DistinctSize(ks: seq<nat>)
    ensures |KeySet(ks)| <= |ks|
    ensures |KeySet(ks)| == |ks| <==> Distinct(ks)
  {
    if ks != [] {
      DistinctSize(ks[1..]);
      DistinctTail(ks);
      assert KeySet(ks) == KeySet(ks[1..]) + {ks[0]};
    }
  }

  /** What success means on any input at all: as many matches as there are keys. A key that is missing
      keeps the value zero, and none is missing iff the matched lines have different keys. */
  lemma {:induction false} SuccessExact(f: Format, lines: seq<string>)
    requires f.Sound() && Parse(f, lines).Ok?
    ensures var ks := Matched(f, lines, |f.keys|);
            && |ks| == |f.keys|
            && (forall i | 0 <= i < |f.keys| && i !in ks :: Parse(f, lines).value[i] == 0)
            && ((forall i | 0 <= i < |f.keys| :: i in ks) <==> Distinct(ks))
  {
    ScanMatches(f, lines, Nothing(f), 0);
    var ks := Matched(f, lines, |f.keys|);
    DistinctSize(ks);
    FullSet(KeySet(ks), |f.keys|);
    if forall i | 0 <= i < |f.keys| :: i in ks {
      assert Below(|f.keys|) <= KeySet(ks);
    }
    if KeySet(ks) == Below(|f.keys|) {
      assert forall i: nat | i < |f.keys| :: i in KeySet(ks);
    }
  }
}
