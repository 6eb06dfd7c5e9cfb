/** The Unix environment parser: `NAME=value` records, each closed by NUL. */
module Environment {
  import opened Wrappers
  import opened Bytes

  datatype Entry = Entry(key: Blob, value: Blob)

  /** A record gives one entry, or none when it has no `=` behind its first byte. */
  function ParseRecord(kv: Blob): seq<Entry>
    requires kv != []
  {
    var i := IndexOf(kv[1..], EQUALS);
    if i == |kv| - 1 then [] else [Entry(kv[..i + 1], kv[i + 2..])]
  }

  /** What the environment block `b` means: its records up to the first empty one. */
  function Parse(b: Blob): seq<Entry> {
    var i := IndexOf(b, NUL);
    if i == |b| || i == 0 then [] else ParseRecord(b[..i]) + Parse(b[i + 1..])
  }

  lemma {:induction false} ParseStep(kv: Blob, rest: Blob)
    requires kv != [] && NUL !in kv
    ensures Parse(kv + [NUL] + rest) == ParseRecord(kv) + Parse(rest)
  {
    var b := kv + [NUL] + rest;
    IndexOfFirst(kv, NUL, rest);
    assert b[..|kv|] == kv && b[|kv| + 1..] == rest;
  }

  method ParseRecordOrSkip(kv: Blob) returns (entries: seq<Entry>)
    requires kv != []
    ensures entries == ParseRecord(kv)
  {
    var eq := Memchr(EQUALS, kv[1..]);
    NotFoundAtEnd(kv[1..], EQUALS);
    match eq {
      case Some(i) =>
        var delimiter := i + 1;
        entries := [Entry(kv[..delimiter], kv[delimiter + 1..])];
      case None =>
        entries := [];
    }
  }

  lemma {:induction false} ParseEnds(b: Blob)
    requires NUL !in b || IndexOf(b, NUL) == 0
    ensures Parse(b) == []
  {
    NotFoundAtEnd(b, NUL);
  }

  lemma {:induction false} ParseContinues(b: Blob, before: seq<Entry>, i: nat, kv: Blob, left: Blob)
    requires NUL in b && i == IndexOf(b, NUL) > 0
    requires i < |b| && kv == b[..i] && left == b[i + 1..]
    ensures before + ParseRecord(kv) + Parse(left) == before + Parse(b)
  {
    Assoc(before, ParseRecord(kv), Parse(left));
  }

  method FromBytes(bytes: Blob) returns (result: seq<Entry>)
    ensures result == Parse(bytes)
  {
    result := [];
    var position := 0;
    ghost var left, whole := bytes, Parse(bytes);
    var found := Memchr(NUL, bytes);
    while found.Some? && found.value > 0
      invariant position <= |bytes| && left == bytes[position..]
      invariant found == if NUL in left then Some(IndexOf(left, NUL)) else None
      invariant result + Parse(left) == whole
      decreases |bytes| - position
    {
      var offset := found.value;
      var kv := bytes[position..position + offset];
      ParseContinues(left, result, offset, kv, left[offset + 1..]);
      position := position + offset + 1;
      left := left[offset + 1..];
      var entries := ParseRecordOrSkip(kv);
      result := result + entries;
      found := Memchr(NUL, bytes[position..]);
    }
    ParseEnds(left);
  }

  /** The entries that can be written down and read back. */
  predicate WellFormedEntry(e: Entry) {
    e.key != [] && EQUALS !in e.key[1..] && NUL !in e.key && NUL !in e.value
  }

  predicate WellFormed(es: seq<Entry>) {
    forall e <- es :: WellFormedEntry(e)
  }

  function RecordOf(e: Entry): Blob {
    e.key + [EQUALS] + e.value
  }

  function RecordsOf(es: seq<Entry>): seq<Blob> {
    seq(|es|, i requires 0 <= i < |es| => RecordOf(es[i]))
  }

  function Encode(es: seq<Entry>): Blob {
    Terminated(RecordsOf(es), NUL)
  }

  lemma {:induction false} ParseRecordOf(e: Entry)
    requires WellFormedEntry(e)
    ensures ParseRecord(RecordOf(e)) == [e]
  {
    var kv := RecordOf(e);
    assert kv[1..] == e.key[1..] + [EQUALS] + e.value;
    IndexOfFirst(e.key[1..], EQUALS, e.value);
    assert kv[..|e.key|] == e.key && kv[|e.key| + 1..] == e.value;
  }

  lemma {:induction false} EncodeStep(es: seq<Entry>)
    requires es != []
    ensures Encode(es) == RecordOf(es[0]) + [NUL] + Encode(es[1..])
  {
    assert RecordsOf(es)[1..] == RecordsOf(es[1..]);
  }

  /** Encoded entries are read back exactly, and what follows them is read on its own. */
  lemma {:induction false} ParseEncode(es: seq<Entry>, rest: Blob)
    requires WellFormed(es)
    ensures Parse(Encode(es) + rest) == es + Parse(rest)
  {
    if es == [] {
      assert Encode(es) + rest == rest;
      assert es + Parse(rest) == Parse(rest);
    } else {
      var kv := RecordOf(es[0]);
      assert WellFormedEntry(es[0]);
      EncodeStep(es);
      Assoc(kv + [NUL], Encode(es[1..]), rest);
      ParseStep(kv, Encode(es[1..]) + rest);
      ParseRecordOf(es[0]);
      ParseEncode(es[1..], rest);
      Assoc([es[0]], es[1..], Parse(rest));
      assert es == [es[0]] + es[1..];
    }
  }

  /** The block ends at an empty record, so the bytes behind it are never read. */
  lemma {:induction false} RoundTrip(es: seq<Entry>, tail: Blob)
    requires WellFormed(es)
    ensures Parse(Encode(es)) == es
    ensures Parse(Encode(es) + [NUL] + tail) == es
  {
    ParseEncode(es, []);
    assert Encode(es) + [] == Encode(es);
    ParseEncode(es, [NUL] + tail);
    assert Encode(es) + ([NUL] + tail) == Encode(es) + [NUL] + tail;
    assert Parse([NUL] + tail) == [];
  }

  lemma {:induction false} ParseIsWellFormed(b: Blob)
    ensures WellFormed(Parse(b))
    ensures |Parse(b)| <= Count(b, NUL)
  {
    var i := IndexOf(b, NUL);
    CountSplit(b, NUL);
    if 0 < i < |b| {
      ParseIsWellFormed(b[i + 1..]);
      var kv := b[..i];
      var j := IndexOf(kv[1..], EQUALS);
      assert kv[..j + 1][1..] == kv[1..][..j];
    }
  }

  lemma {:induction false} CountSplit(b: Blob, x: Byte)
    ensures var i := IndexOf(b, x); Count(b, x) == if i == |b| then 0 else 1 + Count(b[i + 1..], x)
  {
    if b != [] && b[0] != x {
      CountSplit(b[1..], x);
      var j := IndexOf(b[1..], x);
      if j < |b| - 1 {
        assert b[1..][j + 1..] == b[j + 2..];
      }
    }
  }

  /** The records in front of the first empty one. */
  function UpToEmpty(rs: seq<Blob>): seq<Blob> {
    if rs == [] || rs[0] == [] then [] else [rs[0]] + UpToEmpty(rs[1..])
  }

  /** The records with a `=` behind their first byte, in order. */
  function Named(rs: seq<Blob>): seq<Blob> {
    if rs == [] then []
    else (if rs[0] != [] && 61 in rs[0][1..] then [rs[0]] else []) + Named(rs[1..])
  }

  lemma {:induction false} ParseRecordExact(kv: Blob)
    requires kv != []
    ensures RecordsOf(ParseRecord(kv)) == Named([kv])
  {
    var i := IndexOf(kv[1..], EQUALS);
    NotFoundAtEnd(kv[1..], EQUALS);
    if i < |kv| - 1 {
      assert kv[i + 1] == 61;
      assert kv[..i + 1] + [EQUALS] + kv[i + 2..] == kv;
      assert RecordsOf(ParseRecord(kv)) == [kv];
    }
  }

  lemma RecordsOfAppend(es: seq<Entry>, fs: seq<Entry>)
    ensures RecordsOf(es + fs) == RecordsOf(es) + RecordsOf(fs)
  {
  }

  /** For all bytes, the entries are exactly the records with a `=` behind their first byte among those in
      front of the first empty one, in order and number; records without it leave no trace. */
  lemma {:induction false} ParseExact(b: Blob)
    ensures RecordsOf(Parse(b)) == Named(UpToEmpty(Records(b, 0)))
  {
    var i := IndexOf(b, NUL);
    if 0 < i < |b| {
      var kv, rest := b[..i], b[i + 1..];
      ParseExact(rest);
      ParseRecordExact(kv);
      RecordsOfAppend(ParseRecord(kv), Parse(rest));
      ExactStep(kv, Records(rest, 0));
    }
  }

  lemma ExactStep(kv: Blob, rs: seq<Blob>)
    requires kv != []
    ensures Named(UpToEmpty([kv] + rs)) == Named([kv]) + Named(UpToEmpty(rs))
  {
    assert ([kv] + rs)[1..] == rs;
    var all := [kv] + UpToEmpty(rs);
    assert all[1..] == UpToEmpty(rs);
    assert Named([kv]) == (if 61 in kv[1..] then [kv] else []) + Named([]);
  }

  lemma {:induction false} NamedAreRecords(rs: seq<Blob>)
    ensures forall r <- Named(UpToEmpty(rs)) :: r in rs
  {
    if rs != [] && rs[0] != [] {
      NamedAreRecords(rs[1..]);
      assert rs == [rs[0]] + rs[1..];
      ExactStep(rs[0], rs[1..]);
    }
  }

  /** Every entry is written somewhere in the block. */
  lemma {:induction false} EntriesAreRecords(b: Blob)
    ensures forall e <- Parse(b) :: e.key + [61] + e.value in Records(b, 0)
  {
    ParseExact(b);
    NamedAreRecords(Records(b, 0));
    forall e <- Parse(b)
      ensures e.key + [61] + e.value in Records(b, 0)
    {
      var k :| 0 <= k < |Parse(b)| && Parse(b)[k] == e;
      assert RecordsOf(Parse(b))[k] == e.key + [61] + e.value;
    }
  }

  /** Parsing yields a normal form: writing it out and parsing again changes nothing. */
  lemma {:induction false} NormalForm(b: Blob)
    ensures Parse(Encode(Parse(b))) == Parse(b)
  {
    ParseIsWellFormed(b);
    RoundTrip(Parse(b), []);
  }

  /** The scan of `b` came to an empty record. */
  predicate StopsAtEmptyRecord(b: Blob) {
    var i := IndexOf(b, NUL);
    i < |b| && (i == 0 || StopsAtEmptyRecord(b[i + 1..]))
  }

  /** More input only ever adds entries at the end. */
  lemma {:induction false} PrefixMonotone(b: Blob, c: Blob)
    ensures Parse(b) <= Parse(b + c)
    ensures StopsAtEmptyRecord(b) ==> Parse(b + c) == Parse(b)
  {
    var i := IndexOf(b, NUL);
    if i < |b| {
      IndexOfPrefix(b, c, NUL);
      assert (b + c)[..i] == b[..i] && (b + c)[i + 1..] == b[i + 1..] + c;
      if i > 0 {
        PrefixMonotone(b[i + 1..], c);
      }
    }
  }

  /** A scan that ran out of bytes instead reads one more entry once it is completed. */
  lemma {:induction false} UnstoppedScanReadsOn(b: Blob)
    requires !StopsAtEmptyRecord(b)
    ensures |Parse(b + [65, EQUALS, NUL])| == |Parse(b)| + 1
  {
    var c: Blob := [65, EQUALS, NUL];
    var i := IndexOf(b, NUL);
    if i == |b| {
      var kv := b + [65, EQUALS];
      assert NUL !in kv by {
        assert b[..i] == b;
      }
      assert b + c == kv + [NUL] + [];
      IndexOfFirst(kv, NUL, []);
      assert (b + c)[..|kv|] == kv && (b + c)[|kv| + 1..] == [];
      assert kv[1..][|kv| - 2] == EQUALS;
      IndexOfPrefix(kv[1..], [], EQUALS);
      assert kv[1..] + [] == kv[1..];
    } else {
      IndexOfPrefix(b, c, NUL);
      assert (b + c)[..i] == b[..i] && (b + c)[i + 1..] == b[i + 1..] + c;
      UnstoppedScanReadsOn(b[i + 1..]);
    }
  }

  /** The exact condition under which nothing behind `b` can change what `b` means. */
  lemma {:induction false} ClosedIffStopped(b: Blob)
    ensures StopsAtEmptyRecord(b) <==> (forall c: Blob :: Parse(b + c) == Parse(b))
  {
    if StopsAtEmptyRecord(b) {
      forall c: Blob
        ensures Parse(b + c) == Parse(b)
      {
        PrefixMonotone(b, c);
      }
    } else {
      UnstoppedScanReadsOn(b);
    }
  }
}
