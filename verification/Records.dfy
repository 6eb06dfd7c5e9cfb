/** Walkers over packed buffers: macOS routing messages, Windows processor records and drive roots. */
module Records {
  import opened Wrappers
  import opened Bytes

  /** The records of a packed buffer, one behind the other. */
  function Packed<T>(rs: seq<seq<T>>): seq<T> {
    if rs == [] then [] else rs[0] + Packed(rs[1..])
  }

  lemma PackedHead<T>(rs: seq<seq<T>>, data: seq<T>, position: nat)
    requires rs != [] && position <= |data| && data[position..] == Packed(rs)
    ensures position + |rs[0]| <= |data|
    ensures data[position..position + |rs[0]|] == rs[0]
    ensures data[position + |rs[0]|..] == Packed(rs[1..])
    ensures forall k | 0 <= k < |rs[0]| :: data[position + k] == rs[0][k]
  {
    var left := data[position..];
    assert data[position + |rs[0]|..] == left[|rs[0]|..];
    assert data[position..position + |rs[0]|] == left[..|rs[0]|];
    assert forall k | 0 <= k < |rs[0]| :: data[position + k] == left[k];
  }

  // ----- macOS: interface messages among routing messages -----

  const HEADER_SIZE: nat := 4
  const MESSAGE_SIZE: nat := 168
  const RTM_IFINFO2: Byte := 18

  function Le16(low: Byte, high: Byte): nat {
    var l: int := low;
    l + 256 * high
  }

  predicate IsInterface(m: Blob)
    requires |m| >= HEADER_SIZE
  {
    m[3] == RTM_IFINFO2
  }

  /** A message gives its own length, and an interface message holds the whole structure. */
  predicate IsMessage(m: Blob) {
    |m| >= HEADER_SIZE && Le16(m[0], m[1]) == |m| && (IsInterface(m) ==> |m| >= MESSAGE_SIZE)
  }

  predicate AreMessages(ms: seq<Blob>) {
    forall m <- ms :: IsMessage(m)
  }

  /** The assertion in `next` asks for a byte more than a header. */
  predicate EndsLong(ms: seq<Blob>) {
    ms != [] ==> |ms[|ms| - 1]| > HEADER_SIZE
  }

  /** The structures that the iterator is for: those of the interface messages, in order. */
  function Interfaces(ms: seq<Blob>): seq<Blob>
    requires AreMessages(ms)
  {
    if ms == [] then [] else
      assert IsMessage(ms[0]);
      (if IsInterface(ms[0]) then [ms[0][..MESSAGE_SIZE]] else []) + Interfaces(ms[1..])
  }

  /** Byte 3 decides about a message, wherever it stands: 18 gives its first 168 bytes and anything else is
      passed over. */
  lemma {:induction false} InterfaceTag(front: seq<Blob>, m: Blob, rest: seq<Blob>)
    requires AreMessages(front + [m] + rest)
    ensures AreMessages(front) && AreMessages(rest) && |m| >= 4 && Le16(m[0], m[1]) == |m|
    ensures m[3] == 18 ==> |m| >= 168
    ensures Interfaces(front + [m] + rest)
            == Interfaces(front) + (if m[3] == 18 then [m[..168]] else []) + Interfaces(rest)
  {
    var ms := front + [m] + rest;
    assert forall x <- front :: x in ms;
    assert forall x <- rest :: x in ms;
    assert IsMessage(m) by {
      assert m in ms;
    }
    if front == [] {
      assert ms[0] == m && ms[1..] == rest;
    } else {
      assert ms[0] == front[0] && ms[1..] == front[1..] + [m] + rest;
      assert IsMessage(front[0]);
      InterfaceTag(front[1..], m, rest);
      var head := if front[0][3] == 18 then [front[0][..168]] else [];
      var here := if m[3] == 18 then [m[..168]] else [];
      Assoc(head, Interfaces(front[1..]) + here, Interfaces(rest));
      Assoc(head, Interfaces(front[1..]), here);
    }
  }

  lemma {:induction false} PackedNotEmpty(ms: seq<Blob>)
    requires AreMessages(ms) && ms != []
    ensures |Packed(ms)| >= |ms[0]| && |ms[0]| >= HEADER_SIZE
    ensures |ms| > 1 ==> |Packed(ms)| >= |ms[0]| + HEADER_SIZE
  {
    assert IsMessage(ms[0]);
    if |ms| > 1 {
      PackedNotEmpty(ms[1..]);
    }
  }

  /** At the start of a message the assertion fails iff that message is the last one and is a bare header. */
  lemma {:induction false} AssertionExact(ms: seq<Blob>)
    requires AreMessages(ms) && ms != []
    ensures HEADER_SIZE < |Packed(ms)| <==> |ms| > 1 || |ms[0]| > HEADER_SIZE
  {
    PackedNotEmpty(ms);
    assert |ms| == 1 ==> Packed(ms[1..]) == [];
  }

  class Routes {
    var position: nat
    const data: Blob
    /** The messages from `position` on. */
    ghost var pending: seq<Blob>

    ghost predicate Valid()
      reads this
    {
      position <= |data| && data[position..] == Packed(pending) && AreMessages(pending) && EndsLong(pending)
    }

    constructor (messages: seq<Blob>)
      requires AreMessages(messages) && EndsLong(messages)
      ensures Valid() && pending == messages
    {
      position, data, pending := 0, Packed(messages), messages;
    }

    method Next() returns (r: Option<Blob>)
      requires Valid()
      modifies this
      ensures Valid()
      ensures Interfaces(old(pending)) == [] ==> r == None && pending == []
      ensures Interfaces(old(pending)) != [] ==>
                r == Some(Interfaces(old(pending))[0]) && Interfaces(pending) == Interfaces(old(pending))[1..]
      ensures |data| - position <= old(|data| - position)
      ensures r.Some? ==> |data| - position < old(|data| - position)
    {
      while true
        invariant Valid()
        invariant Interfaces(pending) == Interfaces(old(pending))
        invariant |data| - position <= old(|data| - position)
        decreases |data| - position
      {
        if position == |data| {
          assert pending == [] by {
            if pending != [] {
              PackedNotEmpty(pending);
              assert false;
            }
          }
          return None;
        }
        assert pending != [];
        AssertionExact(pending);
        PackedHead(pending, data, position);
        assert IsMessage(pending[0]);
        assert position + HEADER_SIZE < |data|;
        var length := Le16(data[position], data[position + 1]);
        var kind := data[position + 3];
        var start := position;
        position := position + length;
        ghost var message := pending[0];
        pending := pending[1..];
        if kind == RTM_IFINFO2 {
          assert data[start..start + MESSAGE_SIZE] == message[..MESSAGE_SIZE];
          return Some(data[start..start + MESSAGE_SIZE]);
        }
      }
    }
  }

  /** Draining the iterator comes to an end and yields exactly the interface messages. */
  method CollectRoutes(routes: Routes) returns (r: seq<Blob>)
    requires routes.Valid()
    modifies routes
    ensures routes.Valid() && r == Interfaces(old(routes.pending))
  {
    r := [];
    ghost var all := Interfaces(routes.pending);
    var item := routes.Next();
    while item.Some?
      invariant routes.Valid()
      invariant if item.Some? then r + [item.value] + Interfaces(routes.pending) == all else r == all
      decreases |routes.data| - routes.position, item.Some?
    {
      r := r + [item.value];
      assert r + Interfaces(routes.pending) == all;
      item := routes.Next();
    }
  }

  // ----- Windows: processor records -----

  const RELATION_PROCESSOR_CORE: nat := 0

  function Le32At(b: Blob, i: nat): nat
    requires i + 4 <= |b|
  {
    var (b0: int, b1: int, b2: int, b3: int) := (b[i], b[i + 1], b[i + 2], b[i + 3]);
    b0 + 256 * b1 + 65536 * b2 + 16777216 * b3
  }

  /** A relationship, then the record's own size. */
  predicate IsProcessor(p: Blob) {
    |p| >= 8 && Le32At(p, 4) == |p|
  }

  predicate AreProcessors(ps: seq<Blob>) {
    forall p <- ps :: IsProcessor(p)
  }

  predicate IsCore(p: Blob)
    requires IsProcessor(p)
  {
    Le32At(p, 0) == RELATION_PROCESSOR_CORE
  }

  function CoreCount(ps: seq<Blob>): nat
    requires AreProcessors(ps)
  {
    if ps == [] then 0 else
      assert IsProcessor(ps[0]);
      (if IsCore(ps[0]) then 1 else 0) + CoreCount(ps[1..])
  }

  lemma ProcessorsNotEmpty(ps: seq<Blob>)
    requires AreProcessors(ps) && ps != []
    ensures |Packed(ps)| >= 8
  {
    assert IsProcessor(ps[0]);
  }

  class LogicalProcessorsIter {
    const data: Blob
    var offset: nat
    /** The records from `offset` on. */
    ghost var pending: seq<Blob>

    ghost predicate Valid()
      reads this
    {
      offset <= |data| && data[offset..] == Packed(pending) && AreProcessors(pending)
    }

    constructor (processors: seq<Blob>)
      requires AreProcessors(processors)
      ensures Valid() && pending == processors
    {
      data, offset, pending := Packed(processors), 0, processors;
    }

    method Next() returns (r: Option<Blob>)
      requires Valid()
      modifies this
      ensures Valid()
      ensures old(pending) == [] ==> r == None && pending == []
      ensures old(pending) != [] ==> r == Some(old(pending)[0]) && pending == old(pending)[1..]
    {
      if offset >= |data| {
        assert pending == [] by {
          if pending != [] {
            ProcessorsNotEmpty(pending);
            assert false;
          }
        }
        return None;
      }
      assert pending != [];
      PackedHead(pending, data, offset);
      assert IsProcessor(pending[0]);
      var start := offset;
      var size := Le32At(data, offset + 4);
      offset := offset + size;
      pending := pending[1..];
      return Some(data[start..start + size]);
    }
  }

  /** `physical_count`: the processor cores among the records, or `None` when there is none. */
  method PhysicalCount(processors: LogicalProcessorsIter) returns (r: Option<nat>)
    requires processors.Valid()
    modifies processors
    ensures r == if CoreCount(old(processors.pending)) > 0 then Some(CoreCount(old(processors.pending))) else None
  {
    var count: nat := 0;
    ghost var all := CoreCount(processors.pending);
    ghost var left := processors.pending;
    var p := processors.Next();
    while p.Some?
      invariant processors.Valid()
      invariant if p.Some? then left != [] && p.value == left[0] && processors.pending == left[1..] else left == []
      invariant AreProcessors(left) && count + CoreCount(left) == all
      decreases |left|
    {
      assert IsProcessor(left[0]);
      if Le32At(p.value, 0) == RELATION_PROCESSOR_CORE {
        count := count + 1;
      }
      left := left[1..];
      p := processors.Next();
    }
    if count > 0 {
      return Some(count);
    }
    return None;
  }

  /** The relationship of a core, in the first four bytes, is zero. */
  predicate HasZeroTag(p: Blob) {
    |p| >= 4 && p[0] == 0 && p[1] == 0 && p[2] == 0 && p[3] == 0
  }

  function CorePositions(ps: seq<Blob>): set<nat> {
    set i: nat | i < |ps| && HasZeroTag(ps[i])
  }

  lemma CoreIsZero(p: Blob)
    requires IsProcessor(p)
    ensures IsCore(p) <==> HasZeroTag(p)
  {
  }

  lemma PositionsLast(ps: seq<Blob>)
    requires ps != []
    ensures CorePositions(ps)
            == CorePositions(ps[..|ps| - 1]) + if HasZeroTag(ps[|ps| - 1]) then {|ps| - 1} else {}
  {
    assert forall i | 0 <= i < |ps| - 1 :: ps[..|ps| - 1][i] == ps[i];
  }

  /** As many core records as there are positions with four zero bytes at the start. */
  lemma {:induction false} CoreCountMeaning(ps: seq<Blob>)
    requires AreProcessors(ps)
    ensures CoreCount(ps) == |CorePositions(ps)|
  {
    if ps != [] {
      var last := ps[|ps| - 1];
      assert IsProcessor(last);
      CoreIsZero(last);
      CoreCountMeaning(ps[..|ps| - 1]);
      CoreCountLast(ps);
      PositionsLast(ps);
      assert |ps| - 1 !in CorePositions(ps[..|ps| - 1]);
    }
  }

  lemma {:induction false} CoreCountLast(ps: seq<Blob>)
    requires AreProcessors(ps) && ps != []
    ensures CoreCount(ps) == CoreCount(ps[..|ps| - 1]) + if IsCore(ps[|ps| - 1]) then 1 else 0
  {
    if |ps| > 1 {
      CoreCountLast(ps[1..]);
      assert ps[1..][..|ps| - 2] == ps[..|ps| - 1][1..];
    }
  }

  // ----- Windows: drive roots -----

  type Wchar = c: int | 0 <= c < 0x1_0000

  /** `X:\` with its NUL, as `Drive::from` asserts. */
  predicate IsRoot(d: seq<Wchar>) {
    |d| == 4 && 0x41 <= d[0] <= 0x5a && d[1] == 0x3a && d[2] == 0x5c && d[3] == 0
  }

  /** The strings in front of the first empty one, each with its NUL. */
  function Strings(b: seq<Wchar>): seq<seq<Wchar>> {
    var i := IndexOf(b, 0);
    if i == |b| || i == 0 then [] else [b[..i + 1]] + Strings(b[i + 1..])
  }

  class Drives {
    const buffer: seq<Wchar>
    var position: nat

    ghost predicate Valid()
      reads this
    {
      position <= |buffer|
    }

    ghost function Pending(): seq<seq<Wchar>>
      requires Valid()
      reads this
    {
      Strings(buffer[position..])
    }

    constructor (buffer: seq<Wchar>)
      ensures Valid() && Pending() == Strings(buffer)
    {
      this.buffer, position := buffer, 0;
      new;
      assert this.buffer[position..] == buffer;
    }

    method Next() returns (r: Outcome<Option<seq<Wchar>>>)
      requires Valid()
      modifies this
      ensures Valid()
      ensures old(Pending()) == [] ==> r == Ok(None) && position == old(position)
      ensures old(Pending()) != [] ==>
                && Pending() == old(Pending())[1..]
                && r == if IsRoot(old(Pending())[0]) then Ok(Some(old(Pending())[0])) else Panic
    {
      ghost var left := buffer[position..];
      NotFoundAtEnd(left, 0);
      var found := Memchr(0, buffer[position..]);
      if found.None? || found.value == 0 {
        return Ok(None);
      }
      var start := position;
      var end := position + found.value + 1;
      position := end;
      assert buffer[start..end] == left[..found.value + 1] && buffer[end..] == left[found.value + 1..];
      if !IsRoot(buffer[start..end]) {
        return Panic;
      }
      return Ok(Some(buffer[start..end]));
    }
  }

  /** A root is a capital letter from A to Z, a colon, a backslash and a NUL. */
  lemma RootForm(d: seq<Wchar>)
    ensures IsRoot(d) <==> exists letter: Wchar :: 65 <= letter <= 90 && d == [letter, 58, 92, 0]
  {
    if IsRoot(d) {
      assert d == [d[0], 58, 92, 0];
    }
  }

  /** The walk gives exactly the roots up to an empty string, or up to one without a NUL, whatever follows. */
  lemma {:induction false} StringsOfRoots(roots: seq<seq<Wchar>>, tail: seq<Wchar>)
    requires forall d <- roots :: IsRoot(d)
    requires 0 !in tail || tail[0] == 0
    ensures Strings(Packed(roots) + tail) == roots
  {
    var b := Packed(roots) + tail;
    if roots == [] {
      assert b == tail;
      NotFoundAtEnd(b, 0);
    } else {
      var d, more := roots[0], Packed(roots[1..]) + tail;
      assert IsRoot(d);
      assert b == d[..3] + [0] + more;
      IndexOfFirst(d[..3], 0, more);
      assert b[..4] == d && b[4..] == more;
      StringsOfRoots(roots[1..], tail);
      assert roots == [d] + roots[1..];
    }
  }
}
