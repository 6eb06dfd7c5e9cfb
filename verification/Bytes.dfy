/** Byte strings, `memchr`, and blocks of records that each end in a delimiter. */
module Bytes {
  import opened Wrappers

  type Byte = b: int | 0 <= b < 256
  type Blob = seq<Byte>

  const NUL: Byte := 0
  const SPACE: Byte := 32
  const SLASH: Byte := 47
  const EQUALS: Byte := 61

  /** The first position of `x` at or behind `from`, or `|s|` when there is none. */
  function IndexFrom<T(==)>(s: seq<T>, x: T, from: nat): (i: nat)
    requires from <= |s|
    ensures from <= i <= |s|
    ensures forall k | from <= k < i :: s[k] != x
    ensures i < |s| ==> s[i] == x
    decreases |s| - from
  {
    if from == |s| || s[from] == x then from else IndexFrom(s, x, from + 1)
  }

  /** The first position of `x`, or `|s|` when there is none. */
  function IndexOf<T(==)>(s: seq<T>, x: T): (i: nat)
    ensures i <= |s|
    ensures forall k | 0 <= k < i :: s[k] != x
    ensures i < |s| ==> s[i] == x
  {
    IndexFrom(s, x, 0)
  }

  /** The search every decoder is written with. */
  method Memchr<T(==)>(x: T, s: seq<T>) returns (r: Option<nat>)
    ensures r == if x in s then Some(IndexOf(s, x)) else None
  {
    for i := 0 to |s|
      invariant forall k | 0 <= k < i :: s[k] != x
    {
      if s[i] == x {
        return Some(i);
      }
    }
    return None;
  }

  lemma {:induction false} IndexOfFirst<T>(p: seq<T>, x: T, rest: seq<T>)
    requires x !in p
    ensures IndexOf(p + [x] + rest, x) == |p|
  {
    var s := p + [x] + rest;
    assert forall k | 0 <= k < |p| :: s[k] == p[k];
    assert s[|p|] == x;
  }

  lemma {:induction false} IndexOfPrefix<T>(s: seq<T>, t: seq<T>, x: T)
    requires x in s
    ensures IndexOf(s + t, x) == IndexOf(s, x) < |s|
  {
    var i := IndexOf(s, x);
    assert forall k | 0 <= k < |s| :: (s + t)[k] == s[k];
    assert (s + t)[i] == x;
  }

  lemma {:induction false} NotFoundAtEnd<T>(s: seq<T>, x: T)
    ensures x in s <==> IndexOf(s, x) < |s|
  {
  }

  lemma Assoc<T>(a: seq<T>, b: seq<T>, c: seq<T>)
    ensures a + (b + c) == (a + b) + c
  {
  }

  /** Every record followed by `d`. */
  function Terminated<T>(rs: seq<seq<T>>, d: T): seq<T> {
    if rs == [] then [] else rs[0] + [d] + Terminated(rs[1..], d)
  }

  /** The records with `d` between them. */
  function Separated<T>(rs: seq<seq<T>>, d: T): seq<T> {
    if rs == [] then [] else if |rs| == 1 then rs[0] else rs[0] + [d] + Separated(rs[1..], d)
  }

  lemma {:induction false} SeparatedCloses<T>(rs: seq<seq<T>>, d: T)
    requires rs != []
    ensures Separated(rs, d) + [d] == Terminated(rs, d)
  {
    if |rs| == 1 {
      assert Terminated(rs[1..], d) == [];
    } else {
      SeparatedCloses(rs[1..], d);
      Assoc(rs[0] + [d], Separated(rs[1..], d), [d]);
    }
  }

  /** The records of `b` that are closed by `d`; what follows the last `d` is no record. */
  function Records<T(==)>(b: seq<T>, d: T): seq<seq<T>> {
    var i := IndexOf(b, d);
    if i == |b| then [] else [b[..i]] + Records(b[i + 1..], d)
  }

  predicate AllFree<T(==)>(rs: seq<seq<T>>, d: T) {
    forall r <- rs :: d !in r
  }

  lemma {:induction false} TerminatedAppend<T>(rs: seq<seq<T>>, ss: seq<seq<T>>, d: T)
    ensures Terminated(rs + ss, d) == Terminated(rs, d) + Terminated(ss, d)
  {
    if rs == [] {
      assert rs + ss == ss;
    } else {
      assert (rs + ss)[1..] == rs[1..] + ss;
      TerminatedAppend(rs[1..], ss, d);
    }
  }

  lemma {:induction false} RecordsStep<T>(r: seq<T>, d: T, tail: seq<T>)
    requires d !in r
    ensures Records(r + [d] + tail, d) == [r] + Records(tail, d)
  {
    var b := r + [d] + tail;
    IndexOfFirst(r, d, tail);
    assert b[..|r|] == r && b[|r| + 1..] == tail;
  }

  /** Splitting inverts joining, and whatever follows is split on its own. */
  lemma {:induction false} RecordsOfTerminated<T>(rs: seq<seq<T>>, d: T, rest: seq<T>)
    requires AllFree(rs, d)
    ensures Records(Terminated(rs, d) + rest, d) == rs + Records(rest, d)
  {
    if rs == [] {
      assert Terminated(rs, d) + rest == rest;
      assert rs + Records(rest, d) == Records(rest, d);
    } else {
      var more := Terminated(rs[1..], d);
      Assoc(rs[0] + [d], more, rest);
      RecordsStep(rs[0], d, more + rest);
      RecordsOfTerminated(rs[1..], d, rest);
      Assoc([rs[0]], rs[1..], Records(rest, d));
      assert [rs[0]] + rs[1..] == rs;
    }
  }

  /** Joining inverts splitting up to the part behind the last delimiter. */
  lemma {:induction false} TerminatedOfRecords<T>(b: seq<T>, d: T) returns (rest: seq<T>)
    ensures Terminated(Records(b, d), d) + rest == b
    ensures d !in rest
    ensures AllFree(Records(b, d), d)
  {
    var i := IndexOf(b, d);
    if i == |b| {
      assert b[..i] == b;
      rest := b;
    } else {
      rest := TerminatedOfRecords(b[i + 1..], d);
      Assoc(b[..i] + [d], Terminated(Records(b[i + 1..], d), d), rest);
      assert b[..i] + [d] + b[i + 1..] == b;
      assert Records(b, d)[1..] == Records(b[i + 1..], d);
    }
  }

  lemma {:induction false} TerminatedEnds<T>(rs: seq<seq<T>>, d: T)
    requires rs != []
    ensures var t := Terminated(rs, d); t != [] && t[|t| - 1] == d
  {
    if |rs| > 1 {
      TerminatedEnds(rs[1..], d);
    }
  }

  function Count<T(==)>(s: seq<T>, x: T): nat {
    if s == [] then 0 else (if s[0] == x then 1 else 0) + Count(s[1..], x)
  }

  /** The position of occurrence number `n` of `x` at or behind `from`, counted from zero. */
  function NthFrom<T(==)>(s: seq<T>, x: T, n: nat, from: nat): (r: Option<nat>)
    requires from <= |s|
    ensures r.Some? ==> from <= r.value < |s| && s[r.value] == x
    decreases |s| - from
  {
    var i := IndexFrom(s, x, from);
    if i == |s| then None else if n == 0 then Some(i) else NthFrom(s, x, n - 1, i + 1)
  }

  lemma {:induction false} CountFree<T>(s: seq<T>, x: T)
    ensures x !in s <==> Count(s, x) == 0
  {
    if s != [] {
      CountFree(s[1..], x);
    }
  }

  lemma {:induction false} CountAppend<T>(s: seq<T>, t: seq<T>, x: T)
    ensures Count(s + t, x) == Count(s, x) + Count(t, x)
  {
    if s == [] {
      assert s + t == t;
    } else {
      assert (s + t)[1..] == s[1..] + t;
      CountAppend(s[1..], t, x);
    }
  }

  lemma {:induction false} CountGap<T>(s: seq<T>, x: T, from: nat, i: nat, end: nat)
    requires from <= i < end <= |s| && s[i] == x && forall k | from <= k < i :: s[k] != x
    ensures Count(s[from..end], x) == 1 + Count(s[i + 1..end], x)
  {
    CountFree(s[from..i], x);
    assert s[from..end] == s[from..i] + [x] + s[i + 1..end];
    CountAppend(s[from..i] + [x], s[i + 1..end], x);
    CountAppend(s[from..i], [x], x);
  }

  /** `NthFrom` is an occurrence with `n` others in front of it, and there is none iff `n` are all. */
  lemma {:induction false} NthFromMeaning<T>(s: seq<T>, x: T, n: nat, from: nat)
    requires from <= |s|
    ensures NthFrom(s, x, n, from).Some? <==> n < Count(s[from..|s|], x)
    ensures NthFrom(s, x, n, from).Some? ==> Count(s[from..NthFrom(s, x, n, from).value], x) == n
    decreases |s| - from
  {
    var i := IndexFrom(s, x, from);
    CountFree(s[from..i], x);
    if i < |s| {
      CountGap(s, x, from, i, |s|);
      if n > 0 {
        NthFromMeaning(s, x, n - 1, i + 1);
        var r := NthFrom(s, x, n - 1, i + 1);
        if r.Some? {
          CountGap(s, x, from, i, r.value);
        }
      }
    }
  }

  lemma {:induction false} IndexFromFirst<T>(s: seq<T>, x: T, from: nat, p: seq<T>)
    requires x !in p && from + |p| < |s| && s[from..from + |p|] == p && s[from + |p|] == x
    ensures IndexFrom(s, x, from) == from + |p|
  {
    assert forall k | from <= k < from + |p| :: s[k] == p[k - from];
  }

  /** In a block of `n + 1` records, delimiter number `n` is the last element. */
  lemma {:induction false} NthOfTerminated<T>(s: seq<T>, from: nat, rs: seq<seq<T>>, d: T)
    requires rs != [] && AllFree(rs, d)
    requires from <= |s| && Terminated(rs, d) <= s[from..]
    ensures NthFrom(s, d, |rs| - 1, from) == Some(from + |Terminated(rs, d)| - 1)
    decreases |rs|
  {
    var next := from + |rs[0]| + 1;
    assert s[from..][..|rs[0]|] == rs[0] && s[from..][|rs[0]|] == d;
    assert s[from..next - 1] == s[from..][..|rs[0]|];
    IndexFromFirst(s, d, from, rs[0]);
    if |rs| > 1 {
      assert Terminated(rs[1..], d) <= s[next..] by {
        assert Terminated(rs, d)[|rs[0]| + 1..] == Terminated(rs[1..], d);
        assert s[next..] == s[from..][|rs[0]| + 1..];
      }
      NthOfTerminated(s, next, rs[1..], d);
    }
  }

  /** `'\0'` replaced by `' '`. */
  function Spaced(b: Blob): (r: Blob)
    ensures |r| == |b|
    ensures forall k | 0 <= k < |b| :: r[k] == if b[k] == NUL then SPACE else b[k]
  {
    seq(|b|, k requires 0 <= k < |b| => if b[k] == NUL then SPACE else b[k])
  }

  /** The in-place loop with which both platforms turn an argument block into a command line. */
  method NulsToSpaces(bytes: array<Byte>)
    modifies bytes
    ensures bytes[..] == Spaced(old(bytes[..]))
  {
    for i := 0 to bytes.Length
      invariant forall k | 0 <= k < i :: bytes[k] == if old(bytes[k]) == NUL then SPACE else old(bytes[k])
      invariant forall k | i <= k < bytes.Length :: bytes[k] == old(bytes[k])
    {
      if bytes[i] == NUL {
        bytes[i] := SPACE;
      }
    }
  }

  /** On a block of NUL-free records the replacement touches the separators and nothing else. */
  lemma {:induction false} SpacedSeparated(rs: seq<Blob>)
    requires AllFree(rs, NUL)
    ensures Spaced(Separated(rs, NUL)) == Separated(rs, SPACE)
  {
    if |rs| == 1 {
      SpacedFree(rs[0]);
    } else if rs != [] {
      SpacedFree(rs[0]);
      SpacedSeparated(rs[1..]);
      SpacedAppend(rs[0] + [NUL], Separated(rs[1..], NUL));
      SpacedAppend(rs[0], [NUL]);
      assert Spaced([NUL]) == [SPACE];
    }
  }

  lemma SpacedFree(b: Blob)
    requires NUL !in b
    ensures Spaced(b) == b
  {
    assert forall k | 0 <= k < |b| :: b[k] in b;
  }

  lemma SpacedAppend(a: Blob, b: Blob)
    ensures Spaced(a + b) == Spaced(a) + Spaced(b)
  {
  }

  function Zeros(n: nat): Blob {
    seq(n, i => NUL)
  }
}
