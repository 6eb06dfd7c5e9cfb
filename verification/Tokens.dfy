/** String pieces and the fallible cursor that the `/proc` parsers run on. */
module Tokens {
  import opened Wrappers
  import opened Bytes
  import opened Decimal

  /** The Unicode property `White_Space`. */
  predicate IsWhitespace(c: char) {
    var n := c as int;
    9 <= n <= 13 || n == 0x20 || n == 0x85 || n == 0xA0 || n == 0x1680 || 0x2000 <= n <= 0x200A
    || n == 0x2028 || n == 0x2029 || n == 0x202F || n == 0x205F || n == 0x3000
  }

  /** One by one. */
  lemma WhitespaceListed(c: char)
    ensures IsWhitespace(c) <==>
              c as int in {9, 10, 11, 12, 13, 32, 133, 160, 5760,
                           8192, 8193, 8194, 8195, 8196, 8197, 8198, 8199, 8200, 8201, 8202,
                           8232, 8233, 8239, 8287, 12288}
  {
  }

  /** Where the token that goes on at `from` ends. */
  function TokenEnd(s: string, from: nat): (n: nat)
    requires from <= |s|
    ensures from <= n <= |s|
    ensures forall k | from <= k < n :: !IsWhitespace(s[k])
    ensures n < |s| ==> IsWhitespace(s[n])
    decreases |s| - from
  {
    if from == |s| || IsWhitespace(s[from]) then from else TokenEnd(s, from + 1)
  }

  function SplitWhitespace(s: string): seq<string> {
    if s == [] then []
    else if IsWhitespace(s[0]) then SplitWhitespace(s[1..])
    else
      var n := TokenEnd(s, 1);
      [s[..n]] + SplitWhitespace(s[n..])
  }

  predicate IsToken(t: string) {
    t != [] && forall c <- t :: !IsWhitespace(c)
  }

  /** What cannot go on with a token in front of it. */
  predicate EndsToken(rest: string) {
    rest == [] || IsWhitespace(rest[0])
  }

  lemma {:induction false} SplitToken(t: string, rest: string)
    requires IsToken(t) && EndsToken(rest)
    ensures SplitWhitespace(t + rest) == [t] + SplitWhitespace(rest)
  {
    var s := t + rest;
    assert !IsWhitespace(s[0]) by {
      assert t[0] in t && s[0] == t[0];
    }
    var n := TokenEnd(s, 1);
    assert n == |t| by {
      assert forall k | 0 <= k < |t| :: s[k] == t[k] && t[k] in t;
      assert rest != [] ==> s[|t|] == rest[0];
    }
    assert s[..n] == t && s[n..] == rest;
  }

  /** `splitn(2, c)`: the part in front of the first `c` and, if there is one, all that follows it. */
  function SplitOnce(s: string, c: char): seq<string> {
    var i := IndexOf(s, c);
    if i == |s| then [s] else [s[..i], s[i + 1..]]
  }

  lemma {:induction false} SplitOnceAt(front: string, c: char, rest: string)
    requires c !in front
    ensures SplitOnce(front + [c] + rest, c) == [front, rest]
  {
    var s := front + [c] + rest;
    IndexOfFirst(front, c, rest);
    assert s[..|front|] == front && s[|front| + 1..] == rest;
  }

  /** `rfind`. */
  function FindLast(s: string, c: char): (r: Option<nat>)
    ensures r.Some? ==> r.value < |s| && s[r.value] == c && forall k | r.value < k < |s| :: s[k] != c
    ensures r.None? ==> c !in s
  {
    FindBefore(s, c, |s|)
  }

  function FindBefore(s: string, c: char, end: nat): (r: Option<nat>)
    requires end <= |s|
    ensures r.Some? ==> r.value < end && s[r.value] == c && forall k | r.value < k < end :: s[k] != c
    ensures r.None? ==> forall k | 0 <= k < end :: s[k] != c
  {
    if end == 0 then None else if s[end - 1] == c then Some(end - 1) else FindBefore(s, c, end - 1)
  }

  lemma {:induction false} FindLastAt(front: string, c: char, rest: string)
    requires c !in rest
    ensures FindLast(front + [c] + rest, c) == Some(|front|)
  {
    var s := front + [c] + rest;
    assert s[|front|] == c;
    assert forall k | |front| < k < |s| :: s[k] == rest[k - |front| - 1];
  }

  /** An iterator over pieces, with the calls that turn its end into an error. */
  class Cursor {
    var items: seq<string>

    constructor (items: seq<string>)
      ensures this.items == items
    {
      this.items := items;
    }

    method TryNext() returns (r: Outcome<string>)
      modifies this
      ensures old(items) == [] ==> r == Err(MissingData) && items == []
      ensures old(items) != [] ==> r == Ok(old(items)[0]) && items == old(items)[1..]
    {
      if items == [] {
        return Err(MissingData);
      }
      r := Ok(items[0]);
      items := items[1..];
    }

    method TryParseNext(t: IntType) returns (r: Outcome<int>)
      modifies this
      ensures old(items) == [] ==> r == Err(MissingData) && items == []
      ensures old(items) != [] ==>
                && items == old(items)[1..]
                && r == match ParseInt(t, old(items)[0]) case Some(v) => Ok(v) case None => Err(BadNumber)
    {
      var value :- TryNext();
      match ParseInt(t, value) {
        case Some(v) => return Ok(v);
        case None => return Err(BadNumber);
      }
    }
  }
}
