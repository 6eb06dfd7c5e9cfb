/** `ChooseChain`: the first of two streams if it yields anything, otherwise the second. */
module ChooseChain {

  /** `Poll::Pending`, `Poll::Ready(Some(value))` and `Poll::Ready(None)`. */
  datatype Poll<+T> = Pending | Item(value: T) | End

  /** The behaviour of a stream: its answers poll by poll, `End` for ever behind the last one, and
      what its `is_terminated` says after a number of polls. An `End` may stand between items: a
      stream that is not fused. */
  datatype Script<!T> = Script(answers: seq<Poll<T>>, terminated: nat -> bool) {
    function Answer(n: nat): Poll<T> {
      if n < |answers| then answers[n] else End
    }

    /** The answers in front of the first `End`. */
    function Front(): seq<Poll<T>> {
      UpToEnd(answers)
    }

    /** The contract of `FusedStream`: once terminated, every poll gives `End`. */
    ghost predicate Fused() {
      forall n: nat, m: nat | n <= m && terminated(n) :: Answer(m) == End
    }
  }

  function UpToEnd<T>(s: seq<Poll<T>>): (front: seq<Poll<T>>)
    ensures front <= s
    ensures forall k | 0 <= k < |front| :: front[k] != End
    ensures |front| < |s| ==> s[|front|] == End
  {
    if s == [] || s[0].End? then [] else
      var rest := UpToEnd(s[1..]);
      assert [s[0]] + rest <= s;
      [s[0]] + rest
  }

  ghost predicate Yields<T>(s: seq<Poll<T>>) {
    exists k | 0 <= k < |s| :: s[k].Item?
  }

  function Items<T>(s: seq<Poll<T>>): seq<T> {
    if s == [] then [] else (if s[0].Item? then [s[0].value] else []) + Items(s[1..])
  }

  class Stream<T> {
    const script: Script<T>
    var polls: nat

    constructor (script: Script<T>)
      ensures this.script == script && polls == 0
    {
      this.script, polls := script, 0;
    }

    method PollNext() returns (r: Poll<T>)
      modifies this
      ensures r == script.Answer(old(polls)) && polls == old(polls) + 1
    {
      r := script.Answer(polls);
      polls := polls + 1;
    }

    predicate IsTerminated()
      reads this
    {
      script.terminated(polls)
    }
  }

  /** The chain as a value: whether it still holds the first stream, whether that one has yielded,
      and how often each stream was polled. */
  datatype State<!T> = State(
    first: Script<T>, second: Script<T>, open: bool, yielded: bool, polls1: nat, polls2: nat)
  {
    predicate IsTerminated() {
      !open && second.terminated(polls2)
    }
  }

  function Init<T>(first: Script<T>, second: Script<T>): State<T> {
    State(first, second, true, false, 0, 0)
  }

  function PollSecond<T>(s: State<T>): (State<T>, Poll<T>) {
    if s.yielded then (s, End) else (s.(polls2 := s.polls2 + 1), s.second.Answer(s.polls2))
  }

  function PollOnce<T>(s: State<T>): (State<T>, Poll<T>) {
    if !s.open then PollSecond(s) else
      var polled := s.(polls1 := s.polls1 + 1);
      match s.first.Answer(s.polls1)
      case Pending => (polled, Pending)
      case Item(v) => (polled.(yielded := true), Item(v))
      case End => PollSecond(polled.(open := false))
  }

  class ChooseChain<T> {
    var first: Stream?<T>
    var firstYielded: bool
    const second: Stream<T>
    /** The first stream, also after the chain has let go of it. */
    ghost const origin: Stream<T>

    ghost predicate Valid()
      reads this
    {
      origin != second && (first == null || first == origin)
    }

    ghost function Abstract(): State<T>
      reads this, origin, second
    {
      State(origin.script, second.script, first != null, firstYielded, origin.polls, second.polls)
    }

    constructor (stream1: Stream<T>, stream2: Stream<T>)
      requires stream1 != stream2 && stream1.polls == 0 && stream2.polls == 0
      ensures Valid() && Abstract() == Init(stream1.script, stream2.script)
      ensures origin == stream1 && second == stream2
    {
      first, firstYielded, second, origin := stream1, false, stream2, stream1;
    }

    method PollNext() returns (r: Poll<T>)
      requires Valid()
      modifies this, origin, second
      ensures Valid()
      ensures (Abstract(), r) == PollOnce(old(Abstract()))
    {
      if first != null {
        var item := first.PollNext();
        if item.Pending? {
          return Pending;
        }
        if item.Item? {
          firstYielded := true;
          return item;
        }
      }
      first := null;
      if firstYielded {
        return End;
      }
      r := second.PollNext();
    }

    method IsTerminated() returns (r: bool)
      requires Valid()
      ensures r == Abstract().IsTerminated()
    {
      return first == null && second.IsTerminated();
    }
  }

  /** The state after `n` polls of a new chain. */
  function After<T>(first: Script<T>, second: Script<T>, n: nat): State<T> {
    if n == 0 then Init(first, second) else PollOnce(After(first, second, n - 1)).0
  }

  /** The answer to poll number `n` of a new chain. */
  function Output<T>(first: Script<T>, second: Script<T>, n: nat): Poll<T> {
    PollOnce(After(first, second, n)).1
  }

  function Min(a: nat, b: nat): nat {
    if a <= b then a else b
  }

  /** The whole state after any number of polls: the first stream is polled up to its end and never
      again, the second one only behind that, and not at all when the first has yielded. */
  lemma {:induction false} StateAfter<T>(first: Script<T>, second: Script<T>, n: nat)
    ensures var f := first.Front();
            var s := After(first, second, n);
            && s.first == first && s.second == second
            && s.open == (n <= |f|)
            && s.yielded == Yields(f[..Min(n, |f|)])
            && s.polls1 == Min(n, |f| + 1)
            && s.polls2 == if n <= |f| || Yields(f) then 0 else n - |f|
  {
    var f := first.Front();
    if n > 0 {
      StateAfter(first, second, n - 1);
      if n <= |f| {
        assert first.Answer(n - 1) == f[n - 1];
        YieldsStep(f, n);
      } else {
        assert first.Answer(|f|) == End;
        assert f[..|f|] == f;
      }
    }
  }

  lemma YieldsStep<T>(f: seq<Poll<T>>, n: nat)
    requires 0 < n <= |f|
    ensures Yields(f[..n]) <==> Yields(f[..n - 1]) || f[n - 1].Item?
  {
    if Yields(f[..n]) {
      var k :| 0 <= k < n && f[..n][k].Item?;
      assert k < n - 1 ==> f[..n - 1][k].Item?;
    }
    if Yields(f[..n - 1]) {
      var k :| 0 <= k < n - 1 && f[..n - 1][k].Item?;
      assert f[..n][k].Item?;
    }
    if f[n - 1].Item? {
      assert f[..n][n - 1].Item?;
    }
  }

  /** Every answer of every run, wherever the streams say `Pending`. */
  lemma {:induction false} OutputAt<T>(first: Script<T>, second: Script<T>, n: nat)
    ensures var f := first.Front();
            Output(first, second, n) ==
              if n < |f| then f[n] else if Yields(f) then End else second.Answer(n - |f|)
  {
    var f := first.Front();
    StateAfter(first, second, n);
    assert f[..|f|] == f;
    if n <= |f| {
      assert n < |f| ==> first.Answer(n) == f[n];
      assert first.Answer(|f|) == End;
    }
  }

  /** The answers of a run up to its first `End`. */
  ghost function Expected<T>(first: Script<T>, second: Script<T>): seq<Poll<T>> {
    if Yields(first.Front()) then first.Front() else first.Front() + second.Front()
  }

  function Outputs<T>(first: Script<T>, second: Script<T>, n: nat): seq<Poll<T>> {
    seq(n, i requires 0 <= i < n => Output(first, second, i))
  }

  /** A run to completion: what it yields, how many polls it takes, and how often it polls each stream.
      Its answers are the answers of the streams it polled, so it is pending exactly when they are. */
  lemma {:induction false} RunToCompletion<T>(first: Script<T>, second: Script<T>)
    ensures var answers := Expected(first, second);
            var done := After(first, second, |answers| + 1);
            && Outputs(first, second, |answers| + 1) == answers + [End]
            && (forall k | 0 <= k < |answers| :: answers[k] != End)
            && Items(answers) == (if Items(first.Front()) != [] then Items(first.Front()) else Items(second.Front()))
            && done.polls1 == |first.Front()| + 1
            && done.polls2 == (if Items(first.Front()) != [] then 0 else |second.Front()| + 1)
  {
    var f, g := first.Front(), second.Front();
    var answers := Expected(first, second);
    forall k | 0 <= k <= |answers|
      ensures Output(first, second, k) == (answers + [End])[k]
    {
      OutputAt(first, second, k);
      assert |f| <= k && !Yields(f) && k < |f| + |g| ==> second.Answer(k - |f|) == g[k - |f|];
    }
    StateAfter(first, second, |answers| + 1);
    ItemsOfFront(f);
    ItemsAppend(f, g);
  }

  lemma {:induction false} ItemsOfFront<T>(s: seq<Poll<T>>)
    ensures Yields(s) <==> Items(s) != []
  {
    if s != [] {
      ItemsOfFront(s[1..]);
      if Yields(s) && !s[0].Item? {
        var k :| 0 <= k < |s| && s[k].Item?;
        assert s[1..][k - 1].Item?;
      }
      if Yields(s[1..]) {
        var k :| 0 <= k < |s| - 1 && s[1..][k].Item?;
        assert s[k + 1].Item?;
      }
    }
  }

  lemma {:induction false} ItemsAppend<T>(s: seq<Poll<T>>, t: seq<Poll<T>>)
    ensures Items(s + t) == Items(s) + Items(t)
  {
    if s == [] {
      assert s + t == t;
    } else {
      assert (s + t)[1..] == s[1..] + t;
      ItemsAppend(s[1..], t);
      var head := if s[0].Item? then [s[0].value] else [];
      assert head + (Items(s[1..]) + Items(t)) == head + Items(s[1..]) + Items(t);
    }
  }

  /** A chain says it is terminated iff the first stream was polled to its end and the second one says so
      after the polls that it got: none if the first stream yielded, and otherwise all from that end on. */
  lemma {:induction false} TerminatedExact<T>(first: Script<T>, second: Script<T>, n: nat)
    ensures var f := first.Front();
            After(first, second, n).IsTerminated()
            <==> n > |f| && second.terminated(if Yields(f) then 0 else n - |f|)
  {
    StateAfter(first, second, n);
  }

  /** When the second stream keeps its contract, a chain that says it is terminated is. */
  lemma {:induction false} TerminatedIsFinal<T>(first: Script<T>, second: Script<T>, n: nat, m: nat)
    requires second.Fused() && n <= m
    requires After(first, second, n).IsTerminated()
    ensures Output(first, second, m) == End
  {
    StateAfter(first, second, n);
    OutputAt(first, second, m);
  }

  /** The converse fails when the first stream has yielded: the chain has ended, but it goes on
      asking a second stream that it never polls. */
  lemma {:induction false} NeverTerminatedAfterYield<T>(first: Script<T>, second: Script<T>, n: nat)
    requires Yields(first.Front()) && n > |first.Front()|
    ensures Output(first, second, n) == End
    ensures After(first, second, n).IsTerminated() <==> second.terminated(0)
  {
    StateAfter(first, second, n);
    OutputAt(first, second, n);
  }

  /** A chain stays at its end exactly if the first stream has yielded or the second one stays at its own. */
  lemma {:induction false} StaysEndedExact<T>(first: Script<T>, second: Script<T>)
    ensures (forall n: nat | n >= |Expected(first, second)| :: Output(first, second, n) == End)
            <==> Yields(first.Front()) || (forall m: nat | m >= |second.Front()| :: second.Answer(m) == End)
  {
    var f, g := first.Front(), second.Front();
    var e := |Expected(first, second)|;
    if forall n: nat | n >= e :: Output(first, second, n) == End {
      forall m: nat | m >= |g| && !Yields(f)
        ensures second.Answer(m) == End
      {
        OutputAt(first, second, |f| + m);
        assert Output(first, second, |f| + m) == End;
      }
    }
    if Yields(f) || (forall m: nat | m >= |g| :: second.Answer(m) == End) {
      forall n: nat | n >= e
        ensures Output(first, second, n) == End
      {
        OutputAt(first, second, n);
      }
    }
  }
}
